/** fdt/fdt_rw.c: adding and removing memory reservations in place. */
module FdtMemRsv {
  import opened Bytes
  import opened Tokens
  import opened Forests
  import opened Trees
  import opened Blobs
  import opened Layouts
  import opened Edits
  import opened SwLayouts
  import opened Checks
  import opened Repacks
  import opened RoundTrips
  import opened FdtRw

  /** `fdt_splice_mem_rsv_` at byte `p` of the blob, which may be anywhere in it. */
  function RsvSpliced(b: seq<byte>, p: nat, oldlen: nat, newlen: nat): (r: seq<byte>)
    requires Sound(b) && SpliceError(Hdr(b), p, oldlen, newlen) == 0
    ensures |r| == |b|
  {
    var d := newlen - oldlen;
    var b1 := Spliced(b, DataSize(Hdr(b)), p, oldlen, newlen);
    var b2 := Put(b1, 4 * W_OFF_STRUCT, Enc32(Wrap32(Word(b1, W_OFF_STRUCT) + d)));
    Put(b2, 4 * W_OFF_STRINGS, Enc32(Wrap32(Word(b2, W_OFF_STRINGS) + d)))
  }

  /** A splice of one entry or of none, anywhere behind the header. */
  predicate BehindHeader(b: seq<byte>, p: int, oldlen: nat, newlen: nat) {
    && Sound(b) && Ordered(Hdr(b)) && SpliceError(Hdr(b), p, oldlen, newlen) == 0
    && HEADER_SIZE <= p && oldlen <= RSV_SIZE && newlen <= RSV_SIZE
  }

  /** Both offsets move, and every byte behind the splice does, whatever block it belongs to. */
  lemma RsvSplicedParts(b: seq<byte>, p: nat, oldlen: nat, newlen: nat)
    requires BehindHeader(b, p, oldlen, newlen)
    ensures var h, c, d := Hdr(b), RsvSpliced(b, p, oldlen, newlen), newlen - oldlen;
      && Sound(c) && Hdr(c) == h.(offStruct := h.offStruct + d, offStrings := h.offStrings + d)
      && forall i {:trigger c[i]} :: HEADER_SIZE <= i < |b| ==>
        c[i] == if p + newlen <= i < DataSize(h) + d then b[i - d] else b[i]
  {
    hide Hdr, RsvSpliced;
    var h, c, d := Hdr(b), RsvSpliced(b, p, oldlen, newlen), newlen - oldlen;
    RsvSplicedHeader(b, p, oldlen, newlen);
    forall i {:trigger c[i]} | HEADER_SIZE <= i < |b|
      ensures c[i] == if p + newlen <= i < DataSize(h) + d then b[i - d] else b[i]
    {
      RsvSplicedByte(b, p, oldlen, newlen, i);
    }
  }

  lemma RsvSplicedByte(b: seq<byte>, p: nat, oldlen: nat, newlen: nat, i: nat)
    requires Sound(b) && SpliceError(Hdr(b), p, oldlen, newlen) == 0 && HEADER_SIZE <= i < |b|
    ensures var d := newlen - oldlen;
      RsvSpliced(b, p, oldlen, newlen)[i] == if p + newlen <= i < DataSize(Hdr(b)) + d then b[i - d] else b[i]
  {
    hide Hdr, RsvSpliced, Moved;
    var c, s := RsvSpliced(b, p, oldlen, newlen), Spliced(b, DataSize(Hdr(b)), p, oldlen, newlen);
    RsvSplicedBlock(b, p, oldlen, newlen, i, i + 1);
    assert c[i] == c[i..i + 1][0] && s[i] == s[i..i + 1][0];
    MovedByte(b, p + newlen, p + oldlen, DataSize(Hdr(b)) - p - oldlen, i);
  }

  lemma RsvSplicedHeader(b: seq<byte>, p: nat, oldlen: nat, newlen: nat)
    requires BehindHeader(b, p, oldlen, newlen)
    ensures var h, c, d := Hdr(b), RsvSpliced(b, p, oldlen, newlen), newlen - oldlen;
      Sound(c) && Hdr(c) == h.(offStruct := h.offStruct + d, offStrings := h.offStrings + d)
  {
    hide Hdr, Put, Dec32, Enc32, Spliced, Word, HeaderOk, Wrap32;
    var h, d := Hdr(b), newlen - oldlen;
    MovedOk(h, p, oldlen, newlen, |b|);
    var b1 := Spliced(b, DataSize(h), p, oldlen, newlen);
    SplicedSlices(b, DataSize(h), p, oldlen, newlen, 0, HEADER_SIZE);
    assert b1[..HEADER_SIZE] == b1[0..HEADER_SIZE] && b[..HEADER_SIZE] == b[0..HEADER_SIZE];
    HdrKept(b, b1);
    OffsetWords(b1);
    HdrWord(b1, W_OFF_STRUCT, h.offStruct + d);
    OffsetWords(Put(b1, 4 * W_OFF_STRUCT, Enc32(h.offStruct + d)));
    HdrWord(Put(b1, 4 * W_OFF_STRUCT, Enc32(h.offStruct + d)), W_OFF_STRINGS, h.offStrings + d);
  }

  /** The header with both offsets moved by the length of an entry, up or down. */
  lemma MovedOk(h: Header, p: nat, oldlen: nat, newlen: nat, size: nat)
    requires HeaderOk(h, size) && Ordered(h) && SpliceError(h, p, oldlen, newlen) == 0
    requires HEADER_SIZE <= p && oldlen <= RSV_SIZE && newlen <= RSV_SIZE
    ensures var d := newlen - oldlen;
      && 0 <= h.offStruct + d <= h.offStrings + d < 0x1_0000_0000 && DataSize(h) <= h.totalsize <= size
      && Wrap32(h.offStruct + d) == h.offStruct + d && Wrap32(h.offStrings + d) == h.offStrings + d
      && HeaderOk(h.(offStruct := h.offStruct + d, offStrings := h.offStrings + d), size)
  {
  }

  lemma OffsetWords(b: seq<byte>)
    requires |b| >= HEADER_SIZE
    ensures Word(b, W_OFF_STRUCT) == Hdr(b).offStruct && Word(b, W_OFF_STRINGS) == Hdr(b).offStrings
  {
  }

  lemma RsvSplicedBlock(b: seq<byte>, p: nat, oldlen: nat, newlen: nat, i: nat, j: nat)
    requires Sound(b) && SpliceError(Hdr(b), p, oldlen, newlen) == 0 && HEADER_SIZE <= i <= j <= |b|
    ensures RsvSpliced(b, p, oldlen, newlen)[i..j] == Spliced(b, DataSize(Hdr(b)), p, oldlen, newlen)[i..j]
  {
    hide Hdr, Put, Dec32, Word, Enc32, Spliced, Wrap32;
    var d := newlen - oldlen;
    var b1 := Spliced(b, DataSize(Hdr(b)), p, oldlen, newlen);
    HeaderWrite(b1, W_OFF_STRUCT, Wrap32(Word(b1, W_OFF_STRUCT) + d), i, j);
    var b2 := Put(b1, 4 * W_OFF_STRUCT, Enc32(Wrap32(Word(b1, W_OFF_STRUCT) + d)));
    HeaderWrite(b2, W_OFF_STRINGS, Wrap32(Word(b2, W_OFF_STRINGS) + d), i, j);
  }

  /** `fdt_splice_mem_rsv_`. */
  method SpliceMemRsv(d: Dtb, p: int, oldlen: nat, newlen: nat) returns (err: int)
    requires Sound(d.buf[..])
    modifies d.buf
    ensures err == SpliceError(Hdr(old(d.buf[..])), p, oldlen, newlen)
    ensures err != 0 ==> d.buf[..] == old(d.buf[..])
    ensures err == 0 ==> d.buf[..] == RsvSpliced(old(d.buf[..]), p, oldlen, newlen)
  {
    hide Hdr, Put, Spliced, Enc32, Wrap32, Word;
    var delta := newlen - oldlen;
    err := d.Splice(p, oldlen, newlen);
    if err != 0 {
      return;
    }
    OffsetWords(d.buf[..]);
    d.SetWord(W_OFF_STRUCT, Wrap32(Hdr(d.buf[..]).offStruct + delta));
    OffsetWords(d.buf[..]);
    d.SetWord(W_OFF_STRINGS, Wrap32(Hdr(d.buf[..]).offStrings + delta));
  }

  /** A list of entries in a blob: nonzero sizes, then the terminator. */
  lemma ListIs(b: seq<byte>, rs: seq<Rsv>)
    requires Sound(b) && Hdr(b).offRsv + 16 * (|rs| + 1) <= Hdr(b).totalsize
    requires forall k :: 0 <= k < |rs| ==> rs[k].size != 0 && Entry(b, Hdr(b).offRsv + 16 * k) == rs[k]
    requires Entry(b, Hdr(b).offRsv + 16 * |rs|).size == 0
    ensures RsvCount(b, 0) == Some(|rs|) && RsvList(b) == rs
  {
    hide Hdr, RsvCount, Entry;
    forall k | 0 <= k < |rs| ensures Entry(b, Hdr(b).offRsv + 16 * k).size != 0 {
      assert rs[k].size != 0;
    }
    CountIs(b, 0, |rs|);
    forall k | 0 <= k < |rs| ensures RsvList(b)[k] == rs[k] {
    }
  }

  /** The place `fdt_num_mem_rsv` points at: the terminator, or 128 bytes in front of a list that has none. */
  function RsvEnd(b: seq<byte>): int
    requires Sound(b)
  {
    Hdr(b).offRsv + 16 * (match RsvCount(b, 0) case Some(n) => n case None => -TRUNCATED)
  }

  /** The blob that `fdt_add_mem_rsv` leaves. */
  function RsvAdded(b: seq<byte>, r: Rsv): seq<byte>
    requires Sound(b) && SpliceError(Hdr(b), RsvEnd(b), 0, 16) == 0
  {
    Put(RsvSpliced(b, RsvEnd(b), 0, 16), RsvEnd(b), Enc64(r.address) + Enc64(r.size))
  }

  // ---------------------------------------------------------------- adding an entry

  /** The entry can be inserted at `RsvEnd`, which is not a place in the header. */
  predicate Insertable(b: seq<byte>) { Sound(b) && BehindHeader(b, RsvEnd(b), 0, 16) }

  /** `c` is `b` with `x` inserted at `e`: what lies between that place and `end` has moved. */
  predicate Inserted(b: seq<byte>, c: seq<byte>, e: nat, end: nat, x: seq<byte>) {
    && |x| == 16 && |c| == |b| && HEADER_SIZE <= e <= end && end + 16 <= |b|
    && (forall i {:trigger c[i]} :: HEADER_SIZE <= i < e ==> c[i] == b[i])
    && (forall i {:trigger c[i]} :: e <= i < e + 16 ==> c[i] == x[i - e])
    && (forall i {:trigger c[i]} :: e + 16 <= i < |b| ==> c[i] == if i < end + 16 then b[i - 16] else b[i])
  }

  /** A write behind the header. */
  lemma PutBehind(b: seq<byte>, at: nat, x: seq<byte>)
    requires Sound(b) && HEADER_SIZE <= at && at + |x| <= |b|
    ensures Sound(Put(b, at, x)) && Hdr(Put(b, at, x)) == Hdr(b)
  {
    hide Hdr, Put;
    var c := Put(b, at, x);
    PutSlice(b, at, x, 0, HEADER_SIZE);
    assert c[..HEADER_SIZE] == c[0..HEADER_SIZE] && b[..HEADER_SIZE] == b[0..HEADER_SIZE];
    HdrKept(b, c);
  }

  lemma PutByte(b: seq<byte>, at: nat, x: seq<byte>, i: nat)
    requires at + |x| <= |b| && i < |b|
    ensures Put(b, at, x)[i] == if at <= i < at + |x| then x[i - at] else b[i]
  {
  }

  /** Header and bytes after an entry has been added. */
  lemma RsvAddedBytes(b: seq<byte>, r: Rsv)
    requires Insertable(b)
    ensures var h, c := Hdr(b), RsvAdded(b, r);
      && Sound(c) && Hdr(c) == h.(offStruct := h.offStruct + 16, offStrings := h.offStrings + 16)
      && Inserted(b, c, RsvEnd(b), DataSize(h), Enc64(r.address) + Enc64(r.size))
  {
    hide Hdr, Put, RsvSpliced, RsvEnd, Enc64;
    var e, x, c := RsvEnd(b), Enc64(r.address) + Enc64(r.size), RsvAdded(b, r);
    var s := RsvSpliced(b, e, 0, 16);
    RsvSplicedParts(b, e, 0, 16);
    PutBehind(s, e, x);
    forall i {:trigger c[i]} | HEADER_SIZE <= i < |b| ensures c[i] == if e <= i < e + 16 then x[i - e] else s[i] {
      PutByte(s, e, x, i);
    }
  }

  /** The structure block and the strings are as before. */
  predicate KeepsBlocks(b: seq<byte>, c: seq<byte>) {
    Sound(b) && Sound(c) && StructOf(c) == StructOf(b) && StringsOf(c) == StringsOf(b)
  }

  /** The block of `z` bytes at `s` lies behind `e`, or its new place ends in front of `e` and holds the same bytes. */
  predicate EntrySparesBlock(b: seq<byte>, e: int, s: nat, z: nat) {
    z == 0 || e <= s || (s + 16 + z <= e <= |b| && b[s + 16..s + 16 + z] == b[s..s + z])
  }

  predicate EntrySpares(b: seq<byte>)
    requires Sound(b)
  {
    && EntrySparesBlock(b, RsvEnd(b), Hdr(b).offStruct, Hdr(b).sizeStruct)
    && EntrySparesBlock(b, RsvEnd(b), Hdr(b).offStrings, Hdr(b).sizeStrings)
  }

  lemma InsertKeepsBlock(b: seq<byte>, c: seq<byte>, e: nat, end: nat, x: seq<byte>, s: nat, z: nat)
    requires Inserted(b, c, e, end, x) && HEADER_SIZE <= s && s + z <= end && EntrySparesBlock(b, e, s, z)
    ensures c[s + 16..s + 16 + z] == b[s..s + z]
  {
    var moved, block := c[s + 16..s + 16 + z], b[s..s + z];
    forall i | 0 <= i < z ensures moved[i] == block[i] {
      if s + 16 + i < e {
        assert b[s + 16..s + 16 + z][i] == block[i];
      }
    }
  }

  /** An entry without some byte of the block overwrites it. */
  lemma InsertLosesBlock(b: seq<byte>, c: seq<byte>, e: nat, end: nat, x: seq<byte>, s: nat, z: nat)
    requires Inserted(b, c, e, end, x) && HEADER_SIZE <= s && s + z <= end && !EntrySparesBlock(b, e, s, z)
    requires b[if s + 16 < e then e - 16 else s] !in x
    ensures c[s + 16..s + 16 + z] != b[s..s + z]
  {
    if s + 16 + z <= e {
      assert c[s + 16..s + 16 + z] == b[s + 16..s + 16 + z];
    } else {
      var k := if s + 16 < e then e - 16 else s;
      assert c[k + 16] == x[k + 16 - e];
      assert c[s + 16..s + 16 + z][k - s] == c[k + 16] && b[s..s + z][k - s] == b[k];
    }
  }

  /** An entry none of whose bytes is `v`. */
  lemma EntryWithout(v: byte) returns (r: Rsv)
    ensures v !in Enc64(r.address) + Enc64(r.size)
  {
    r := if v == 0 then Rsv(0x0101_0101_0101_0101, 0x0101_0101_0101_0101) else Rsv(0, 0);
    assert Enc64(0) == [0, 0, 0, 0, 0, 0, 0, 0];
    assert Enc64(0x0101_0101_0101_0101) == [1, 1, 1, 1, 1, 1, 1, 1];
  }

  /** Structure and strings survive every entry exactly when the place of the entry spares them. */
  lemma AddKeepsExactly(b: seq<byte>)
    requires Insertable(b)
    ensures EntrySpares(b) <==> forall r :: KeepsBlocks(b, RsvAdded(b, r))
  {
    hide Hdr, RsvEnd, Enc64, RsvAdded, Inserted, EntrySparesBlock;
    var h, e, end := Hdr(b), RsvEnd(b), DataSize(Hdr(b));
    if EntrySpares(b) {
      forall r ensures KeepsBlocks(b, RsvAdded(b, r)) {
        AddKeeps(b, r);
      }
    } else if !EntrySparesBlock(b, e, h.offStruct, h.sizeStruct) {
      var r := EntryWithout(b[if h.offStruct + 16 < e then e - 16 else h.offStruct]);
      RsvAddedBytes(b, r);
      InsertLosesBlock(b, RsvAdded(b, r), e, end, Enc64(r.address) + Enc64(r.size), h.offStruct, h.sizeStruct);
      assert !KeepsBlocks(b, RsvAdded(b, r));
    } else {
      var r := EntryWithout(b[if h.offStrings + 16 < e then e - 16 else h.offStrings]);
      RsvAddedBytes(b, r);
      InsertLosesBlock(b, RsvAdded(b, r), e, end, Enc64(r.address) + Enc64(r.size), h.offStrings, h.sizeStrings);
      assert !KeepsBlocks(b, RsvAdded(b, r));
    }
  }

  lemma AddKeeps(b: seq<byte>, r: Rsv)
    requires Insertable(b) && EntrySpares(b)
    ensures KeepsBlocks(b, RsvAdded(b, r))
  {
    hide Hdr, RsvEnd, Enc64, RsvAdded, Inserted, EntrySparesBlock;
    var h, e, c, x := Hdr(b), RsvEnd(b), RsvAdded(b, r), Enc64(r.address) + Enc64(r.size);
    RsvAddedBytes(b, r);
    InsertKeepsBlock(b, c, e, DataSize(h), x, h.offStruct, h.sizeStruct);
    InsertKeepsBlock(b, c, e, DataSize(h), x, h.offStrings, h.sizeStrings);
  }

  /** The terminator has moved with the rest, or the bytes that take its place are zero as well. */
  predicate StillTerminated(b: seq<byte>)
    requires Sound(b)
  {
    var e, end := RsvEnd(b), DataSize(Hdr(b));
    && 0 <= e && e + 32 <= Hdr(b).totalsize
    && forall i :: e + 24 <= i < e + 32 && end + 16 <= i ==> b[i] == 0
  }

  /** Entries in front of the new one. */
  lemma FrontEntries(b: seq<byte>, c: seq<byte>, p: nat, n: nat, k: nat)
    requires p + 16 * n <= |b| == |c| && k < n && forall i :: p <= i < p + 16 * n ==> c[i] == b[i]
    ensures Entry(c, p + 16 * k) == Entry(b, p + 16 * k)
  {
    assert c[p + 16 * k..p + 16 * k + 16] == b[p + 16 * k..p + 16 * k + 16];
    EntrySame(c, p + 16 * k, b, p + 16 * k);
  }

  /**
   The list grows by the entry exactly when it is still terminated. One of size zero is a terminator itself, so the
   list stays as it is.
   */
  lemma RsvAddedParts(b: seq<byte>, r: Rsv)
    requires Insertable(b) && RsvCount(b, 0).Some?
    ensures var c := RsvAdded(b, r);
      && Sound(c)
      && (r.size == 0 ==> RsvCount(c, 0).Some? && RsvList(c) == RsvList(b))
      && (r.size != 0 ==> (RsvCount(c, 0).Some? && RsvList(c) == RsvList(b) + [r] <==> StillTerminated(b)))
  {
    hide Hdr, RsvCount, Entry, Enc64, RsvAdded, StillTerminated;
    var n, c := RsvCount(b, 0).value, RsvAdded(b, r);
    var p, e := Hdr(b).offRsv, RsvEnd(b);
    var x := Enc64(r.address) + Enc64(r.size);
    CountFits(b, 0);
    RsvAddedBytes(b, r);
    forall k | 0 <= k < n ensures Entry(c, p + 16 * k) == RsvList(b)[k] {
      FrontEntries(b, c, p, n, k);
    }
    assert c[e..e + 16] == x;
    EntryWritten(c, e, r);
    if r.size == 0 {
      ListIs(c, RsvList(b));
    } else {
      NewEnd(b, c, x);
      if StillTerminated(b) {
        ListIs(c, RsvList(b) + [r]);
      } else if RsvCount(c, 0) == Some(n + 1) {
        CountFits(c, 0);
      }
    }
  }

  /** The entry behind the new one. */
  lemma NewEnd(b: seq<byte>, c: seq<byte>, x: seq<byte>)
    requires Sound(b) && RsvCount(b, 0).Some? && Inserted(b, c, RsvEnd(b), DataSize(Hdr(b)), x)
      && DataSize(Hdr(b)) + 16 <= Hdr(b).totalsize
    ensures StillTerminated(b) <==> RsvEnd(b) + 32 <= Hdr(b).totalsize && Entry(c, RsvEnd(b) + 16).size == 0
  {
    hide Hdr, RsvCount, Entry;
    var e, end := RsvEnd(b), DataSize(Hdr(b));
    CountFits(b, 0);
    SizeZero(b, e);
    if e + 32 <= Hdr(b).totalsize {
      SizeZero(c, e + 16);
      forall i | e + 24 <= i < e + 32 ensures c[i] == if i < end + 16 then 0 else b[i] {
        assert i < end + 16 ==> b[i - 16] == 0;
      }
    }
  }

  /**
   `fdt_add_mem_rsv`, wherever the list ends. Where it is not terminated, or its terminator lies in another block, the
   entry is inserted at that place all the same.
   */
  method AddMemRsv(d: Dtb, address: u64, size: u64) returns (err: int)
    requires Sound(d.buf[..])
    modifies d.buf
    ensures var b := old(d.buf[..]);
      && err == (if !Ordered(Hdr(b)) then -BADLAYOUT else SpliceError(Hdr(b), RsvEnd(b), 0, 16))
      && (err != 0 ==> d.buf[..] == b)
      && (err == 0 ==> d.buf[..] == RsvAdded(b, Rsv(address, size)))
    ensures var h := Hdr(old(d.buf[..]));
      Ordered(h) && 0 <= RsvEnd(old(d.buf[..])) <= DataSize(h) ==> err == if 16 <= Free(h) then 0 else -NOSPACE
    ensures err == 0 && old(d.Valid() && Insertable(d.buf[..]) && EntrySpares(d.buf[..])) ==>
      d.Valid() && d.Meaning() == old(d.Meaning())
  {
    hide Hdr, Put, RsvSpliced, RsvCount, Entry, Enc64, Block, Enc, StructOf, StringsOf, EntrySpares;
    ghost var b := d.buf[..];
    Probe(b);
    err := RwProbe(Hdr(d.buf[..]));
    if err != 0 {
      return;
    }
    var num := NumMemRsv(d.buf[..]);
    var re: int := Hdr(d.buf[..]).offRsv + 16 * num;
    err := SpliceMemRsv(d, re, 0, 16);
    if err != 0 {
      return;
    }
    Memcpy(d.buf, re, Enc64(address));
    Memcpy(d.buf, re + 8, Enc64(size));
    PutNext(RsvSpliced(b, re, 0, 16), re, Enc64(address), Enc64(size));
    if Editable(b, d.tree) && Insertable(b) && EntrySpares(b) {
      AddKeeps(b, Rsv(address, size));
      RsvAddedBytes(b, Rsv(address, size));
      StillEditable(b, d.buf[..], d.tree);
    }
  }

  lemma Probe(b: seq<byte>)
    requires Sound(b)
    ensures RwProbe(Hdr(b)) == if Ordered(Hdr(b)) then 0 else -BADLAYOUT
  {
  }

  lemma StillEditable(b: seq<byte>, c: seq<byte>, t: Forest)
    requires Editable(b, t) && KeepsBlocks(b, c) && Ordered(Hdr(c))
    ensures Editable(c, t) && Decode(t, StringsOf(c)) == Decode(t, StringsOf(b))
  {
    hide Hdr, Block, Enc;
  }

  // ---------------------------------------------------------------- removing an entry

  /** Entry `n` of a terminated list, and the splice that removes it succeeds. */
  predicate Removable(b: seq<byte>, n: int) {
    && Sound(b) && RsvCount(b, 0).Some? && 0 <= n < RsvCount(b, 0).value
    && BehindHeader(b, Hdr(b).offRsv + 16 * n, 16, 0)
  }

  /** The bytes of `b` from `p + 16` to `end` have moved down. */
  predicate Removed(b: seq<byte>, c: seq<byte>, p: nat, end: nat) {
    && |c| == |b| && HEADER_SIZE <= p && p + 16 <= end <= |b|
    && forall i {:trigger c[i]} :: HEADER_SIZE <= i < |b| ==> c[i] == if p <= i < end - 16 then b[i + 16] else b[i]
  }

  /** The block at `s` lies behind the entry at `p`, or what is in front of `p` is the same sixteen further down. */
  predicate RemovalSparesBlock(b: seq<byte>, p: nat, s: nat, z: nat) {
    var hi := if s - 16 + z <= p then s - 16 + z else p;
    z == 0 || p + 16 <= s || (16 <= s && s - 16 <= hi && hi + 16 <= |b| && b[s - 16..hi] == b[s..hi + 16])
  }

  predicate RemovalSpares(b: seq<byte>, n: nat)
    requires Sound(b)
  {
    && RemovalSparesBlock(b, Hdr(b).offRsv + 16 * n, Hdr(b).offStruct, Hdr(b).sizeStruct)
    && RemovalSparesBlock(b, Hdr(b).offRsv + 16 * n, Hdr(b).offStrings, Hdr(b).sizeStrings)
  }

  lemma RemovalBlock(b: seq<byte>, c: seq<byte>, p: nat, end: nat, s: nat, z: nat)
    requires Removed(b, c, p, end) && HEADER_SIZE + 16 <= s && s + z <= end
    ensures c[s - 16..s - 16 + z] == b[s..s + z] <==> RemovalSparesBlock(b, p, s, z)
  {
    var hi := if s - 16 + z <= p then s - 16 + z else p;
    var moved, block := c[s - 16..s - 16 + z], b[s..s + z];
    if RemovalSparesBlock(b, p, s, z) {
      forall i | 0 <= i < z ensures moved[i] == block[i] {
        if s - 16 + i < p {
          assert b[s - 16..hi][i] == b[s..hi + 16][i];
        }
      }
    } else if moved == block {
      var low, high := b[s - 16..hi], b[s..hi + 16];
      forall i | 0 <= i < |low| ensures low[i] == high[i] {
        assert moved[i] == block[i];
      }
    }
  }

  /** Where the moved bytes do not reach, the list reads as if they did. */
  predicate ListCloses(b: seq<byte>, n: nat)
    requires Removable(b, n)
  {
    CountFits(b, 0);
    var p, q, end := Hdr(b).offRsv + 16 * n, RsvEnd(b), DataSize(Hdr(b));
    && (forall i {:trigger b[i]} :: p <= i < q - 16 && end - 16 <= i ==> b[i] == b[i + 16])
    && (forall i :: q - 8 <= i < q && end - 16 <= i ==> b[i] == 0)
  }

  /** Entries are equal only if their bytes are. */
  lemma EntryBytes(b: seq<byte>, at: nat, c: seq<byte>, q: nat)
    requires at + 16 <= |b| && q + 16 <= |c| && Entry(b, at) == Entry(c, q)
    ensures b[at..at + 16] == c[q..q + 16]
  {
    hide Dec32, Enc32;
    WordBytes(b, at, c, q);
    WordBytes(b, at + 4, c, q + 4);
    WordBytes(b, at + 8, c, q + 8);
    WordBytes(b, at + 12, c, q + 12);
    Quarters(b, at);
    Quarters(c, q);
  }

  lemma WordBytes(b: seq<byte>, at: nat, c: seq<byte>, q: nat)
    requires at + 4 <= |b| && q + 4 <= |c| && Dec32(b, at) == Dec32(c, q)
    ensures b[at..at + 4] == c[q..q + 4]
  {
    hide Dec32, Enc32;
    EncDec(b, at);
    EncDec(c, q);
  }

  lemma Quarters(b: seq<byte>, at: nat)
    requires at + 16 <= |b|
    ensures b[at..at + 16] == b[at..at + 4] + b[at + 4..at + 8] + b[at + 8..at + 12] + b[at + 12..at + 16]
  {
  }

  /** `c` has the list of `b` without entry `n`. */
  predicate LosesEntry(b: seq<byte>, c: seq<byte>, n: nat)
    requires Removable(b, n) && Sound(c)
  {
    RsvCount(c, 0).Some? && RsvList(c) == RsvList(b)[..n] + RsvList(b)[n + 1..]
  }

  /** Exactly when the list loses that entry and no other, and when structure and strings stay. */
  lemma RsvRemovedParts(b: seq<byte>, n: nat)
    requires Removable(b, n)
    ensures var h, c := Hdr(b), RsvSpliced(b, Hdr(b).offRsv + 16 * n, 16, 0);
      && Sound(c) && Hdr(c) == h.(offStruct := h.offStruct - 16, offStrings := h.offStrings - 16)
      && (KeepsBlocks(b, c) <==> RemovalSpares(b, n))
      && (LosesEntry(b, c, n) <==> ListCloses(b, n))
  {
    hide Hdr, RsvSpliced, RsvCount, RemovalSparesBlock, ListCloses, LosesEntry, RsvList;
    var h, p, c := Hdr(b), Hdr(b).offRsv + 16 * n, RsvSpliced(b, Hdr(b).offRsv + 16 * n, 16, 0);
    RsvSplicedParts(b, p, 16, 0);
    assert forall i {:trigger c[i]} :: HEADER_SIZE <= i < |b| ==>
      c[i] == if p <= i < DataSize(h) - 16 then b[i + 16] else b[i];
    RemovalBlock(b, c, p, DataSize(h), h.offStruct, h.sizeStruct);
    RemovalBlock(b, c, p, DataSize(h), h.offStrings, h.sizeStrings);
    if ListCloses(b, n) {
      ListClosed(b, c, n);
    } else if LosesEntry(b, c, n) {
      ListOpen(b, c, n);
    }
  }

  /** The new terminator. */
  lemma TerminatorMoved(b: seq<byte>, c: seq<byte>, n: nat)
    requires Removable(b, n) && Removed(b, c, Hdr(b).offRsv + 16 * n, DataSize(Hdr(b)))
    ensures RsvEnd(b) + 16 <= |b| && Hdr(b).offRsv + 16 * n + 16 <= RsvEnd(b)
    ensures Entry(c, RsvEnd(b) - 16).size == 0 <==>
      forall i :: RsvEnd(b) - 8 <= i < RsvEnd(b) && DataSize(Hdr(b)) - 16 <= i ==> b[i] == 0
  {
    hide Hdr, RsvCount, Entry;
    var q, end := RsvEnd(b), DataSize(Hdr(b));
    CountFits(b, 0);
    SizeZero(b, q);
    SizeZero(c, q - 16);
    forall i | q - 8 <= i < q ensures c[i] == if i < end - 16 then 0 else b[i] {
      assert i < end - 16 ==> b[i + 16] == 0;
    }
  }

  lemma EntryStands(b: seq<byte>, c: seq<byte>, n: nat, k: nat)
    requires Removable(b, n) && Removed(b, c, Hdr(b).offRsv + 16 * n, DataSize(Hdr(b))) && ListCloses(b, n)
    requires k < RsvCount(b, 0).value - 1
    ensures var p, at := Hdr(b).offRsv + 16 * k, Hdr(b).offRsv + 16 * (if k < n then k else k + 1);
      at + 16 <= |b| && Entry(c, p) == Entry(b, at)
  {
    hide Hdr, RsvCount, Entry;
    CountFits(b, 0);
    var p, at := Hdr(b).offRsv + 16 * k, Hdr(b).offRsv + 16 * (if k < n then k else k + 1);
    var x, y := c[p..p + 16], b[at..at + 16];
    forall i | 0 <= i < 16 ensures x[i] == y[i] {
      assert k >= n ==> p + i < DataSize(Hdr(b)) - 16 || b[p + i] == b[p + i + 16];
    }
    EntrySame(c, p, b, at);
  }

  lemma ListClosed(b: seq<byte>, c: seq<byte>, n: nat)
    requires Removable(b, n) && Removed(b, c, Hdr(b).offRsv + 16 * n, DataSize(Hdr(b))) && ListCloses(b, n)
    requires Sound(c) && Hdr(c).offRsv == Hdr(b).offRsv && Hdr(c).totalsize == Hdr(b).totalsize
    ensures LosesEntry(b, c, n)
  {
    hide Hdr, RsvCount, Entry;
    var p, m := Hdr(b).offRsv, RsvCount(b, 0).value;
    CountFits(b, 0);
    TerminatorMoved(b, c, n);
    var rs := RsvList(b)[..n] + RsvList(b)[n + 1..];
    forall k | 0 <= k < |rs| ensures rs[k].size != 0 && Entry(c, p + 16 * k) == rs[k] {
      var at := p + 16 * (if k < n then k else k + 1);
      EntryStands(b, c, n, k);
      assert rs[k] == RsvList(b)[if k < n then k else k + 1];
    }
    ListIs(c, rs);
  }

  lemma ListLength(b: seq<byte>)
    requires Sound(b) && RsvCount(b, 0).Some?
    ensures |RsvList(b)| == RsvCount(b, 0).value
  {
  }

  lemma ListAt(b: seq<byte>, k: nat)
    requires Sound(b) && RsvCount(b, 0).Some? && k < RsvCount(b, 0).value
    ensures |RsvList(b)| == RsvCount(b, 0).value && Hdr(b).offRsv + 16 * k + 16 <= |b|
    ensures RsvList(b)[k] == Entry(b, Hdr(b).offRsv + 16 * k)
  {
    hide Hdr, Entry, RsvCount;
    CountFits(b, 0);
  }

  /** An entry behind the removed one. */
  lemma EntryStood(b: seq<byte>, c: seq<byte>, n: nat, k: nat)
    requires Sound(b) && RsvCount(b, 0).Some? && n <= k < RsvCount(b, 0).value - 1
    requires Sound(c) && RsvCount(c, 0).Some? && Hdr(c).offRsv == Hdr(b).offRsv
    requires |RsvList(b)| == RsvCount(b, 0).value && RsvList(c) == RsvList(b)[..n] + RsvList(b)[n + 1..]
    ensures var at := Hdr(b).offRsv + 16 * k; at + 32 <= |b| && at + 16 <= |c| && c[at..at + 16] == b[at + 16..at + 32]
  {
    hide Hdr, RsvCount, Entry, RsvList;
    ListLength(b);
    ListLength(c);
    ListAt(b, k + 1);
    ListAt(c, k);
    assert RsvList(c)[k] == RsvList(b)[k + 1];
    EntryBytes(c, Hdr(b).offRsv + 16 * k, b, Hdr(b).offRsv + 16 * (k + 1));
  }

  lemma ListOpen(b: seq<byte>, c: seq<byte>, n: nat)
    requires Removable(b, n) && Removed(b, c, Hdr(b).offRsv + 16 * n, DataSize(Hdr(b)))
    requires Sound(c) && Hdr(c).offRsv == Hdr(b).offRsv && LosesEntry(b, c, n)
    ensures ListCloses(b, n)
  {
    hide Hdr, RsvCount, Entry;
    var p, m, end := Hdr(b).offRsv, RsvCount(b, 0).value, DataSize(Hdr(b));
    CountFits(b, 0);
    CountFits(c, 0);
    TerminatorMoved(b, c, n);
    ListLength(b);
    forall i {:trigger b[i]} | p + 16 * n <= i < RsvEnd(b) - 16 && end - 16 <= i ensures b[i] == b[i + 16] {
      var k := (i - p) / 16;
        EntryStood(b, c, n, k);
      SameAt(b, c, p + 16 * k, i);
    }
  }

  lemma SameAt(b: seq<byte>, c: seq<byte>, at: nat, i: nat)
    requires at + 32 <= |b| && at + 16 <= |c| && c[at..at + 16] == b[at + 16..at + 32] && at <= i < at + 16
    ensures c[i] == b[i + 16]
  {
    assert c[i] == c[at..at + 16][i - at] && b[i + 16] == b[at + 16..at + 32][i - at];
  }

  /**
   `fdt_del_mem_rsv`, for any `n`; of a list that is not terminated nothing is removed. A list with a single
   entry may leave less than an entry's room in front of the structure block, which the probe then refuses.
   */
  method DelMemRsv(d: Dtb, n: int) returns (err: int)
    requires Sound(d.buf[..])
    modifies d.buf
    ensures var b := old(d.buf[..]); var at := Hdr(b).offRsv + 16 * n;
      && err == (if !Ordered(Hdr(b)) then -BADLAYOUT
                 else if at >= RsvEnd(b) then -NOTFOUND else SpliceError(Hdr(b), at, 16, 0))
      && (err != 0 ==> d.buf[..] == b)
      && (err == 0 ==> d.buf[..] == RsvSpliced(b, at, 16, 0))
    ensures var b := old(d.buf[..]);
      err == 0 && 0 <= n && RsvCount(b, 0).Some? ==>
        && Removable(b, n) && Sound(d.buf[..])
        && (KeepsBlocks(b, d.buf[..]) <==> RemovalSpares(b, n)) && (LosesEntry(b, d.buf[..], n) <==> ListCloses(b, n))
    ensures err == 0 && old(d.Valid() && Removable(d.buf[..], n) && RemovalSpares(d.buf[..], n)) ==>
      && (d.Valid() <==> old(Hdr(d.buf[..]).offRsv + 32 <= Hdr(d.buf[..]).offStruct))
      && (d.Valid() ==> d.Meaning() == old(d.Meaning()))
  {
    hide Hdr, RsvSpliced, RsvCount, Entry, Block, Enc, StructOf, StringsOf, RemovalSpares, ListCloses, LosesEntry;
    ghost var b := d.buf[..];
    Probe(b);
    err := RwProbe(Hdr(d.buf[..]));
    if err != 0 {
      return;
    }
    var num := NumMemRsv(d.buf[..]);
    if n >= num {
      return -NOTFOUND;
    }
    err := SpliceMemRsv(d, Hdr(d.buf[..]).offRsv + 16 * n, 16, 0);
    if err == 0 && 0 <= n && RsvCount(b, 0).Some? {
      RsvRemovedParts(b, n);
      if Editable(b, d.tree) && RemovalSpares(b, n) && Hdr(b).offRsv + 32 <= Hdr(b).offStruct {
        StillEditable(b, d.buf[..], d.tree);
      }
    }
  }
}
