/** fdt/fdt_rw.c: repacking a blob, in place or into another part of the same memory. */
module FdtPack {
  import opened Bytes
  import opened Tokens
  import opened Forests
  import opened Trees
  import opened Blobs
  import opened Layouts
  import opened Edits
  import opened SwLayouts
  import opened Checks
  import opened Repacks
  import opened Fdt
  import opened FdtRw

  /** The blob that starts at `at` in memory. */
  function BlobAt(mem: seq<byte>, at: nat): seq<byte>
    requires at <= |mem|
  {
    mem[at..]
  }

  /** Only bytes of `at..at + n` differ. */
  ghost predicate ChangedWithin(a: seq<byte>, c: seq<byte>, at: nat, n: nat) {
    |c| == |a| && forall i :: 0 <= i < |a| && !(at <= i < at + n) ==> c[i] == a[i]
  }

  lemma PutWithin(a: seq<byte>, at: nat, x: seq<byte>, lo: nat, n: nat)
    requires at + |x| <= |a| && lo <= at && at + |x| <= lo + n
    ensures ChangedWithin(a, Put(a, at, x), lo, n)
  {
  }

  method SetMemWord(mem: array<byte>, base: nat, k: nat, v: u32)
    requires k < 10 && base + HEADER_SIZE <= mem.Length
    modifies mem
    ensures mem[..] == Put(old(mem[..]), base + 4 * k, Enc32(v))
  {
    Memcpy(mem, base + 4 * k, Enc32(v));
  }

  /** Size of the image: header, `m` bytes of reservations, structure and strings. */
  function PackedSize(h: Header, m: nat): nat { HEADER_SIZE + m + h.sizeStruct + h.sizeStrings }

  // ---------------------------------------------------------------- three moves

  /** Every move of `fdt_packblocks_` stays inside the memory. */
  predicate MovesFit(n: nat, from: nat, to: nat, h: Header, m: nat) {
    && from + h.offRsv + m <= n && from + h.offStruct + h.sizeStruct <= n && from + h.offStrings + h.sizeStrings <= n
    && to + PackedSize(h, m) <= n
  }

  /** The memory after the three moves, for any overlap of what is read and what is written. */
  function PackMoves(mem: seq<byte>, from: nat, to: nat, h: Header, m: nat): (r: seq<byte>)
    requires MovesFit(|mem|, from, to, h, m)
    ensures |r| == |mem|
  {
    var m1 := Moved(mem, to + HEADER_SIZE, from + h.offRsv, m);
    var m2 := Moved(m1, to + HEADER_SIZE + m, from + h.offStruct, h.sizeStruct);
    Moved(m2, to + HEADER_SIZE + m + h.sizeStruct, from + h.offStrings, h.sizeStrings)
  }

  /** What the image should hold behind its header. */
  function Wanted(mem: seq<byte>, from: nat, h: Header, m: nat): (r: seq<byte>)
    requires from + h.offRsv + m <= |mem| && from + h.offStruct + h.sizeStruct <= |mem|
      && from + h.offStrings + h.sizeStrings <= |mem|
    ensures |r| == m + h.sizeStruct + h.sizeStrings
  {
    mem[from + h.offRsv..from + h.offRsv + m] + mem[from + h.offStruct..from + h.offStruct + h.sizeStruct]
    + mem[from + h.offStrings..from + h.offStrings + h.sizeStrings]
  }

  /** No block is lost. */
  predicate BlocksKept(mem: seq<byte>, from: nat, to: nat, h: Header, m: nat)
    requires MovesFit(|mem|, from, to, h, m)
  {
    PackMoves(mem, from, to, h, m) == Put(mem, to + HEADER_SIZE, Wanted(mem, from, h, m))
  }

  /** Moving `n` bytes from `src` to `dst` writes over the `q` bytes at `p` only what they hold already. */
  ghost predicate Undisturbed(mem: seq<byte>, dst: nat, src: nat, n: nat, p: nat, q: nat) {
    && dst + n <= |mem| && src + n <= |mem| && p + q <= |mem|
    && forall i {:trigger mem[i]} :: dst <= i < dst + n && p <= i < p + q ==> mem[src + i - dst] == mem[i]
  }

  /** The blocks lie behind the header. */
  predicate Behind(h: Header) { HEADER_SIZE <= h.offRsv && HEADER_SIZE <= h.offStruct && HEADER_SIZE <= h.offStrings }

  lemma SparedSlice(mem: seq<byte>, dst: nat, src: nat, n: nat, p: nat, q: nat)
    requires Undisturbed(mem, dst, src, n, p, q)
    ensures Moved(mem, dst, src, n)[p..p + q] == mem[p..p + q]
  {
    hide Moved;
    var now, block := Moved(mem, dst, src, n)[p..p + q], mem[p..p + q];
    forall i | 0 <= i < q ensures now[i] == block[i] {
      MovedByte(mem, dst, src, n, p + i);
      assert mem[p + i] == block[i];
    }
  }

  /** Nor does a later move of bytes that the first one left alone. */
  lemma StillUndisturbed(mem: seq<byte>, m1: seq<byte>, dst: nat, src: nat, n: nat, p: nat, q: nat)
    requires Undisturbed(mem, dst, src, n, p, q) && |m1| == |mem|
    requires m1[src..src + n] == mem[src..src + n] && m1[p..p + q] == mem[p..p + q]
    ensures Undisturbed(m1, dst, src, n, p, q)
  {
    forall i {:trigger m1[i]} | dst <= i < dst + n && p <= i < p + q ensures m1[src + i - dst] == m1[i] {
      assert m1[i] == m1[p..p + q][i - p] == mem[i];
      assert m1[src + i - dst] == m1[src..src + n][i - dst] == mem[src + i - dst];
    }
  }

  /** Three moves that spare what is still needed write the wanted image. */
  lemma MovesWrite(mem: seq<byte>, at: nat, a: nat, i: nat, b: nat, j: nat, c: nat, k: nat)
    requires at + i + j + k <= |mem| && a + i <= |mem| && b + j <= |mem| && c + k <= |mem|
    requires Undisturbed(mem, at, a, i, b, j) && Undisturbed(mem, at, a, i, c, k)
      && Undisturbed(mem, at + i, b, j, c, k)
    ensures Moved(Moved(Moved(mem, at, a, i), at + i, b, j), at + i + j, c, k)
         == Put(mem, at, mem[a..a + i] + mem[b..b + j] + mem[c..c + k])
  {
    hide Put, Undisturbed;
    var m1 := Moved(mem, at, a, i);
    SparedSlice(mem, at, a, i, b, j);
    SparedSlice(mem, at, a, i, c, k);
    StillUndisturbed(mem, m1, at + i, b, j, c, k);
    SparedSlice(m1, at + i, b, j, c, k);
    PutNext(mem, at, mem[a..a + i], mem[b..b + j]);
    PutNext(mem, at, mem[a..a + i] + mem[b..b + j], mem[c..c + k]);
  }

  /** The new place does not overlap the blob. */
  predicate Apart(from: nat, to: nat, h: Header, m: nat) {
    || to + PackedSize(h, m) <= from
    || (h.offStruct + h.sizeStruct <= h.totalsize && h.offStrings + h.sizeStrings <= h.totalsize
      && from + h.totalsize <= to)
  }

  lemma KeptApart(mem: seq<byte>, from: nat, to: nat, h: Header, m: nat)
    requires MovesFit(|mem|, from, to, h, m) && Apart(from, to, h, m)
    ensures BlocksKept(mem, from, to, h, m)
  {
    hide Put, Moved;
    MovesWrite(mem, to + HEADER_SIZE, from + h.offRsv, m, from + h.offStruct, h.sizeStruct, from + h.offStrings,
      h.sizeStrings);
  }

  // ---------------------------------------------------------------- fdt_packblocks_

  lemma WordAt(mem: seq<byte>, at: nat, k: nat)
    requires at + HEADER_SIZE <= |mem| && k < 10
    ensures Dec32(mem, at + 4 * k) == Word(BlobAt(mem, at), k)
  {
    hide Dec32;
    var b := mem[at..];
    assert mem[at + 4 * k..at + 4 * k + 4] == b[4 * k..4 * k + 4];
    DecSlice(mem, at + 4 * k, b, 4 * k);
  }

  /** The `n` bytes at `src` are not in the header at `to`. */
  predicate OffHeader(to: nat, src: nat, n: nat) { n == 0 || src + n <= to || to + HEADER_SIZE <= src }

  /** A move behind the image's header `hx` does not see it. */
  lemma MoveBehind(mem: seq<byte>, to: nat, hx: seq<byte>, dst: nat, src: nat, n: nat)
    requires |hx| == HEADER_SIZE && to + |hx| <= dst && dst + n <= |mem| && src + n <= |mem| && OffHeader(to, src, n)
    ensures Moved(Put(mem, to, hx), dst, src, n) == Put(Moved(mem, dst, src, n), to, hx)
  {
    if n > 0 {
      var now := Put(mem, to, hx);
      assert now[src..src + n] == mem[src..src + n];
    }
  }

  /** One `memmove` of `fdt_packblocks_`. */
  method MoveBlock(mem: array<byte>, to: nat, dst: nat, src: nat, len: nat, ghost mi: seq<byte>, ghost hx: seq<byte>)
    requires |hx| == HEADER_SIZE && to + |hx| <= dst && dst + len <= mem.Length == |mi| && src + len <= mem.Length
      && OffHeader(to, src, len)
    requires mem[..] == Put(mi, to, hx)
    modifies mem
    ensures mem[..] == Put(Moved(mi, dst, src, len), to, hx)
  {
    hide Put, Moved;
    MoveBehind(mi, to, hx, dst, src, len);
    Memmove(mem, dst, src, len);
  }

  /** One header word set in the image's header `hx`. */
  method SetImageWord(mem: array<byte>, to: nat, k: nat, v: u32, ghost mi: seq<byte>, ghost hx: seq<byte>)
    requires k < 10 && |hx| == HEADER_SIZE && to + HEADER_SIZE <= mem.Length == |mi|
    requires mem[..] == Put(mi, to, hx)
    modifies mem
    ensures mem[..] == Put(mi, to, Put(hx, 4 * k, Enc32(v)))
    ensures Hdr(Put(hx, 4 * k, Enc32(v))) == WithWord(Hdr(hx), k, v)
  {
    hide Put, Enc32, Hdr;
    Patch(mi, to, hx, 4 * k, Enc32(v));
    HdrWord(hx, k, v);
    SetMemWord(mem, to, k, v);
  }

  /** What `fdt_packblocks_` relies on: the new place is the old one, or new and old do not overlap. */
  ghost predicate Source(mem: seq<byte>, b: seq<byte>, h: Header, from: nat, to: nat, m: nat)
  {
    && from + HEADER_SIZE <= |mem| && b == BlobAt(mem, from) && |b| == |mem| - from && Seen(b, h)
    && HEADER_SIZE <= h.totalsize && h.offRsv + m <= h.totalsize && PackedSize(h, m) < INT_MAX
      && to + PackedSize(h, m) <= |mem|
    && ((to == from && Behind(h)) || to + PackedSize(h, m) <= from || from + h.totalsize <= to)
  }

  /** The source's header while the image has got as far as `mi` with header `hx`. */
  function HeaderNow(mem: seq<byte>, from: nat, to: nat, hx: seq<byte>): Header
    requires from + HEADER_SIZE <= |mem| && |hx| == HEADER_SIZE
  {
    if to == from then Hdr(hx) else Hdr(BlobAt(mem, from))
  }

  lemma SourceNow(mem: seq<byte>, from: nat, to: nat, mi: seq<byte>, hx: seq<byte>)
    requires from + HEADER_SIZE <= |mem| == |mi| && to + HEADER_SIZE <= |mem| && |hx| == HEADER_SIZE
    requires to == from || ((to + HEADER_SIZE <= from || from + HEADER_SIZE <= to)
      && mi[from..from + HEADER_SIZE] == mem[from..from + HEADER_SIZE])
    ensures var now, g := Put(mi, to, hx), HeaderNow(mem, from, to, hx);
      && Dec32(now, from + 4 * W_OFF_STRUCT) == g.offStruct && Dec32(now, from + 4 * W_OFF_STRINGS) == g.offStrings
      && Dec32(now, from + 4 * W_SIZE_STRINGS) == g.sizeStrings && Dec32(now, from + 28) == g.bootCpu
  {
    hide Hdr, Dec32, BlobAt;
    var now := Put(mi, to, hx);
    SourceWords(now, from);
    if to == from {
      assert now[from..from + HEADER_SIZE] == hx;
      SameHeader(now, from, hx);
    } else {
      assert now[from..from + HEADER_SIZE] == mi[from..from + HEADER_SIZE] == mem[from..from + HEADER_SIZE];
      SameHeader(now, from, mem[from..from + HEADER_SIZE]);
      SameHeader(mem, from, mem[from..from + HEADER_SIZE]);
    }
  }

  lemma SameHeader(mem: seq<byte>, at: nat, h: seq<byte>)
    requires at + HEADER_SIZE <= |mem| && |h| == HEADER_SIZE && mem[at..at + HEADER_SIZE] == h
    ensures Hdr(BlobAt(mem, at)) == Hdr(h)
  {
    hide Hdr;
    assert BlobAt(mem, at)[..HEADER_SIZE] == h == h[..HEADER_SIZE];
    HdrKept(BlobAt(mem, at), h);
  }

  /** A move into the image leaves the header of a source elsewhere alone. */
  lemma MoveClear(mem: seq<byte>, from: nat, dst: nat, src: nat, n: nat)
    requires from + HEADER_SIZE <= |mem| && dst + n <= |mem| && src + n <= |mem|
      && (dst + n <= from || from + HEADER_SIZE <= dst)
    ensures Moved(mem, dst, src, n)[from..from + HEADER_SIZE] == mem[from..from + HEADER_SIZE]
  {
  }

  /** The moves stay inside the memory, and the header of a source elsewhere is still there after each. */
  lemma SourceMoves(mem: seq<byte>, b: seq<byte>, h: Header, from: nat, to: nat, m: nat)
    requires Source(mem, b, h, from, to, m)
    ensures MovesFit(|mem|, from, to, h, m) && PackedSize(h, m) < INT_MAX && from + HEADER_SIZE <= |mem|
    ensures var g := Hdr(BlobAt(mem, from));
      g.offRsv == h.offRsv && g.offStruct == h.offStruct && g.offStrings == h.offStrings
        && g.sizeStrings == h.sizeStrings
    ensures OffHeader(to, from + h.offRsv, m) && OffHeader(to, from + h.offStruct, h.sizeStruct)
      && OffHeader(to, from + h.offStrings, h.sizeStrings)
    ensures to != from ==> to + HEADER_SIZE <= from || from + HEADER_SIZE <= to
    ensures to != from ==>
      var m1 := Moved(mem, to + HEADER_SIZE, from + h.offRsv, m);
      var m2 := Moved(m1, to + HEADER_SIZE + m, from + h.offStruct, h.sizeStruct);
      && m1[from..from + HEADER_SIZE] == mem[from..from + HEADER_SIZE]
      && m2[from..from + HEADER_SIZE] == mem[from..from + HEADER_SIZE]
      && PackMoves(mem, from, to, h, m)[from..from + HEADER_SIZE] == mem[from..from + HEADER_SIZE]
  {
    hide Hdr, Moved;
    if to != from {
      var m1 := Moved(mem, to + HEADER_SIZE, from + h.offRsv, m);
      var m2 := Moved(m1, to + HEADER_SIZE + m, from + h.offStruct, h.sizeStruct);
      MoveClear(mem, from, to + HEADER_SIZE, from + h.offRsv, m);
      MoveClear(m1, from, to + HEADER_SIZE + m, from + h.offStruct, h.sizeStruct);
      MoveClear(m2, from, to + HEADER_SIZE + m + h.sizeStruct, from + h.offStrings, h.sizeStrings);
    }
  }

  /** `fdt_packblocks_`: three moves and five header words. */
  method PackBlocks(mem: array<byte>, from: nat, to: nat, m: nat, struct_size: nat, ghost b: seq<byte>, ghost h: Header)
    requires Source(mem[..], b, h, from, to, m) && struct_size == h.sizeStruct
    modifies mem
    ensures MovesFit(mem.Length, from, to, h, m)
    ensures mem[..] == Put(PackMoves(old(mem[..]), from, to, h, m), to,
      PackedHeader(old(mem[..])[to..to + HEADER_SIZE], m, h.sizeStruct, h.sizeStrings))
  {
    hide Hdr, Put, Enc32, Dec32, BlobAt, Moved, Source, OffHeader;
    ghost var mem0 := mem[..];
    SourceMoves(mem0, b, h, from, to, m);
    ghost var h0 := mem0[to..to + HEADER_SIZE];
    var mem_rsv_off: nat := HEADER_SIZE;
    var struct_off: nat := mem_rsv_off + m;
    var strings_off: nat := struct_off + struct_size;
    PutSelf(mem0, to, HEADER_SIZE);
    SourceWords(mem0, from);
    SourceIsHeader(mem0, from, to);

    MoveBlock(mem, to, to + mem_rsv_off, from + Dec32(mem[..], from + 4 * W_OFF_RSV), m, mem0, h0);
    ghost var m1 := Moved(mem0, to + mem_rsv_off, from + h.offRsv, m);
    SetImageWord(mem, to, W_OFF_RSV, mem_rsv_off, m1, h0);
    ghost var h1 := Put(h0, 4 * W_OFF_RSV, Enc32(mem_rsv_off));

    SourceNow(mem0, from, to, m1, h1);
    MoveBlock(mem, to, to + struct_off, from + Dec32(mem[..], from + 4 * W_OFF_STRUCT), struct_size, m1, h1);
    ghost var m2 := Moved(m1, to + struct_off, from + h.offStruct, struct_size);
    SetImageWord(mem, to, W_OFF_STRUCT, struct_off, m2, h1);
    ghost var h2 := Put(h1, 4 * W_OFF_STRUCT, Enc32(struct_off));
    SetImageWord(mem, to, W_SIZE_STRUCT, struct_size, m2, h2);
    ghost var h3 := Put(h2, 4 * W_SIZE_STRUCT, Enc32(struct_size));

    PackStrings(mem, from, to, strings_off, mem0, m2, h3, h);
  }

  /** The last of the three. */
  method PackStrings(mem: array<byte>, from: nat, to: nat, strings_off: nat, ghost mem0: seq<byte>,
      ghost m2: seq<byte>, ghost h3: seq<byte>, ghost h: Header)
    requires |h3| == HEADER_SIZE && |m2| == |mem0| == mem.Length && to + HEADER_SIZE <= mem.Length
      && mem[..] == Put(m2, to, h3)
    requires from + HEADER_SIZE <= mem.Length && HEADER_SIZE <= strings_off < INT_MAX
      && to + strings_off + h.sizeStrings <= mem.Length
    requires from + h.offStrings + h.sizeStrings <= mem.Length && OffHeader(to, from + h.offStrings, h.sizeStrings)
    requires var g := HeaderNow(mem0, from, to, h3); g.offStrings == h.offStrings && g.sizeStrings == h.sizeStrings
    requires to != from ==>
      var m3 := Moved(m2, to + strings_off, from + h.offStrings, h.sizeStrings);
      && (to + HEADER_SIZE <= from || from + HEADER_SIZE <= to)
      && m2[from..from + HEADER_SIZE] == mem0[from..from + HEADER_SIZE]
      && m3[from..from + HEADER_SIZE] == mem0[from..from + HEADER_SIZE]
    modifies mem
    ensures mem[..] == Put(Moved(m2, to + strings_off, from + h.offStrings, h.sizeStrings), to,
      Put(Put(h3, 4 * W_OFF_STRINGS, Enc32(strings_off)), 4 * W_SIZE_STRINGS, Enc32(h.sizeStrings)))
  {
    hide Hdr, Put, Enc32, Dec32, BlobAt, Moved, OffHeader;
    SourceNow(mem0, from, to, m2, h3);
    MoveBlock(mem, to, to + strings_off, from + Dec32(mem[..], from + 4 * W_OFF_STRINGS),
      Dec32(mem[..], from + 4 * W_SIZE_STRINGS), m2, h3);
    ghost var m3 := Moved(m2, to + strings_off, from + h.offStrings, h.sizeStrings);
    SetImageWord(mem, to, W_OFF_STRINGS, strings_off, m3, h3);
    ghost var h4 := Put(h3, 4 * W_OFF_STRINGS, Enc32(strings_off));
    SourceNow(mem0, from, to, m3, h4);
    SetImageWord(mem, to, W_SIZE_STRINGS, Dec32(mem[..], from + 4 * W_SIZE_STRINGS), m3, h4);
  }

  lemma SourceIsHeader(mem: seq<byte>, from: nat, to: nat)
    requires from + HEADER_SIZE <= |mem| && to + HEADER_SIZE <= |mem|
    ensures to == from ==> Hdr(mem[to..to + HEADER_SIZE]) == Hdr(BlobAt(mem, from))
  {
    hide Hdr;
    if to == from {
      SameHeader(mem, from, mem[to..to + HEADER_SIZE]);
    }
  }

  lemma Assoc3(a: seq<byte>, b: seq<byte>, c: seq<byte>)
    ensures a + b + c == a + (b + c)
  {
  }

  lemma BlobLength(mem: seq<byte>, at: nat)
    requires at <= |mem|
    ensures |BlobAt(mem, at)| == |mem| - at
  {
  }

  lemma SourceWords(mem: seq<byte>, from: nat)
    requires from + HEADER_SIZE <= |mem|
    ensures var h := Hdr(BlobAt(mem, from));
      && Dec32(mem, from + 28) == h.bootCpu
      && Dec32(mem, from + 4 * W_OFF_RSV) == h.offRsv && Dec32(mem, from + 4 * W_OFF_STRUCT) == h.offStruct
      && Dec32(mem, from + 4 * W_OFF_STRINGS) == h.offStrings
      && Dec32(mem, from + 4 * W_SIZE_STRUCT) == h.sizeStruct && Dec32(mem, from + 4 * W_SIZE_STRINGS) == h.sizeStrings
  {
    hide Dec32, BlobAt;
    WordAt(mem, from, 7);
    WordAt(mem, from, W_OFF_RSV);
    WordAt(mem, from, W_OFF_STRUCT);
    WordAt(mem, from, W_OFF_STRINGS);
    WordAt(mem, from, W_SIZE_STRUCT);
    WordAt(mem, from, W_SIZE_STRINGS);
  }

  // ---------------------------------------------------------------- fdt_pack

  /** `mem_rsv_size`: negative when the list is not terminated. */
  function ListSize(b: seq<byte>): int
    requires Sized(b)
  {
    RSV_SIZE * ((match RsvCount(b, 0) case Some(n) => n case None => -TRUNCATED) + 1)
  }

  /** Size of the reservation list with its terminator. */
  function RsvSize(b: seq<byte>): nat
    requires Sized(b) && RsvCount(b, 0).Some?
  {
    16 * (RsvCount(b, 0).value + 1)
  }

  /** Reservations, structure and strings follow the header without gaps, and nothing follows them. */
  predicate IsPacked(b: seq<byte>)
    requires Sound(b) && RsvCount(b, 0).Some?
  {
    var h := Hdr(b);
    && h.offRsv == HEADER_SIZE && h.offStruct == HEADER_SIZE + RsvSize(b) && h.offStrings == h.offStruct + h.sizeStruct
    && h.totalsize == DataSize(h)
  }

  /** Header of a packed blob. */
  function HeaderPacked(h: Header, m: nat, total: u32): Header
    requires HEADER_SIZE + m + h.sizeStruct < INT_MAX
  {
    h.(offRsv := HEADER_SIZE, offStruct := HEADER_SIZE + m, offStrings := HEADER_SIZE + m + h.sizeStruct,
      totalsize := total)
  }

  /** A blob that starts with the image of another one has its contents. */
  lemma ImageContents(b: seq<byte>, h: Header, c: seq<byte>, hx: seq<byte>, total: u32)
    requires Seen(b, h) && RsvCount(b, 0).Some? && |hx| == HEADER_SIZE
    requires PackedSize(h, RsvSize(b)) <= total <= |c| && total < INT_MAX
    requires Hdr(hx).(bootCpu := 0, lastComp := 0) == HeaderPacked(h, RsvSize(b), total).(bootCpu := 0, lastComp := 0)
      && Hdr(hx).lastComp <= 17
    requires hx + (RsvBytes(b) + StructAs(b, h) + StringsAs(b, h)) <= c
    ensures Sound(c) && Hdr(c) == Hdr(hx) && SameContents(b, h, c) && Tidy(c)
  {
    hide Hdr, RsvCount, RsvList, Entry;
    CountFits(b, 0);
    Assoc3(hx, RsvBytes(b), StructAs(b, h));
    Assoc3(hx, RsvBytes(b) + StructAs(b, h), StringsAs(b, h));
    ImageParts(c, hx, RsvBytes(b), StructAs(b, h), StringsAs(b, h));
    RsvSame(b, c);
  }

  lemma SameWord(h: seq<byte>, k: nat)
    requires |h| == HEADER_SIZE && k < 10
    ensures Put(h, 4 * k, Enc32(Word(h, k))) == h
  {
    hide Dec32, Enc32;
    EncDec(h, 4 * k);
    PutSelf(h, 4 * k, 4);
  }

  /** Packing a packed blob writes what is there. */
  lemma PackedFixpoint(b: seq<byte>)
    requires Sound(b) && RsvCount(b, 0).Some? && IsPacked(b)
    ensures var h, m := Hdr(b), RsvSize(b);
      && PackedSize(h, m) == h.totalsize < INT_MAX
      && PackedHeader(b[0..HEADER_SIZE], m, h.sizeStruct, h.sizeStrings) == b[0..HEADER_SIZE]
      && b[0..HEADER_SIZE] + (RsvBytes(b) + StructOf(b) + StringsOf(b)) == b[0..h.totalsize]
  {
    hide Dec32, Enc32, Put, RsvCount;
    var h0, h, m := b[0..HEADER_SIZE], Hdr(b), RsvSize(b);
    assert h0 == b[..HEADER_SIZE] == h0[..HEADER_SIZE];
    HdrKept(b, h0);
    SameWord(h0, W_OFF_RSV);
    SameWord(h0, W_OFF_STRUCT);
    SameWord(h0, W_SIZE_STRUCT);
    SameWord(h0, W_OFF_STRINGS);
    SameWord(h0, W_SIZE_STRINGS);
    Cut4(b, 0, HEADER_SIZE, HEADER_SIZE + m, h.offStrings, h.totalsize);
    Assoc3(h0, RsvBytes(b), StructOf(b));
    Assoc3(h0, RsvBytes(b) + StructOf(b), StringsOf(b));
  }

  /** The list is terminated and there is room for the image: the moves stay inside the buffer. */
  predicate Packable(b: seq<byte>) {
    && Sound(b) && RsvCount(b, 0).Some?
    && PackedSize(Hdr(b), RsvSize(b)) <= |b| && PackedSize(Hdr(b), RsvSize(b)) < INT_MAX
  }

  lemma PackFits(b: seq<byte>)
    requires Packable(b)
    ensures Source(b, b, Hdr(b), 0, 0, RsvSize(b)) && MovesFit(|b|, 0, 0, Hdr(b), RsvSize(b)) && Behind(Hdr(b))
    ensures |RsvBytes(b)| == RsvSize(b) && |StructOf(b)| == Hdr(b).sizeStruct && |StringsOf(b)| == Hdr(b).sizeStrings
    ensures Wanted(b, 0, Hdr(b), RsvSize(b)) == RsvBytes(b) + StructOf(b) + StringsOf(b)
  {
    hide Hdr, RsvCount;
    WholeBlob(b);
    CountFits(b, 0);
    SeenSound(b);
  }

  /** So it is whenever the whole list lies in front of the structure block, and then the blob does not grow. */
  lemma TidyPackable(b: seq<byte>)
    requires Tidy(b)
    ensures Packable(b) && PackSafe(Hdr(b), RsvSize(b)) && PackedSize(Hdr(b), RsvSize(b)) <= Hdr(b).totalsize
  {
    hide Hdr, RsvCount;
    CountFits(b, 0);
  }

  /** The buffer after `fdt_pack`: the moves, and then the header. */
  function Packed(b: seq<byte>): (r: seq<byte>)
    requires Packable(b)
    ensures |r| == |b|
  {
    PackFits(b);
    Put(PackMoves(b, 0, 0, Hdr(b), RsvSize(b)), 0, PackHeader(b))
  }

  /** The header `fdt_pack` leaves. */
  function PackHeader(b: seq<byte>): (r: seq<byte>)
    requires Packable(b)
    ensures |r| == HEADER_SIZE
  {
    var h, m := Hdr(b), RsvSize(b);
    Put(PackedHeader(b[0..HEADER_SIZE], m, h.sizeStruct, h.sizeStrings), 4 * W_TOTALSIZE, Enc32(PackedSize(h, m)))
  }

  lemma PackHeaderIs(b: seq<byte>)
    requires Packable(b)
    ensures var h, m := Hdr(b), RsvSize(b);
      && Hdr(PackedHeader(b[0..HEADER_SIZE], m, h.sizeStruct, h.sizeStrings)) == HeaderPacked(h, m, h.totalsize)
      && Hdr(PackHeader(b)) == HeaderPacked(h, m, PackedSize(h, m))
  {
    hide Hdr, Put, Enc32, RsvCount, PackedHeader;
    var h, m := Hdr(b), RsvSize(b);
    WholeBlob(b);
    PackedHeaderIs(b[0..HEADER_SIZE], m, h.sizeStruct, h.sizeStrings);
    SourceIsHeader(b, 0, 0);
    HdrWord(PackedHeader(b[0..HEADER_SIZE], m, h.sizeStruct, h.sizeStrings), W_TOTALSIZE, PackedSize(h, m));
  }

  /** The moves lose nothing. */
  predicate NothingLost(b: seq<byte>)
    requires Packable(b)
  {
    PackFits(b);
    BlocksKept(b, 0, 0, Hdr(b), RsvSize(b))
  }

  /** No move writes over a block that is still to be moved anything but what is there. */
  ghost predicate AllUndisturbed(b: seq<byte>, h: Header, m: nat) {
    && Undisturbed(b, HEADER_SIZE, h.offRsv, m, h.offStruct, h.sizeStruct)
    && Undisturbed(b, HEADER_SIZE, h.offRsv, m, h.offStrings, h.sizeStrings)
    && Undisturbed(b, HEADER_SIZE + m, h.offStruct, h.sizeStruct, h.offStrings, h.sizeStrings)
  }

  /** Where the bytes of structure and strings come from. */
  lemma ImageBytes(mem: seq<byte>, h: Header, m: nat)
    requires MovesFit(|mem|, 0, 0, h, m)
    ensures var m1 := Moved(mem, HEADER_SIZE, h.offRsv, m);
      var m2 := Moved(m1, HEADER_SIZE + m, h.offStruct, h.sizeStruct);
      var at, c := HEADER_SIZE + m, PackMoves(mem, 0, 0, h, m);
      && c[at..at + h.sizeStruct] == m1[h.offStruct..h.offStruct + h.sizeStruct]
      && c[at + h.sizeStruct..at + h.sizeStruct + h.sizeStrings] == m2[h.offStrings..h.offStrings + h.sizeStrings]
  {
    hide Moved;
    var m1 := Moved(mem, HEADER_SIZE, h.offRsv, m);
    var at := HEADER_SIZE + m;
    var m2 := Moved(m1, at, h.offStruct, h.sizeStruct);
    MovedTo(m1, at, h.offStruct, h.sizeStruct);
    MovedTo(m2, at + h.sizeStruct, h.offStrings, h.sizeStrings);
  }

  /** The moved bytes, and the bytes in front of them. */
  lemma MovedTo(s: seq<byte>, dst: nat, src: nat, n: nat)
    requires dst + n <= |s| && src + n <= |s|
    ensures Moved(s, dst, src, n)[dst..dst + n] == s[src..src + n]
    ensures forall i :: 0 <= i <= dst ==> Moved(s, dst, src, n)[i..dst] == s[i..dst]
  {
  }

  lemma WantedBlocks(mem: seq<byte>, h: Header, m: nat)
    requires MovesFit(|mem|, 0, 0, h, m) && BlocksKept(mem, 0, 0, h, m)
    ensures var at, c := HEADER_SIZE + m, PackMoves(mem, 0, 0, h, m);
      && c[at..at + h.sizeStruct] == mem[h.offStruct..h.offStruct + h.sizeStruct]
      && c[at + h.sizeStruct..at + h.sizeStruct + h.sizeStrings] == mem[h.offStrings..h.offStrings + h.sizeStrings]
  {
    hide PackMoves;
    var w := Wanted(mem, 0, h, m);
    var at := HEADER_SIZE + m;
    var c := Put(mem, HEADER_SIZE, w);
    assert c[at..at + h.sizeStruct] == w[m..m + h.sizeStruct];
    assert c[at + h.sizeStruct..at + h.sizeStruct + h.sizeStrings] == w[m + h.sizeStruct..];
  }

  /** A block that comes out of a move as it was has not been disturbed. */
  lemma SliceUndisturbed(mem: seq<byte>, dst: nat, src: nat, n: nat, p: nat, q: nat)
    requires dst + n <= |mem| && src + n <= |mem| && p + q <= |mem|
    requires Moved(mem, dst, src, n)[p..p + q] == mem[p..p + q]
    ensures Undisturbed(mem, dst, src, n, p, q)
  {
    hide Moved;
    forall i {:trigger mem[i]} | dst <= i < dst + n && p <= i < p + q ensures mem[src + i - dst] == mem[i] {
      MovedByte(mem, dst, src, n, i);
      assert Moved(mem, dst, src, n)[i] == Moved(mem, dst, src, n)[p..p + q][i - p] == mem[p..p + q][i - p];
    }
  }

  /** A byte of strings that come out of two moves as they were. */
  lemma StringByte(mem: seq<byte>, m1: seq<byte>, at: nat, b: nat, j: nat, c: nat, k: nat, x: nat)
    requires |m1| == |mem| && at + j <= |mem| && b + j <= |mem| && c <= x < c + k <= |mem|
    requires m1[b..b + j] == mem[b..b + j] && Moved(m1, at, b, j)[c..c + k] == mem[c..c + k]
    ensures mem[x] == if at <= x < at + j then mem[b + x - at] else m1[x]
  {
    hide Moved;
    MovedByte(m1, at, b, j, x);
    assert Moved(m1, at, b, j)[x] == Moved(m1, at, b, j)[c..c + k][x - c] == mem[c..c + k][x - c];
    if at <= x < at + j {
      assert m1[b + x - at] == m1[b..b + j][x - at] == mem[b..b + j][x - at];
    }
  }

  /** Neither of the moves has disturbed them. */
  lemma StringsUndisturbed(mem: seq<byte>, m1: seq<byte>, a: nat, i: nat, b: nat, j: nat, c: nat, k: nat)
    requires HEADER_SIZE + i + j <= |mem| && a + i <= |mem| && b + j <= |mem| && c + k <= |mem|
    requires m1 == Moved(mem, HEADER_SIZE, a, i) && m1[b..b + j] == mem[b..b + j]
    requires Moved(m1, HEADER_SIZE + i, b, j)[c..c + k] == mem[c..c + k]
    ensures Undisturbed(mem, HEADER_SIZE, a, i, c, k) && Undisturbed(mem, HEADER_SIZE + i, b, j, c, k)
  {
    hide Moved;
    forall x {:trigger mem[x]} | HEADER_SIZE <= x < HEADER_SIZE + i && c <= x < c + k
      ensures mem[a + x - HEADER_SIZE] == mem[x]
    {
      StringByte(mem, m1, HEADER_SIZE + i, b, j, c, k, x);
      MovedByte(mem, HEADER_SIZE, a, i, x);
    }
    forall x {:trigger mem[x]} | HEADER_SIZE + i <= x < HEADER_SIZE + i + j && c <= x < c + k
      ensures mem[b + x - HEADER_SIZE - i] == mem[x]
    {
      StringByte(mem, m1, HEADER_SIZE + i, b, j, c, k, x);
    }
  }

  /** That is all there is to it: the moves lose nothing exactly when they disturb nothing they still need. */
  lemma NothingLostExactly(b: seq<byte>)
    requires Packable(b)
    ensures NothingLost(b) <==> AllUndisturbed(b, Hdr(b), RsvSize(b))
  {
    hide Hdr, RsvCount, BlocksKept, Undisturbed, Moved, PackMoves;
    PackFits(b);
    var h, m := Hdr(b), RsvSize(b);
    if AllUndisturbed(b, h, m) {
      UndisturbedKeeps(b, h, m);
    } else if NothingLost(b) {
      var m1 := Moved(b, HEADER_SIZE, h.offRsv, m);
      ImageBytes(b, h, m);
      WantedBlocks(b, h, m);
      SliceUndisturbed(b, HEADER_SIZE, h.offRsv, m, h.offStruct, h.sizeStruct);
      StringsUndisturbed(b, m1, h.offRsv, m, h.offStruct, h.sizeStruct, h.offStrings, h.sizeStrings);
    }
  }

  lemma UndisturbedKeeps(mem: seq<byte>, h: Header, m: nat)
    requires MovesFit(|mem|, 0, 0, h, m) && AllUndisturbed(mem, h, m)
    ensures BlocksKept(mem, 0, 0, h, m)
  {
    hide Put, Moved, Undisturbed;
    MovesWrite(mem, HEADER_SIZE, h.offRsv, m, h.offStruct, h.sizeStruct, h.offStrings, h.sizeStrings);
  }

  // ---------------------------------------------------------------- the test on header and list size

  /** Moving `n` bytes from `src` to `dst` leaves the `q` bytes at `p` as they are, whatever they are. */
  predicate Spares(dst: nat, src: nat, n: nat, p: nat, q: nat) {
    dst == src || n == 0 || q == 0 || dst + n <= p || p + q <= dst
  }

  /**
   So it does when what it writes over and what it writes there both belong to the eight bytes at `f`, which are zero:
   the size in the terminator of the list.
   */
  predicate Harmless(f: int, dst: nat, src: nat, n: nat, p: nat, q: nat) {
    var lo, hi := if p < dst then dst else p, if dst + n < p + q then dst + n else p + q;
    Spares(dst, src, n, p, q) || (f <= lo && hi <= f + 8 && f <= lo + src - dst && hi + src - dst <= f + 8)
  }

  /** In place, no move of `fdt_pack` changes a block that is still to be moved. */
  predicate PackSafe(h: Header, m: nat) {
    var f := h.offRsv + m - 8;
    && Harmless(f, HEADER_SIZE, h.offRsv, m, h.offStruct, h.sizeStruct)
    && Harmless(f, HEADER_SIZE, h.offRsv, m, h.offStrings, h.sizeStrings)
    && Harmless(f, HEADER_SIZE + m, h.offStruct, h.sizeStruct, h.offStrings, h.sizeStrings)
  }

  lemma HarmlessMove(b: seq<byte>, f: nat, dst: nat, src: nat, n: nat, p: nat, q: nat)
    requires dst + n <= |b| && src + n <= |b| && p + q <= |b| && Harmless(f, dst, src, n, p, q)
    requires f + 8 <= |b| && forall i :: f <= i < f + 8 ==> b[i] == 0
    ensures Undisturbed(b, dst, src, n, p, q)
  {
    forall i {:trigger b[i]} | dst <= i < dst + n && p <= i < p + q ensures b[src + i - dst] == b[i] {
    }
  }

  lemma SafeLosesNothing(b: seq<byte>)
    requires Packable(b) && PackSafe(Hdr(b), RsvSize(b))
    ensures NothingLost(b)
  {
    hide Hdr, RsvCount, BlocksKept, Harmless, Undisturbed, Entry, NothingLost;
    var h, m := Hdr(b), RsvSize(b);
    var f := h.offRsv + m - 8;
    PackFits(b);
    CountFits(b, 0);
    SizeZero(b, f - 8);
    HarmlessMove(b, f, HEADER_SIZE, h.offRsv, m, h.offStruct, h.sizeStruct);
    HarmlessMove(b, f, HEADER_SIZE, h.offRsv, m, h.offStrings, h.sizeStrings);
    HarmlessMove(b, f, HEADER_SIZE + m, h.offStruct, h.sizeStruct, h.offStrings, h.sizeStrings);
    NothingLostExactly(b);
  }

  /** A blob of ones behind the header of `c`, with the terminator's size at `f` and a two at `q`. */
  function Marked(c: seq<byte>, f: int, q: int): (b: seq<byte>)
    requires |c| >= HEADER_SIZE
    ensures |b| == |c|
  {
    seq(|c|, i requires 0 <= i < |c| =>
      if i < HEADER_SIZE then c[i] else if f <= i < f + 8 then 0 else if i == q then 2 else 1)
  }

  /** It has the same header and a list of the same size. */
  lemma MarkedIs(c: seq<byte>, q: int)
    requires Packable(c)
    ensures var b := Marked(c, Hdr(c).offRsv + RsvSize(c) - 8, q);
      Packable(b) && Hdr(b) == Hdr(c) && RsvSize(b) == RsvSize(c)
  {
    hide Hdr, RsvCount, Entry;
    var p, n, b := Hdr(c).offRsv, RsvCount(c, 0).value, Marked(c, Hdr(c).offRsv + RsvSize(c) - 8, q);
    CountFits(c, 0);
    assert b[..HEADER_SIZE] == c[..HEADER_SIZE];
    HdrKept(c, b);
    forall k | 0 <= k < n ensures Entry(b, p + 16 * k).size != 0 {
      SizeZero(b, p + 16 * k);
      assert b[p + 16 * k + 8] != 0;
    }
    SizeZero(b, p + 16 * n);
    CountIs(b, 0, n);
  }

  /** A move that is not harmless disturbs a block with suitable contents. */
  lemma Disturbs(c: seq<byte>, f: nat, dst: nat, src: nat, n: nat, p: nat, q: nat) returns (x: nat)
    requires |c| >= HEADER_SIZE && HEADER_SIZE <= dst && HEADER_SIZE <= src && dst + n <= |c| && src + n <= |c|
      && p + q <= |c|
    requires !Harmless(f, dst, src, n, p, q)
    ensures !Undisturbed(Marked(c, f, x), dst, src, n, p, q)
  {
    var lo, hi := if p < dst then dst else p, if dst + n < p + q then dst + n else p + q;
    var i := if lo < f || lo + src - dst < f then lo else hi - 1;
    x := src + i - dst;
    assert Marked(c, f, x)[i] != Marked(c, f, x)[src + i - dst];
  }

  /** Another blob of that size with that header and as many reservations. */
  ghost predicate SameLayout(b: seq<byte>, c: seq<byte>)
    requires Packable(c)
  {
    |b| == |c| && Packable(b) && Hdr(b) == Hdr(c) && RsvSize(b) == RsvSize(c)
  }

  /** The test is exact: it holds if and only if `fdt_pack` loses nothing of any blob with that header and list size. */
  lemma PackSafeExact(c: seq<byte>)
    requires Packable(c)
    ensures PackSafe(Hdr(c), RsvSize(c)) <==> forall b: seq<byte> :: SameLayout(b, c) ==> NothingLost(b)
  {
    hide Hdr, RsvCount, Harmless, NothingLost, Undisturbed, Marked;
    var h, m := Hdr(c), RsvSize(c);
    var f := h.offRsv + m - 8;
    PackFits(c);
    if PackSafe(h, m) {
      forall b: seq<byte> | SameLayout(b, c) ensures NothingLost(b) {
        SafeLosesNothing(b);
      }
    } else {
      var x;
      if !Harmless(f, HEADER_SIZE, h.offRsv, m, h.offStruct, h.sizeStruct) {
        x := Disturbs(c, f, HEADER_SIZE, h.offRsv, m, h.offStruct, h.sizeStruct);
      } else if !Harmless(f, HEADER_SIZE, h.offRsv, m, h.offStrings, h.sizeStrings) {
        x := Disturbs(c, f, HEADER_SIZE, h.offRsv, m, h.offStrings, h.sizeStrings);
      } else {
        x := Disturbs(c, f, HEADER_SIZE + m, h.offStruct, h.sizeStruct, h.offStrings, h.sizeStrings);
      }
      MarkedIs(c, x);
      NothingLostExactly(Marked(c, f, x));
      assert SameLayout(Marked(c, f, x), c);
    }
  }

  /** When the moves lose nothing, packing writes header, reservations, structure and strings. */
  lemma PackedImage(b: seq<byte>)
    requires Packable(b) && NothingLost(b)
    ensures HEADER_SIZE + |ImageOf(b)| == PackedSize(Hdr(b), RsvSize(b)) <= |b|
      && Packed(b) == Put(b, 0, PackHeader(b) + ImageOf(b))
  {
    hide Hdr, Put, RsvCount, PackHeader, RsvBytes, StructOf, StringsOf, PackMoves;
    PackFits(b);
    HeaderFirst(b, 0, PackHeader(b), ImageOf(b));
  }

  function ImageOf(b: seq<byte>): seq<byte>
    requires Sound(b) && RsvCount(b, 0).Some?
  {
    RsvBytes(b) + StructOf(b) + StringsOf(b)
  }

  lemma HeaderFirst(mem: seq<byte>, to: nat, h: seq<byte>, x: seq<byte>)
    requires to + |h| + |x| <= |mem|
    ensures Put(Put(mem, to + |h|, x), to, h) == Put(mem, to, h + x)
  {
  }

  /** Packing then keeps the contents and closes the gaps. */
  lemma PackedParts(b: seq<byte>)
    requires Packable(b) && NothingLost(b)
    ensures var h, m, c := Hdr(b), RsvSize(b), Packed(b);
      && Sound(c) && Hdr(c) == HeaderPacked(h, m, PackedSize(h, m)) && SameContents(b, h, c) && Tidy(c) && IsPacked(c)
  {
    hide Hdr, Put, RsvCount, RsvList, PackHeader, StructAs, StringsAs, StructOf, StringsOf, Packed, NothingLost,
      RsvBytes;
    var h, m := Hdr(b), RsvSize(b);
    SeenSound(b);
    PackHeaderIs(b);
    PackedImage(b);
    PutIsPrefix(b, PackHeader(b) + ImageOf(b));
    ImageContents(b, h, Packed(b), PackHeader(b), PackedSize(h, m));
  }

  /** A packed blob is left as it is. */
  lemma PackedStays(b: seq<byte>)
    requires Tidy(b) && IsPacked(b)
    ensures Packable(b) && NothingLost(b) && Packed(b) == b
  {
    hide Put, Enc32, RsvCount, RsvList, Dec32, PackSafe, NothingLost, Packed;
    var h, m := Hdr(b), RsvSize(b);
    TidyPackable(b);
    SafeLosesNothing(b);
    PackedFixpoint(b);
    PackedImage(b);
    SameWord(b[0..HEADER_SIZE], W_TOTALSIZE);
    WholeBlob(b);
    SourceIsHeader(b, 0, 0);
    PutSelf(b, 0, h.totalsize);
  }

  /** So packing twice is packing once. */
  lemma PackIdempotent(b: seq<byte>)
    requires Packable(b) && NothingLost(b)
    ensures Packable(Packed(b)) && Packed(Packed(b)) == Packed(b)
  {
    hide Hdr, Packed, RsvCount, NothingLost;
    PackedParts(b);
    PackedStays(Packed(b));
  }

  /**
   `fdt_pack`: the blocks are moved together in place, over each other where they overlap, and the total
   size becomes the end of the strings. The contents stay when the moves spare what they still need.
   */
  method Pack(d: Dtb) returns (err: int)
    requires d.Valid() && Packable(d.buf[..])
    modifies d.buf
    ensures err == 0 && d.buf[..] == Packed(old(d.buf[..]))
    ensures old(PackSafe(Hdr(d.buf[..]), RsvSize(d.buf[..]))) ==> d.Valid() && d.Meaning() == old(d.Meaning())
  {
    hide Hdr, Put, Enc32, RsvCount, RsvList, BlobAt, PackedHeader, Block, Enc, StructOf, StringsOf, StructAs,
      StringsAs, RsvBytes, SameContents, PackSafe, PackMoves, NothingLost;
    ghost var b, h := d.buf[..], Hdr(d.buf[..]);
    ProbePasses(b, d.tree);
    err := RwProbe(Hdr(d.buf[..]));
    PackFits(b);
    var num_memrsv := NumMemRsv(d.buf[..]);
    var m := (num_memrsv + 1) * RSV_SIZE;
    PackBlocks(d.buf, 0, 0, m, Hdr(d.buf[..]).sizeStruct, b, h);
    ghost var hp := PackedHeader(b[0..HEADER_SIZE], m, h.sizeStruct, h.sizeStrings);
    PackHeaderIs(b);
    HeaderPut(PackMoves(b, 0, 0, h, m), hp);
    var total := DataSize(Hdr(d.buf[..]));
    SetImageWord(d.buf, 0, W_TOTALSIZE, total, PackMoves(b, 0, 0, h, m), hp);
    if PackSafe(h, m) {
      SafeLosesNothing(b);
      PackedParts(b);
      EditableSame(b, d.buf[..], d.tree);
    }
  }

  lemma HeaderPut(c: seq<byte>, hx: seq<byte>)
    requires |hx| == HEADER_SIZE <= |c|
    ensures Hdr(Put(c, 0, hx)) == Hdr(hx)
  {
    hide Hdr;
    SameHeader(Put(c, 0, hx), 0, hx);
    WholeBlob(Put(c, 0, hx));
  }

  /** A blob with the same structure and strings, in order, is editable as the same tree. */
  lemma EditableSame(b: seq<byte>, c: seq<byte>, t: Forest)
    requires Sound(b) && SameContents(b, Hdr(b), c) && Ordered(Hdr(c))
    requires AllValid(Block(t)) && StructOf(b) == Enc(Block(t)) && NamesOk(t, StringsOf(b))
    ensures Editable(c, t) && Decode(t, StringsOf(c)) == Decode(t, StringsOf(b))
  {
    hide Hdr, Block, Enc;
  }

  lemma WholeBlob(b: seq<byte>)
    ensures BlobAt(b, 0) == b
  {
  }

  lemma PutIsPrefix(b: seq<byte>, x: seq<byte>)
    requires |x| <= |b|
    ensures x <= Put(b, 0, x)
  {
  }

  lemma HeaderOfPrefix(b: seq<byte>, h: seq<byte>, x: seq<byte>)
    requires |h| == HEADER_SIZE && h + x <= b
    ensures Hdr(b) == Hdr(h)
  {
    hide Hdr;
    assert b[..HEADER_SIZE] == (h + x)[..HEADER_SIZE] == h[..HEADER_SIZE];
    HdrKept(b, h);
  }
}
