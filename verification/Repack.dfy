/**
 The reservation block as a terminated list of entries, and the image that repacking writes: header,
 reservations, structure and strings, one directly after the other.
 */
module Repacks {
  import opened Bytes
  import opened Tokens
  import opened Blobs
  import opened Layouts
  import opened SwLayouts
  import opened Checks

  // ---------------------------------------------------------------- the reservation list

  /** The entry whose sixteen bytes start at `at`. */
  function Entry(b: seq<byte>, at: nat): Rsv
    requires at + 16 <= |b|
  {
    Rsv(Dec32(b, at) as int * 0x1_0000_0000 + Dec32(b, at + 4),
      Dec32(b, at + 8) as int * 0x1_0000_0000 + Dec32(b, at + 12))
  }

  /** The list is terminated, its terminator ends at or before the structure block. */
  predicate Tidy(b: seq<byte>) {
    && Sound(b) && Ordered(Hdr(b)) && RsvCount(b, 0).Some?
    && Hdr(b).offRsv + 16 * (RsvCount(b, 0).value + 1) <= Hdr(b).offStruct
  }

  /** Bytes of the list with its terminator. */
  function RsvBytes(b: seq<byte>): seq<byte>
    requires Sized(b) && RsvCount(b, 0).Some?
  {
    CountFits(b, 0);
    b[Hdr(b).offRsv..Hdr(b).offRsv + 16 * (RsvCount(b, 0).value + 1)]
  }

  lemma {:induction false} CountFits(b: seq<byte>, i: nat)
    requires Sized(b) && RsvCount(b, i).Some?
    ensures i <= RsvCount(b, i).value && Hdr(b).offRsv + 16 * (RsvCount(b, i).value + 1) <= Hdr(b).totalsize
    ensures forall k :: i <= k < RsvCount(b, i).value ==> Entry(b, Hdr(b).offRsv + 16 * k).size != 0
    ensures Entry(b, Hdr(b).offRsv + 16 * RsvCount(b, i).value).size == 0
    decreases |b| - 16 * i
  {
    hide Dec32, Hdr;
    var at := Hdr(b).offRsv + 16 * i;
    if !(Dec32(b, at + 8) == 0 && Dec32(b, at + 12) == 0) {
      CountFits(b, i + 1);
    }
  }

  /** The reservations. */
  function RsvList(b: seq<byte>): seq<Rsv>
    requires Sized(b) && RsvCount(b, 0).Some?
  {
    CountFits(b, 0);
    seq(RsvCount(b, 0).value, k requires 0 <= k < RsvCount(b, 0).value => Entry(b, Hdr(b).offRsv + 16 * k))
  }

  /** The count is the number of entries of nonzero size before the first of size zero. */
  lemma {:induction false} CountIs(b: seq<byte>, i: nat, n: nat)
    requires Sized(b) && i <= n && Hdr(b).offRsv + 16 * (n + 1) <= Hdr(b).totalsize
    requires forall k :: i <= k < n ==> Entry(b, Hdr(b).offRsv + 16 * k).size != 0
    requires Entry(b, Hdr(b).offRsv + 16 * n).size == 0
    ensures RsvCount(b, i) == Some(n)
    decreases n - i
  {
    hide Dec32, Hdr;
    if i < n {
      assert Entry(b, Hdr(b).offRsv + 16 * i).size != 0;
      CountIs(b, i + 1, n);
    }
  }

  /** A size is zero when its eight bytes are. */
  lemma SizeZero(b: seq<byte>, at: nat)
    requires at + 16 <= |b|
    ensures Entry(b, at).size == 0 <==> forall i :: at + 8 <= i < at + 16 ==> b[i] == 0
  {
    if Entry(b, at).size == 0 {
      assert Dec32(b, at + 8) == 0 && Dec32(b, at + 12) == 0;
    }
  }

  lemma EntrySame(b: seq<byte>, at: nat, c: seq<byte>, q: nat)
    requires at + 16 <= |b| && q + 16 <= |c| && b[at..at + 16] == c[q..q + 16]
    ensures Entry(b, at) == Entry(c, q)
  {
    hide Dec32;
    WordSame(b, at, c, q, 0);
    WordSame(b, at, c, q, 4);
    WordSame(b, at, c, q, 8);
    WordSame(b, at, c, q, 12);
  }

  lemma WordSame(b: seq<byte>, at: nat, c: seq<byte>, q: nat, k: nat)
    requires at + 16 <= |b| && q + 16 <= |c| && b[at..at + 16] == c[q..q + 16] && k <= 12
    ensures Dec32(b, at + k) == Dec32(c, q + k)
  {
    hide Dec32;
    SliceSlice(b, at, at + 16, k, k + 4);
    SliceSlice(c, q, q + 16, k, k + 4);
    DecSlice(b, at + k, c, q + k);
  }

  lemma EntryInside(b: seq<byte>, p: nat, c: seq<byte>, q: nat, n: nat, k: nat)
    requires p + 16 * (n + 1) <= |b| && q + 16 * (n + 1) <= |c| && k <= n
    requires b[p..p + 16 * (n + 1)] == c[q..q + 16 * (n + 1)]
    ensures Entry(b, p + 16 * k) == Entry(c, q + 16 * k)
  {
    hide Entry;
    SliceSlice(b, p, p + 16 * (n + 1), 16 * k, 16 * k + 16);
    SliceSlice(c, q, q + 16 * (n + 1), 16 * k, 16 * k + 16);
    EntrySame(b, p + 16 * k, c, q + 16 * k);
  }

  /** The same bytes in another blob are the same list. */
  lemma RsvSame(b: seq<byte>, c: seq<byte>)
    requires Sized(b) && Sized(c) && RsvCount(b, 0).Some?
    requires var m := 16 * (RsvCount(b, 0).value + 1);
      && Hdr(c).offRsv + m <= Hdr(c).totalsize && Hdr(b).offRsv + m <= |b|
      && c[Hdr(c).offRsv..Hdr(c).offRsv + m] == b[Hdr(b).offRsv..Hdr(b).offRsv + m]
    ensures RsvCount(c, 0) == RsvCount(b, 0) && RsvBytes(c) == RsvBytes(b) && RsvList(c) == RsvList(b)
  {
    hide Hdr, RsvCount, Entry, RsvList, RsvBytes;
    CountFits(b, 0);
    SameCount(b, c, Hdr(b).offRsv, Hdr(c).offRsv, RsvCount(b, 0).value);
    RsvBytesAre(b);
    RsvBytesAre(c);
    SameList(b, c);
  }

  lemma RsvBytesAre(b: seq<byte>)
    requires Sized(b) && RsvCount(b, 0).Some?
    ensures var m := 16 * (RsvCount(b, 0).value + 1);
      Hdr(b).offRsv + m <= |b| && RsvBytes(b) == b[Hdr(b).offRsv..Hdr(b).offRsv + m]
  {
    hide Hdr, RsvCount;
    CountFits(b, 0);
  }

  lemma SameCount(b: seq<byte>, c: seq<byte>, p: nat, q: nat, n: nat)
    requires Sized(c) && q == Hdr(c).offRsv && q + 16 * (n + 1) <= Hdr(c).totalsize && p + 16 * (n + 1) <= |b|
    requires c[q..q + 16 * (n + 1)] == b[p..p + 16 * (n + 1)]
    requires forall k :: 0 <= k < n ==> Entry(b, p + 16 * k).size != 0
    requires Entry(b, p + 16 * n).size == 0
    ensures RsvCount(c, 0) == Some(n)
  {
    hide Hdr, RsvCount, Entry;
    EntryInside(b, p, c, q, n, n);
    forall k | 0 <= k < n ensures Entry(c, q + 16 * k).size != 0 {
      EntryInside(b, p, c, q, n, k);
      assert Entry(b, p + 16 * k).size != 0;
    }
    CountIs(c, 0, n);
  }

  lemma SameList(b: seq<byte>, c: seq<byte>)
    requires Sized(b) && Sized(c) && RsvCount(b, 0).Some? && RsvCount(c, 0) == RsvCount(b, 0)
    requires RsvBytes(c) == RsvBytes(b)
    ensures RsvList(c) == RsvList(b)
  {
    hide Hdr, RsvCount, Entry;
    CountFits(b, 0);
    CountFits(c, 0);
    forall k | 0 <= k < RsvCount(b, 0).value ensures RsvList(c)[k] == RsvList(b)[k] {
      EntryInside(b, Hdr(b).offRsv, c, Hdr(c).offRsv, RsvCount(b, 0).value, k);
    }
  }

  // ---------------------------------------------------------------- blobs of version 16 and 17

  /** The bounds of a version 16 header. */
  predicate Header16(h: Header, size: nat) {
    && h.magic == FDT_MAGIC && h.version == 16 && h.lastComp <= 17
    && V16_SIZE <= h.totalsize < INT_MAX && h.totalsize <= size
    && V16_SIZE <= h.offRsv <= h.totalsize && V16_SIZE <= h.offStruct <= h.totalsize
    && V16_SIZE <= h.offStrings && h.offStrings + h.sizeStrings <= h.totalsize
  }

  /** A blob that `fdt_open_into` takes. */
  predicate Openable(b: seq<byte>) { Sound(b) || (|b| >= HEADER_SIZE && Header16(Hdr(b), |b|)) }

  /** The header of such a blob as one of version 17; for version 16 the structure size has been computed. */
  predicate Seen(b: seq<byte>, h: Header) {
    && Openable(b) && h == Hdr(b).(version := 17, sizeStruct := h.sizeStruct)
    && (Sound(b) ==> h == Hdr(b)) && h.offStruct + h.sizeStruct <= h.totalsize
  }

  /** The structure block seen that way. */
  function StructAs(b: seq<byte>, h: Header): seq<byte>
    requires Seen(b, h)
  {
    b[h.offStruct..h.offStruct + h.sizeStruct]
  }

  function StringsAs(b: seq<byte>, h: Header): seq<byte>
    requires Seen(b, h)
  {
    b[h.offStrings..h.offStrings + h.sizeStrings]
  }

  lemma SeenSound(b: seq<byte>)
    requires Sound(b)
    ensures Seen(b, Hdr(b)) && StructAs(b, Hdr(b)) == StructOf(b) && StringsAs(b, Hdr(b)) == StringsOf(b)
  {
  }

  /** In order, with the whole reservation list in front of the structure block. */
  predicate TidyAs(b: seq<byte>, h: Header) {
    && Seen(b, h) && HEADER_SIZE <= h.offRsv && h.offStruct + h.sizeStruct <= h.offStrings
    && RsvCount(b, 0).Some? && h.offRsv + 16 * (RsvCount(b, 0).value + 1) <= h.offStruct
  }

  /** The same reservations, structure and strings, now in a version 17 blob. */
  ghost predicate SameContents(b: seq<byte>, h: Header, c: seq<byte>) {
    && Seen(b, h) && Sound(c) && RsvCount(b, 0).Some? && RsvCount(c, 0) == RsvCount(b, 0)
    && RsvList(c) == RsvList(b) && StructOf(c) == StructAs(b, h) && StringsOf(c) == StringsAs(b, h)
  }

  // ---------------------------------------------------------------- the packed image

  /** The header words `fdt_packblocks_` sets, in its order. */
  function PackedHeader(h: seq<byte>, m: nat, s: nat, t: nat): (r: seq<byte>)
    requires |h| == HEADER_SIZE && HEADER_SIZE + m + s + t < INT_MAX
    ensures |r| == HEADER_SIZE
  {
    var h1 := Put(h, 4 * W_OFF_RSV, Enc32(HEADER_SIZE));
    var h2 := Put(h1, 4 * W_OFF_STRUCT, Enc32(HEADER_SIZE + m));
    var h3 := Put(h2, 4 * W_SIZE_STRUCT, Enc32(s));
    var h4 := Put(h3, 4 * W_OFF_STRINGS, Enc32(HEADER_SIZE + m + s));
    Put(h4, 4 * W_SIZE_STRINGS, Enc32(t))
  }

  lemma PackedHeaderIs(h: seq<byte>, m: nat, s: nat, t: nat)
    requires |h| == HEADER_SIZE && HEADER_SIZE + m + s + t < INT_MAX
    ensures Hdr(PackedHeader(h, m, s, t)) ==
      Hdr(h).(offRsv := HEADER_SIZE, offStruct := HEADER_SIZE + m, sizeStruct := s, offStrings := HEADER_SIZE + m + s,
        sizeStrings := t)
  {
    hide Hdr, Put, Enc32;
    var h1 := Put(h, 4 * W_OFF_RSV, Enc32(HEADER_SIZE));
    var h2 := Put(h1, 4 * W_OFF_STRUCT, Enc32(HEADER_SIZE + m));
    var h3 := Put(h2, 4 * W_SIZE_STRUCT, Enc32(s));
    var h4 := Put(h3, 4 * W_OFF_STRINGS, Enc32(HEADER_SIZE + m + s));
    HdrWord(h, W_OFF_RSV, HEADER_SIZE);
    HdrWord(h1, W_OFF_STRUCT, HEADER_SIZE + m);
    HdrWord(h2, W_SIZE_STRUCT, s);
    HdrWord(h3, W_OFF_STRINGS, HEADER_SIZE + m + s);
    HdrWord(h4, W_SIZE_STRINGS, t);
  }

  /** A blob that starts with a packed image. */
  lemma ImageParts(c: seq<byte>, h: seq<byte>, rsv: seq<byte>, st: seq<byte>, strs: seq<byte>)
    requires |h| == HEADER_SIZE && h + rsv + st + strs <= c
    ensures |c| >= HEADER_SIZE + |rsv| + |st| + |strs| && Hdr(c) == Hdr(h)
    ensures var a, e := HEADER_SIZE + |rsv|, HEADER_SIZE + |rsv| + |st|;
      c[HEADER_SIZE..a] == rsv && c[a..e] == st && c[e..e + |strs|] == strs
  {
    hide Hdr;
    var x := h + rsv + st + strs;
    Middle(c, h, rsv, st + strs);
    assert h + rsv + (st + strs) == x;
    Middle(c, h + rsv, st, strs);
    Middle(c, h + rsv + st, strs, []);
    assert x + [] == x;
    Middle(c, [], h, rsv + st + strs);
    assert [] + h + (rsv + st + strs) == x;
    assert c[..HEADER_SIZE] == c[0..HEADER_SIZE] == h == h[..HEADER_SIZE];
    HdrKept(h, c);
  }

  // Growing an image in memory piece by piece.

  lemma Patch(mem: seq<byte>, at: nat, h: seq<byte>, k: nat, y: seq<byte>)
    requires at + |h| <= |mem| && k + |y| <= |h|
    ensures Put(Put(mem, at, h), at + k, y) == Put(mem, at, Put(h, k, y))
  {
  }

  lemma PutSelf(mem: seq<byte>, at: nat, n: nat)
    requires at + n <= |mem|
    ensures Put(mem, at, mem[at..at + n]) == mem
  {
  }
}
