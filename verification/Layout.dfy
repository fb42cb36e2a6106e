/**
 The bytes of a blob under the primitive updates of the read-write functions: header words,
 writes inside a block, and the splice that moves everything behind it.

 For each update one lemma says what has become of the header and of every block.
 */
module Layouts {
  import opened Bytes
  import opened Tokens
  import opened Blobs

  /** Memory reservations, then structure, then strings (`fdt_blocks_misordered_` finds no fault). */
  predicate Ordered(h: Header) {
    && h.offRsv + RSV_SIZE <= h.offStruct
    && h.offStruct + h.sizeStruct <= h.offStrings
  }

  /** The reservation block with whatever precedes the structure block. */
  function RsvOf(b: seq<byte>): seq<byte>
    requires Sound(b) && Ordered(Hdr(b))
  {
    b[Hdr(b).offRsv..Hdr(b).offStruct]
  }

  // ---------------------------------------------------------------- header words

  const W_TOTALSIZE := 1
  const W_OFF_STRUCT := 2
  const W_OFF_STRINGS := 3
  const W_OFF_RSV := 4
  const W_SIZE_STRINGS := 8
  const W_SIZE_STRUCT := 9

  function WithWord(h: Header, k: nat, v: u32): Header
    requires k < 10
  {
    match k
    case 0 => h.(magic := v)
    case 1 => h.(totalsize := v)
    case 2 => h.(offStruct := v)
    case 3 => h.(offStrings := v)
    case 4 => h.(offRsv := v)
    case 5 => h.(version := v)
    case 6 => h.(lastComp := v)
    case 7 => h.(bootCpu := v)
    case 8 => h.(sizeStrings := v)
    case _ => h.(sizeStruct := v)
  }

  lemma WordElsewhere(b: seq<byte>, at: nat, x: seq<byte>, k: nat)
    requires at + |x| <= |b| && k + 4 <= |b|
    requires k + 4 <= at || at + |x| <= k
    ensures Dec32(Put(b, at, x), k) == Dec32(b, k)
  {
  }

  lemma WordHere(b: seq<byte>, k: nat, v: u32)
    requires k + 4 <= |b|
    ensures Dec32(Put(b, k, Enc32(v)), k) == v
  {
    DecEnc(Put(b, k, Enc32(v)), k, v);
  }

  lemma HdrWord(b: seq<byte>, k: nat, v: u32)
    requires |b| >= HEADER_SIZE && k < 10
    ensures Hdr(Put(b, 4 * k, Enc32(v))) == WithWord(Hdr(b), k, v)
  {
    hide Dec32, Enc32, Put;
    var c := Put(b, 4 * k, Enc32(v));
    WordHere(b, 4 * k, v);
    forall i | 0 <= i < 10 && i != k ensures Word(c, i) == Word(b, i) {
      WordElsewhere(b, 4 * k, Enc32(v), 4 * i);
    }
    assert Word(c, k) == v;
  }

  lemma HdrKept(b: seq<byte>, c: seq<byte>)
    requires |b| >= HEADER_SIZE && |c| >= HEADER_SIZE && b[..HEADER_SIZE] == c[..HEADER_SIZE]
    ensures Hdr(b) == Hdr(c)
  {
    assert forall i :: 0 <= i < HEADER_SIZE ==> b[i] == b[..HEADER_SIZE][i] == c[i];
  }

  // ---------------------------------------------------------------- writes inside a block

  lemma PutSlice(b: seq<byte>, at: nat, x: seq<byte>, i: nat, j: nat)
    requires at + |x| <= |b| && i <= j <= |b|
    ensures j <= at || at + |x| <= i ==> Put(b, at, x)[i..j] == b[i..j]
    ensures i <= at && at + |x| <= j ==> Put(b, at, x)[i..j] == Put(b[i..j], at - i, x)
  {
    var c := Put(b, at, x);
    if j <= at || at + |x| <= i {
      assert c[i..j] == b[i..j];
    }
    if i <= at && at + |x| <= j {
      var d := Put(b[i..j], at - i, x);
      forall k | 0 <= k < j - i ensures c[i..j][k] == d[k] {
        assert c[i..j][k] == c[i + k];
      }
      assert c[i..j] == d;
    }
  }

  /** A write inside the structure block changes nothing else. */
  lemma PutStruct(b: seq<byte>, q: nat, x: seq<byte>)
    requires Sound(b) && Ordered(Hdr(b)) && q + |x| <= |StructOf(b)|
    ensures Hdr(b).offStruct + q + |x| <= |b|
    ensures var c := Put(b, Hdr(b).offStruct + q, x);
      && Hdr(c) == Hdr(b) && Sound(c)
      && StructOf(c) == Put(StructOf(b), q, x) && StringsOf(c) == StringsOf(b) && RsvOf(c) == RsvOf(b)
  {
    hide Hdr, Put, Dec32, Word;
    var h := Hdr(b);
    var at := h.offStruct + q;
    var c := Put(b, at, x);
    PutSlice(b, at, x, 0, HEADER_SIZE);
    assert c[..HEADER_SIZE] == c[0..HEADER_SIZE] && b[..HEADER_SIZE] == b[0..HEADER_SIZE];
    HdrKept(b, c);
    PutSlice(b, at, x, h.offStruct, h.offStruct + h.sizeStruct);
    PutSlice(b, at, x, h.offStrings, h.offStrings + h.sizeStrings);
    PutSlice(b, at, x, h.offRsv, h.offStruct);
  }

  // ---------------------------------------------------------------- splices

  /** End of the strings block (`fdt_data_size_`). */
  function DataSize(h: Header): nat { h.offStrings + h.sizeStrings }

  /** Nothing outside the data is replaced, and what replaces it must fit. */
  function SpliceError(h: Header, p: int, oldlen: nat, newlen: nat): int {
    if p < 0 || p + oldlen > DataSize(h) then -BADOFFSET
    else if DataSize(h) - oldlen + newlen > h.totalsize then -NOSPACE
    else 0
  }

  /** The `memmove` of `fdt_splice_`: everything behind `p + oldlen` moves to `p + newlen`. */
  function Spliced(b: seq<byte>, end: nat, p: nat, oldlen: nat, newlen: nat): (r: seq<byte>)
    requires p + oldlen <= end <= |b| && end - oldlen + newlen <= |b|
    ensures |r| == |b|
  {
    Moved(b, p + newlen, p + oldlen, end - p - oldlen)
  }

  lemma SplicedSlices(b: seq<byte>, end: nat, p: nat, oldlen: nat, newlen: nat, i: nat, j: nat)
    requires p + oldlen <= end <= |b| && end - oldlen + newlen <= |b| && i <= j <= end
    ensures var c := Spliced(b, end, p, oldlen, newlen);
      && (j <= p + newlen ==> c[i..j] == b[i..j])
      && (p + oldlen <= i ==> c[i - oldlen + newlen..j - oldlen + newlen] == b[i..j])
  {
    hide Spliced;
    var c := Spliced(b, end, p, oldlen, newlen);
    if j <= p + newlen {
      SplicedBelow(b, end, p, oldlen, newlen);
      SliceSlice(c, 0, p + newlen, i, j);
      SliceSlice(b, 0, p + newlen, i, j);
    }
    if p + oldlen <= i {
      SplicedAbove(b, end, p, oldlen, newlen);
      SliceSlice(c, p + newlen, end - oldlen + newlen, i - p - oldlen, j - p - oldlen);
      SliceSlice(b, p + oldlen, end, i - p - oldlen, j - p - oldlen);
    }
  }

  lemma SplicedBelow(b: seq<byte>, end: nat, p: nat, oldlen: nat, newlen: nat)
    requires p + oldlen <= end <= |b| && end - oldlen + newlen <= |b|
    ensures Spliced(b, end, p, oldlen, newlen)[0..p + newlen] == b[0..p + newlen]
  {
  }

  lemma SplicedAbove(b: seq<byte>, end: nat, p: nat, oldlen: nat, newlen: nat)
    requires p + oldlen <= end <= |b| && end - oldlen + newlen <= |b|
    ensures Spliced(b, end, p, oldlen, newlen)[p + newlen..end - oldlen + newlen] == b[p + oldlen..end]
  {
  }

  /** Header words lie below every block. */
  lemma HeaderWrite(b: seq<byte>, k: nat, v: u32, i: nat, j: nat)
    requires |b| >= HEADER_SIZE && k < 10 && HEADER_SIZE <= i <= j <= |b|
    ensures Put(b, 4 * k, Enc32(v))[i..j] == b[i..j]
  {
    PutSlice(b, 4 * k, Enc32(v), i, j);
  }

  /** `fdt_splice_struct_`: the moved bytes and the two header words. */
  function StructSpliced(b: seq<byte>, q: nat, oldlen: nat, newlen: nat): seq<byte>
    requires Sound(b) && Ordered(Hdr(b)) && q + oldlen <= Hdr(b).sizeStruct
    requires DataSize(Hdr(b)) - oldlen + newlen <= Hdr(b).totalsize
  {
    var h := Hdr(b);
    var b1 := Spliced(b, DataSize(h), h.offStruct + q, oldlen, newlen);
    var b2 := Put(b1, 4 * W_SIZE_STRUCT, Enc32(h.sizeStruct + newlen - oldlen));
    Put(b2, 4 * W_OFF_STRINGS, Enc32(h.offStrings + newlen - oldlen))
  }

  lemma StructSplicedParts(b: seq<byte>, q: nat, oldlen: nat, newlen: nat)
    requires Sound(b) && Ordered(Hdr(b)) && q + oldlen <= Hdr(b).sizeStruct
    requires DataSize(Hdr(b)) - oldlen + newlen <= Hdr(b).totalsize
    ensures var h, c := Hdr(b), StructSpliced(b, q, oldlen, newlen);
      && |c| == |b| && Sound(c) && Ordered(Hdr(c))
      && Hdr(c) == h.(sizeStruct := h.sizeStruct + newlen - oldlen, offStrings := h.offStrings + newlen - oldlen)
      && h.offStruct + q + newlen <= |b|
      && StructOf(c) == StructOf(b)[..q] + b[h.offStruct + q..h.offStruct + q + newlen] + StructOf(b)[q + oldlen..]
      && StringsOf(c) == StringsOf(b) && RsvOf(c) == RsvOf(b)
  {
    hide Hdr, Put, Dec32, Word, Enc32, Spliced, StructSpliced;
    SplicedHeader(b, q, oldlen, newlen);
    SplicedOutside(b, q, oldlen, newlen);
    SplicedInside(b, q, oldlen, newlen);
  }

  /** The blocks before and behind. */
  lemma SplicedOutside(b: seq<byte>, q: nat, oldlen: nat, newlen: nat)
    requires Sound(b) && Ordered(Hdr(b)) && q + oldlen <= Hdr(b).sizeStruct
    requires DataSize(Hdr(b)) - oldlen + newlen <= Hdr(b).totalsize
    ensures var h, c, d := Hdr(b), StructSpliced(b, q, oldlen, newlen), newlen - oldlen;
      && |c| == |b| && c[h.offRsv..h.offStruct] == b[h.offRsv..h.offStruct]
      && c[h.offStrings + d..DataSize(h) + d] == b[h.offStrings..DataSize(h)]
  {
    hide Hdr, Put, Dec32, Word, Enc32, Spliced, StructSpliced;
    var h := Hdr(b);
    var p, end, d := h.offStruct + q, DataSize(h), newlen - oldlen;
    SplicedHeader(b, q, oldlen, newlen);
    SplicedSlices(b, end, p, oldlen, newlen, h.offRsv, h.offStruct);
    SplicedBlock(b, q, oldlen, newlen, h.offRsv, h.offStruct);
    SplicedSlices(b, end, p, oldlen, newlen, h.offStrings, end);
    SplicedBlock(b, q, oldlen, newlen, h.offStrings + d, end + d);
  }

  /** The structure block with the gap in it. */
  lemma SplicedInside(b: seq<byte>, q: nat, oldlen: nat, newlen: nat)
    requires Sound(b) && Ordered(Hdr(b)) && q + oldlen <= Hdr(b).sizeStruct
    requires DataSize(Hdr(b)) - oldlen + newlen <= Hdr(b).totalsize
    ensures var h, c, st := Hdr(b), StructSpliced(b, q, oldlen, newlen), StructOf(b);
      && |c| == |b| && h.offStruct + q + newlen <= |b| && |st| == h.sizeStruct
      && c[h.offStruct..h.offStruct + h.sizeStruct + newlen - oldlen] ==
         st[..q] + b[h.offStruct + q..h.offStruct + q + newlen] + st[q + oldlen..]
  {
    hide Hdr, Put, Dec32, Word, Enc32, Spliced, StructSpliced;
    var h := Hdr(b);
    SplicedHeader(b, q, oldlen, newlen);
    StructPieces(b, Spliced(b, DataSize(h), h.offStruct + q, oldlen, newlen), h, q, oldlen, newlen);
    SplicedBlock(b, q, oldlen, newlen, h.offStruct, h.offStruct + h.sizeStruct + newlen - oldlen);
  }

  lemma SplicedHeader(b: seq<byte>, q: nat, oldlen: nat, newlen: nat)
    requires Sound(b) && Ordered(Hdr(b)) && q + oldlen <= Hdr(b).sizeStruct
    requires DataSize(Hdr(b)) - oldlen + newlen <= Hdr(b).totalsize
    ensures var h, c, d := Hdr(b), StructSpliced(b, q, oldlen, newlen), newlen - oldlen;
      && |c| == |b| && Sound(c) && Ordered(Hdr(c))
      && Hdr(c) == h.(sizeStruct := h.sizeStruct + d, offStrings := h.offStrings + d)
  {
    hide Hdr, Put, Dec32, Word, Enc32, Spliced;
    var h := Hdr(b);
    var p, end, d := h.offStruct + q, DataSize(h), newlen - oldlen;
    var b1 := Spliced(b, end, p, oldlen, newlen);
    var b2 := Put(b1, 4 * W_SIZE_STRUCT, Enc32(h.sizeStruct + d));
    var c := Put(b2, 4 * W_OFF_STRINGS, Enc32(h.offStrings + d));
    SplicedSlices(b, end, p, oldlen, newlen, 0, HEADER_SIZE);
    assert b1[..HEADER_SIZE] == b1[0..HEADER_SIZE] && b[..HEADER_SIZE] == b[0..HEADER_SIZE];
    HdrKept(b, b1);
    HdrWord(b1, W_SIZE_STRUCT, h.sizeStruct + d);
    HdrWord(b2, W_OFF_STRINGS, h.offStrings + d);
  }

  lemma SplicedBlock(b: seq<byte>, q: nat, oldlen: nat, newlen: nat, i: nat, j: nat)
    requires Sound(b) && Ordered(Hdr(b)) && q + oldlen <= Hdr(b).sizeStruct
    requires DataSize(Hdr(b)) - oldlen + newlen <= Hdr(b).totalsize
    requires HEADER_SIZE <= i <= j <= |b|
    ensures StructSpliced(b, q, oldlen, newlen)[i..j]
      == Spliced(b, DataSize(Hdr(b)), Hdr(b).offStruct + q, oldlen, newlen)[i..j]
  {
    hide Hdr, Put, Dec32, Word, Enc32, Spliced;
    var h, d := Hdr(b), newlen - oldlen;
    var b1 := Spliced(b, DataSize(h), h.offStruct + q, oldlen, newlen);
    HeaderWrite(b1, W_SIZE_STRUCT, h.sizeStruct + d, i, j);
    HeaderWrite(Put(b1, 4 * W_SIZE_STRUCT, Enc32(h.sizeStruct + d)), W_OFF_STRINGS, h.offStrings + d, i, j);
  }

  lemma StructPieces(b: seq<byte>, b1: seq<byte>, h: Header, q: nat, oldlen: nat, newlen: nat)
    requires h.offStruct + h.sizeStruct <= DataSize(h) <= |b| && q + oldlen <= h.sizeStruct
    requires DataSize(h) - oldlen + newlen <= |b|
    requires b1 == Spliced(b, DataSize(h), h.offStruct + q, oldlen, newlen)
    ensures var st := b[h.offStruct..h.offStruct + h.sizeStruct];
      b1[h.offStruct..h.offStruct + h.sizeStruct + newlen - oldlen] ==
      st[..q] + b[h.offStruct + q..h.offStruct + q + newlen] + st[q + oldlen..]
  {
    hide Spliced;
    var o: nat, p, end, e := h.offStruct, h.offStruct + q, DataSize(h), h.offStruct + h.sizeStruct;
    SplicedSlices(b, end, p, oldlen, newlen, o, p);
    SplicedSlices(b, end, p, oldlen, newlen, p + oldlen, e);
    SpliceGap(b, end, p, oldlen, newlen);
    Ends(b, o, e, q, q + oldlen);
    Cut3(b1, o, p, p + newlen, e + newlen - oldlen);
  }

  /** The two ends of a block. */
  lemma Ends(b: seq<byte>, o: nat, e: nat, i: nat, j: nat)
    requires i <= j && o + j <= e <= |b|
    ensures b[o..e][..i] == b[o..o + i] && b[o..e][j..] == b[o + j..e]
  {
  }

  /** The bytes of the gap are whatever stood there before. */
  lemma SpliceGap(b: seq<byte>, end: nat, p: nat, oldlen: nat, newlen: nat)
    requires p + oldlen <= end <= |b| && end - oldlen + newlen <= |b|
    ensures Spliced(b, end, p, oldlen, newlen)[p..p + newlen] == b[p..p + newlen]
  {
  }

  lemma Cut3(b: seq<byte>, i: nat, j: nat, k: nat, l: nat)
    requires i <= j <= k <= l <= |b|
    ensures b[i..l] == b[i..j] + b[j..k] + b[k..l]
  {
  }

  // ---------------------------------------------------------------- appending to the strings block

  /** `fdt_splice_string_` and the `memcpy` of the new string. */
  function StringAdded(b: seq<byte>, x: seq<byte>): seq<byte>
    requires Sound(b) && DataSize(Hdr(b)) + |x| <= Hdr(b).totalsize
  {
    var h := Hdr(b);
    Put(Put(b, 4 * W_SIZE_STRINGS, Enc32(h.sizeStrings + |x|)), DataSize(h), x)
  }

  lemma StringAddedParts(b: seq<byte>, x: seq<byte>)
    requires Sound(b) && Ordered(Hdr(b)) && DataSize(Hdr(b)) + |x| <= Hdr(b).totalsize
    ensures var h, c := Hdr(b), StringAdded(b, x);
      && |c| == |b| && Sound(c) && Hdr(c) == h.(sizeStrings := h.sizeStrings + |x|)
      && StringsOf(c) == StringsOf(b) + x && StructOf(c) == StructOf(b) && RsvOf(c) == RsvOf(b)
  {
    hide Hdr, Put, Dec32, Word, Enc32;
    var h := Hdr(b);
    var b1 := Put(b, 4 * W_SIZE_STRINGS, Enc32(h.sizeStrings + |x|));
    HdrWord(b, W_SIZE_STRINGS, h.sizeStrings + |x|);
    var c := Put(b1, DataSize(h), x);
    PutSlice(b1, DataSize(h), x, 0, HEADER_SIZE);
    assert c[..HEADER_SIZE] == c[0..HEADER_SIZE] && b1[..HEADER_SIZE] == b1[0..HEADER_SIZE];
    HdrKept(b1, c);
    TwoWrites(b, h, x, h.offRsv, h.offStruct);
    TwoWrites(b, h, x, h.offStruct, h.offStruct + h.sizeStruct);
    TwoWrites(b, h, x, h.offStrings, DataSize(h));
    PutEnd(b1, h.offStrings, DataSize(h), x);
  }

  lemma TwoWrites(b: seq<byte>, h: Header, x: seq<byte>, i: nat, j: nat)
    requires |b| >= HEADER_SIZE && h.sizeStrings + |x| < 0x1_0000_0000 && DataSize(h) + |x| <= |b|
    requires HEADER_SIZE <= i <= j <= DataSize(h)
    ensures Put(Put(b, 4 * W_SIZE_STRINGS, Enc32(h.sizeStrings + |x|)), DataSize(h), x)[i..j] == b[i..j]
  {
    hide Put;
    HeaderWrite(b, W_SIZE_STRINGS, h.sizeStrings + |x|, i, j);
    PutSlice(Put(b, 4 * W_SIZE_STRINGS, Enc32(h.sizeStrings + |x|)), DataSize(h), x, i, j);
  }

  lemma PutEnd(b: seq<byte>, i: nat, at: nat, x: seq<byte>)
    requires i <= at && at + |x| <= |b|
    ensures Put(b, at, x)[i..at + |x|] == Put(b, at, x)[i..at] + x
  {
  }

  /** `fdt_del_last_string_`: the roll-back restores the header; the bytes behind the strings are free. */
  lemma StringRolledBack(b: seq<byte>, x: seq<byte>)
    requires Sound(b) && Ordered(Hdr(b)) && DataSize(Hdr(b)) + |x| <= Hdr(b).totalsize
    ensures var c := Put(StringAdded(b, x), 4 * W_SIZE_STRINGS, Enc32(Hdr(b).sizeStrings));
      && |c| == |b| && Sound(c) && Hdr(c) == Hdr(b)
      && StringsOf(c) == StringsOf(b) && StructOf(c) == StructOf(b) && RsvOf(c) == RsvOf(b)
  {
    hide Hdr, Put, Dec32, Word, Enc32, StringAdded;
    var h, a := Hdr(b), StringAdded(b, x);
    StringAddedParts(b, x);
    HdrWord(a, W_SIZE_STRINGS, h.sizeStrings);
    HeaderWrite(a, W_SIZE_STRINGS, h.sizeStrings, h.offRsv, h.offStruct);
    HeaderWrite(a, W_SIZE_STRINGS, h.sizeStrings, h.offStruct, h.offStruct + h.sizeStruct);
    HeaderWrite(a, W_SIZE_STRINGS, h.sizeStrings, h.offStrings, DataSize(h));
    SliceSlice(a, h.offStrings, DataSize(h) + |x|, 0, h.sizeStrings);
    assert (StringsOf(b) + x)[0..h.sizeStrings] == StringsOf(b);
  }

  /** Everything about a blob that edits of its structure and strings leave alone. */
  ghost predicate SameFrame(b: seq<byte>, c: seq<byte>)
    requires Sound(b) && Ordered(Hdr(b)) && Sound(c) && Ordered(Hdr(c))
  {
    && |c| == |b| && RsvOf(c) == RsvOf(b)
    && Hdr(c).(sizeStruct := 0, offStrings := 0, sizeStrings := 0)
      == Hdr(b).(sizeStruct := 0, offStrings := 0, sizeStrings := 0)
  }

  /** Room left behind the strings block. */
  function Free(h: Header): int { h.totalsize - DataSize(h) }
}
