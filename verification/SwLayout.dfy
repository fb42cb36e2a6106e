/**
 The bytes of an unfinished blob: the reservation block and the structure block grow upwards, the
 strings grow downwards from the end of the buffer, and the space between them is free.
 */
module SwLayouts {
  import opened Bytes
  import opened Tokens
  import opened Blobs
  import opened Layouts

  const SW_HEADER := 48  // the header rounded up to a whole reservation entry

  datatype Rsv = Rsv(address: u64, size: u64)

  function Enc64(v: u64): (b: seq<byte>)
    ensures |b| == 8
  {
    Enc32(v / 0x1_0000_0000) + Enc32(v % 0x1_0000_0000)
  }

  lemma BigEndian64()
    ensures Enc64(0x0102_0304_0506_0708) == [1, 2, 3, 4, 5, 6, 7, 8]
  {
  }

  function EncRsv(rs: seq<Rsv>): (b: seq<byte>)
    ensures |b| == 16 * |rs|
  {
    if rs == [] then [] else EncRsv(rs[..|rs| - 1]) + (Enc64(rs[|rs| - 1].address) + Enc64(rs[|rs| - 1].size))
  }

  /** The header of an unfinished blob and the disjointness of its growing ends. */
  predicate SwHeader(h: Header, size: nat) {
    && h.magic == FDT_SW_MAGIC && h.version == 17 && h.lastComp <= 1
    && h.totalsize < INT_MAX && h.totalsize <= size
    && h.offRsv == SW_HEADER && SW_HEADER <= h.offStruct
    && h.offStruct + h.sizeStruct + h.sizeStrings <= h.totalsize
  }

  predicate SwSound(b: seq<byte>) { |b| >= HEADER_SIZE && SwHeader(Hdr(b), |b|) }

  function SwRsv(b: seq<byte>): seq<byte>
    requires SwSound(b)
  {
    b[SW_HEADER..Hdr(b).offStruct]
  }

  /** The strings written so far, at the end of the buffer. */
  function TailOf(b: seq<byte>): seq<byte>
    requires SwSound(b)
  {
    b[Hdr(b).totalsize - Hdr(b).sizeStrings..Hdr(b).totalsize]
  }

  /** Bytes free between the two ends. */
  function SwFree(h: Header): int { h.totalsize - h.offStruct - h.sizeStruct - h.sizeStrings }

  /** `n` fresh bytes added to the structure block. */
  lemma SwGrab(b: seq<byte>, n: nat)
    requires SwSound(b) && n <= SwFree(Hdr(b))
    ensures var h := Hdr(b); var c := Put(b, 4 * W_SIZE_STRUCT, Enc32(h.sizeStruct + n));
      && SwSound(c) && Hdr(c) == h.(sizeStruct := h.sizeStruct + n)
      && StructOf(c) == StructOf(b) + b[h.offStruct + h.sizeStruct..h.offStruct + h.sizeStruct + n]
      && TailOf(c) == TailOf(b) && SwRsv(c) == SwRsv(b)
  {
    hide Hdr, Put, Enc32;
    var h := Hdr(b);
    var v := h.sizeStruct + n;
    HdrWord(b, W_SIZE_STRUCT, v);
    HeaderWrite(b, W_SIZE_STRUCT, v, SW_HEADER, h.offStruct);
    HeaderWrite(b, W_SIZE_STRUCT, v, h.offStruct, h.offStruct + v);
    HeaderWrite(b, W_SIZE_STRUCT, v, h.totalsize - h.sizeStrings, h.totalsize);
    Cut3(b, h.offStruct, h.offStruct + h.sizeStruct, h.offStruct + v, h.offStruct + v);
  }

  /** A write inside the structure block. */
  lemma SwPutStruct(b: seq<byte>, q: nat, x: seq<byte>)
    requires SwSound(b) && q + |x| <= |StructOf(b)|
    ensures Hdr(b).offStruct + q + |x| <= |b|
    ensures var c := Put(b, Hdr(b).offStruct + q, x);
      && SwSound(c) && Hdr(c) == Hdr(b) && StructOf(c) == Put(StructOf(b), q, x)
      && TailOf(c) == TailOf(b) && SwRsv(c) == SwRsv(b)
  {
    hide Hdr, Put;
    var h := Hdr(b);
    var at := h.offStruct + q;
    var c := Put(b, at, x);
    PutSlice(b, at, x, 0, HEADER_SIZE);
    assert c[..HEADER_SIZE] == c[0..HEADER_SIZE] && b[..HEADER_SIZE] == b[0..HEADER_SIZE];
    HdrKept(b, c);
    PutSlice(b, at, x, SW_HEADER, h.offStruct);
    PutSlice(b, at, x, h.offStruct, h.offStruct + h.sizeStruct);
    PutSlice(b, at, x, h.totalsize - h.sizeStrings, h.totalsize);
  }

  /** A string put in front of the others, growing downwards. */
  function TailGrown(b: seq<byte>, x: seq<byte>): seq<byte>
    requires SwSound(b) && |x| <= SwFree(Hdr(b))
  {
    var h := Hdr(b);
    Put(Put(b, h.totalsize - h.sizeStrings - |x|, x), 4 * W_SIZE_STRINGS, Enc32(h.sizeStrings + |x|))
  }

  lemma TailGrownParts(b: seq<byte>, x: seq<byte>)
    requires SwSound(b) && |x| <= SwFree(Hdr(b))
    ensures var c := TailGrown(b, x);
      && SwSound(c) && Hdr(c) == Hdr(b).(sizeStrings := Hdr(b).sizeStrings + |x|)
      && TailOf(c) == x + TailOf(b) && StructOf(c) == StructOf(b) && SwRsv(c) == SwRsv(b)
  {
    hide Hdr, Put, Enc32;
    var h := Hdr(b);
    var at, v := h.totalsize - h.sizeStrings - |x|, h.sizeStrings + |x|;
    var b1 := Put(b, at, x);
    PutSlice(b, at, x, 0, HEADER_SIZE);
    assert b1[..HEADER_SIZE] == b1[0..HEADER_SIZE] && b[..HEADER_SIZE] == b[0..HEADER_SIZE];
    HdrKept(b, b1);
    HdrWord(b1, W_SIZE_STRINGS, v);
    TailRegion(b, b1, at, x, v, SW_HEADER, h.offStruct);
    TailRegion(b, b1, at, x, v, h.offStruct, h.offStruct + h.sizeStruct);
    TailRegion(b, b1, at, x, v, at + |x|, h.totalsize);
    HeaderWrite(b1, W_SIZE_STRINGS, v, at, h.totalsize);
    PutStart(b, at, x, h.totalsize);
  }

  lemma TailRegion(b: seq<byte>, b1: seq<byte>, at: nat, x: seq<byte>, v: u32, i: nat, j: nat)
    requires at + |x| <= |b| && b1 == Put(b, at, x) && HEADER_SIZE <= i <= j <= |b|
    requires j <= at || at + |x| <= i
    ensures Put(b1, 4 * W_SIZE_STRINGS, Enc32(v))[i..j] == b[i..j]
  {
    hide Put;
    PutSlice(b, at, x, i, j);
    HeaderWrite(b1, W_SIZE_STRINGS, v, i, j);
  }

  lemma PutStart(b: seq<byte>, at: nat, x: seq<byte>, j: nat)
    requires at + |x| <= j <= |b|
    ensures Put(b, at, x)[at..j] == x + b[at + |x|..j]
  {
  }

  /** The roll-back: the strings are as they were, whatever the free bytes hold. */
  lemma TailRolledBack(b: seq<byte>, x: seq<byte>)
    requires SwSound(b) && |x| <= SwFree(Hdr(b))
    ensures var c := Put(TailGrown(b, x), 4 * W_SIZE_STRINGS, Enc32(Hdr(b).sizeStrings));
      && SwSound(c) && Hdr(c) == Hdr(b) && TailOf(c) == TailOf(b) && StructOf(c) == StructOf(b) && SwRsv(c) == SwRsv(b)
  {
    hide Hdr, Put, Enc32, TailGrown;
    var h, a := Hdr(b), TailGrown(b, x);
    TailGrownParts(b, x);
    HdrWord(a, W_SIZE_STRINGS, h.sizeStrings);
    HeaderWrite(a, W_SIZE_STRINGS, h.sizeStrings, SW_HEADER, h.offStruct);
    HeaderWrite(a, W_SIZE_STRINGS, h.sizeStrings, h.offStruct, h.offStruct + h.sizeStruct);
    HeaderWrite(a, W_SIZE_STRINGS, h.sizeStrings, h.totalsize - h.sizeStrings, h.totalsize);
    SliceSlice(a, h.totalsize - h.sizeStrings - |x|, h.totalsize, |x|, |x| + h.sizeStrings);
    assert (x + TailOf(b))[|x|..|x| + h.sizeStrings] == TailOf(b);
  }
}
