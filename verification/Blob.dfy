/**
 A complete blob: the header (Devicetree Specification, section 5.2) and the blocks it locates.
 */
module Blobs {
  import opened Bytes
  import opened Tokens
  import opened Forests
  import opened Trees

  const FDT_MAGIC: u32 := 0xd00d_feed
  const FDT_SW_MAGIC: u32 := 0x2ff2_0112  // the complement of FDT_MAGIC
  const HEADER_SIZE := 40
  const RSV_SIZE := 16

  datatype Header = Header(
    magic: u32, totalsize: u32, offStruct: u32, offStrings: u32, offRsv: u32,
    version: u32, lastComp: u32, bootCpu: u32, sizeStrings: u32, sizeStruct: u32)

  /** The `i`-th big-endian word of the blob. */
  function Word(b: seq<byte>, i: nat): u32
    requires 4 * i + 4 <= |b|
  {
    Dec32(b, 4 * i)
  }

  function Hdr(b: seq<byte>): Header
    requires |b| >= HEADER_SIZE
  {
    Header(Word(b, 0), Word(b, 1), Word(b, 2), Word(b, 3), Word(b, 4),
           Word(b, 5), Word(b, 6), Word(b, 7), Word(b, 8), Word(b, 9))
  }

  /** What `fdt_check_header` establishes for a version 17 blob that fits its buffer. */
  predicate HeaderOk(h: Header, size: nat) {
    && h.magic == FDT_MAGIC && h.version == 17 && h.lastComp <= 17
    && HEADER_SIZE <= h.totalsize < INT_MAX && h.totalsize <= size
    && HEADER_SIZE <= h.offRsv <= h.totalsize
    && HEADER_SIZE <= h.offStruct && h.offStruct + h.sizeStruct <= h.totalsize
    && HEADER_SIZE <= h.offStrings && h.offStrings + h.sizeStrings <= h.totalsize
  }

  predicate Sound(b: seq<byte>) { |b| >= HEADER_SIZE && HeaderOk(Hdr(b), |b|) }

  /** The part of the header the tokenizer relies on; an unfinished blob has it too. */
  predicate StructIn(b: seq<byte>) {
    && |b| >= HEADER_SIZE && Hdr(b).version == 17
    && HEADER_SIZE <= Hdr(b).offStruct && Hdr(b).offStruct + Hdr(b).sizeStruct <= Hdr(b).totalsize
    && Hdr(b).totalsize < INT_MAX && Hdr(b).totalsize <= |b|
  }

  /** The structure block. */
  function StructOf(b: seq<byte>): seq<byte>
    requires StructIn(b)
  {
    b[Hdr(b).offStruct..Hdr(b).offStruct + Hdr(b).sizeStruct]
  }

  const V16_SIZE := 36  // the header of version 16 has no structure size

  /** The same for a version 16 header, where only the total size bounds the structure block. */
  predicate AreaIn(b: seq<byte>) {
    || StructIn(b)
    || (|b| >= HEADER_SIZE && Hdr(b).version == 16 && V16_SIZE <= Hdr(b).offStruct <= Hdr(b).totalsize < INT_MAX
      && Hdr(b).totalsize <= |b|)
  }

  /** The bytes the tokenizer may read. */
  function AreaOf(b: seq<byte>): seq<byte>
    requires AreaIn(b)
  {
    if Hdr(b).version == 16 then b[Hdr(b).offStruct..Hdr(b).totalsize] else StructOf(b)
  }

  /** The strings block. */
  function StringsOf(b: seq<byte>): seq<byte>
    requires Sound(b)
  {
    b[Hdr(b).offStrings..Hdr(b).offStrings + Hdr(b).sizeStrings]
  }

  /** `b` is a sound blob whose structure block starts with the encoding of `f`. */
  ghost predicate Carries(b: seq<byte>, f: Forest)
  {
    Sound(b) && Holds(StructOf(b), f)
  }

  /** The cursor `(s, f)` of the blob's forest lies at byte `offset` of the structure block. */
  ghost predicate At(b: seq<byte>, s: Spot, f: Forest, offset: int)
  {
    Carries(b, Plug(s, f)) && AllValid(Pre(s)) && offset == Off(s)
  }

  /** Reading the token under a cursor, and where that leads. */
  lemma AtNext(b: seq<byte>, s: Spot, f: Forest, offset: int)
    requires At(b, s, f, offset)
    ensures 0 <= offset && offset + 4 <= |StructOf(b)| < INT_MAX - HEADER_SIZE && offset % 4 == 0
    ensures Head(s, f).Valid() && offset + Head(s, f).Size() <= |StructOf(b)|
    ensures NextTagAt(StructOf(b), offset) == (Head(s, f).Tag(), offset + Head(s, f).Size())
    ensures !(AtTop(s) && f.Nil?) ==> At(b, Next(s, f).spot, Next(s, f).here, offset + Head(s, f).Size())
  {
    hide Dec32, Hdr, NextTagAt, StructOf, Head, Pre, Plug, Block, Enc, AtTop, Next;
    var area := StructOf(b);
    AreaSmall(b);
    TagUnder(area, s, f);
    EncAligned(Pre(s));
    Under(area, s, f);
    if !(AtTop(s) && f.Nil?) {
      NextFacts(s, f);
      NextTagToken(area, Pre(s), Head(s, f));
    }
  }

  lemma AreaSmall(b: seq<byte>)
    requires StructIn(b)
    ensures Hdr(b).offStruct + |StructOf(b)| <= |b| && |StructOf(b)| < INT_MAX - HEADER_SIZE
  {
  }

  lemma AreaFits(b: seq<byte>)
    requires AreaIn(b)
    ensures |b| >= HEADER_SIZE && Hdr(b).offStruct + |AreaOf(b)| <= Hdr(b).totalsize <= |b|
      && |AreaOf(b)| < INT_MAX - V16_SIZE
  {
  }
}
