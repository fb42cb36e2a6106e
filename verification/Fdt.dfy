/** fdt/fdt.c: header checks, the tokenizer and the node walk, on a read-only blob. */
module Fdt {
  import opened Bytes
  import opened Tokens
  import opened Forests
  import opened Trees
  import opened Walks
  import opened Scans
  import opened Blobs

  function Int32(x: int): int {
    var u := Wrap32(x);
    if u <= INT_MAX then u else u - 0x1_0000_0000
  }

  /** `fdt_offset_ptr`: whether `len` bytes at `offset` may be read, in unsigned 32-bit arithmetic. */
  predicate OffsetPtr(b: seq<byte>, offset: int, len: u32)
    requires |b| >= HEADER_SIZE
  {
    var h := Hdr(b);
    var abs := Wrap32(offset + h.offStruct);
    && !(abs < Wrap32(offset)) && !(Wrap32(abs + len) < abs) && Wrap32(abs + len) <= h.totalsize
    && (h.version >= 17 ==> !(Wrap32(offset + len) < Wrap32(offset)) && Wrap32(offset + len) <= h.sizeStruct)
  }

  /** Inside a sound header the wrap-around tests amount to one exact bounds check. */
  lemma OffsetPtrExact(b: seq<byte>, offset: int, len: u32)
    requires AreaIn(b) && -0x8000_0000 <= offset <= INT_MAX
    ensures OffsetPtr(b, offset, len) <==> 0 <= offset && offset + len <= |AreaOf(b)|
  {
    hide Dec32;
  }

  lemma AreaWord(b: seq<byte>, offset: nat)
    requires AreaIn(b) && offset + 4 <= |AreaOf(b)|
    ensures Hdr(b).offStruct + offset + 4 <= |b|
    ensures Dec32(b, Hdr(b).offStruct + offset) == Dec32(AreaOf(b), offset)
  {
    hide Dec32;
    var at := Hdr(b).offStruct;
    SliceSlice(b, at, at + |AreaOf(b)|, offset, offset + 4);
    DecSlice(b, at + offset, AreaOf(b), offset);
  }

  /** The `do … while` loop over a node name: the offset after its NUL, or -1 at the block's end. */
  method SkipName(b: seq<byte>, start: nat) returns (offset: int)
    requires AreaIn(b) && start <= |AreaOf(b)|
    ensures var n := NulFrom(AreaOf(b), start);
      offset == if n < |AreaOf(b)| then n + 1 else -1
  {
    hide Dec32, OffsetPtr, Hdr;
    ghost var area := AreaOf(b);
    AreaFits(b);
    offset := start;
    OffsetPtrExact(b, offset, 1);
    var p := OffsetPtr(b, offset, 1);
    offset := offset + 1;
    while p && b[Hdr(b).offStruct + offset - 1] != 0
      invariant start < offset <= |area| + 1
      invariant p <==> offset <= |area|
      invariant NulFrom(area, start) == NulFrom(area, offset - 1)
      decreases |area| + 1 - offset
    {
      OffsetPtrExact(b, offset, 1);
      p := OffsetPtr(b, offset, 1);
      offset := offset + 1;
    }
    if !p {
      offset := -1;
    }
  }

  /** The advance over a property: a signed offset whose distance wraps as the tokenizer's does. */
  lemma SpanWraps(start: nat, len: u32)
    requires start < INT_MAX - 8
    ensures var off := Int32(start + 12 + len);
      && Wrap32(off - start) == Wrap32(12 + len)
      && (start + Wrap32(12 + len) <= INT_MAX ==> off == start + Wrap32(12 + len))
  {
  }

  lemma WrapSmall(x: u32)
    ensures Wrap32(x) == x
  {
  }

  /** `fdt_next_tag`, for a version 17 or version 16 header. */
  method NextTag(b: seq<byte>, startoffset: int) returns (tag: u32, nextoffset: int)
    requires AreaIn(b) && -0x8000_0000 <= startoffset < INT_MAX - 8
    ensures (tag, nextoffset) == NextTagAt(AreaOf(b), startoffset)
  {
    hide Dec32, OffsetPtr, Align4, Hdr, AreaOf, AreaIn, Wrap32, Int32;
    ghost var area := AreaOf(b);
    AreaFits(b);
    var base: int := Hdr(b).offStruct;
    var offset := startoffset;
    OffsetPtrExact(b, offset, 4);
    if !OffsetPtr(b, offset, 4) {
      return FDT_END, -TRUNCATED;
    }
    AreaWord(b, offset);
    tag := Dec32(b, base + offset);
    offset := offset + 4;
    if tag == FDT_BEGIN_NODE {
      offset := SkipName(b, offset);
      if offset < 0 {
        return FDT_END, -BADSTRUCTURE;
      }
    } else if tag == FDT_PROP {
      OffsetPtrExact(b, offset, 4);
      if !OffsetPtr(b, offset, 4) {
        return FDT_END, -BADSTRUCTURE;
      }
      AreaWord(b, offset);
      var len := Dec32(b, base + offset);
      SpanWraps(startoffset, len);
      offset := Int32(offset + 8 + len);
    } else if tag == FDT_END || tag == FDT_END_NODE || tag == FDT_NOP {
    } else {
      return FDT_END, -BADSTRUCTURE;
    }
    if tag != FDT_PROP {
      WrapSmall(offset - startoffset);
    }
    OffsetPtrExact(b, startoffset, Wrap32(offset - startoffset));
    if !OffsetPtr(b, startoffset, Wrap32(offset - startoffset)) {
      return FDT_END, -BADSTRUCTURE;
    }
    nextoffset := Align4(offset);
  }

  /** `fdt_check_node_offset_` and `fdt_check_prop_offset_` as a function of the structure block. */
  function TagOffset(area: seq<byte>, offset: int, tag: u32): int {
    var t := NextTagAt(area, offset);
    if offset < 0 || offset % 4 != 0 || t.0 != tag then -BADOFFSET else t.1
  }

  method CheckOffset(b: seq<byte>, offset: int, want: u32) returns (r: int)
    requires StructIn(b) && -0x8000_0000 <= offset < INT_MAX - 8
    ensures r == TagOffset(StructOf(b), offset, want)
  {
    hide NextTagAt, StructOf, Hdr;
    var tag, next := NextTag(b, offset);
    r := if offset < 0 || offset % 4 != 0 || tag != want then -BADOFFSET else next;
  }

  /** `fdt_next_node` from any offset; a negative one stands for the start of the block. */
  function NodeFrom(area: seq<byte>, offset: int, depth: int, tracked: bool): (r: NodeStep)
    ensures r.AtNode? || r.Beyond? ==> offset < r.offset
    ensures r.Stopped? ==> r.err < 0
  {
    if offset < 0 then NodeScan(area, 0, depth, tracked)
    else
      var next := TagOffset(area, offset, FDT_BEGIN_NODE);
      if next < 0 then Stopped(next, depth)
      else
        NextTagMoves(area, offset);
        NodeScan(area, next, depth, tracked)
  }

  /**
   `fdt_next_node` on any structure block, well nested or not. It is required that the call returns, that is
   that its scan meets no property on which the tokenizer stands still; and then it answers a later offset
   or an error, so walks that call it again and again come to an end.
   */
  method NextNode(b: seq<byte>, offset0: int, depth0: int, tracked: bool) returns (offset: int, depth: int)
    requires StructIn(b) && -0x8000_0000 <= offset0 < INT_MAX - 8
    requires !NodeFrom(StructOf(b), offset0, depth0, tracked).Spinning?
    ensures match NodeFrom(StructOf(b), offset0, depth0, tracked)
      case AtNode(o, d) => offset == o && depth == d
      case Beyond(o, d) => offset == o && depth == d
      case Stopped(e, d) => offset == e && depth == d
    ensures offset < 0 || offset0 < offset
  {
    hide NextTagAt, StructOf, Hdr;
    ghost var area := StructOf(b);
    AreaSmall(b);
    var nextoffset := 0;
    if offset0 >= 0 {
      nextoffset := CheckOffset(b, offset0, FDT_BEGIN_NODE);
      if nextoffset < 0 {
        return nextoffset, depth0;
      }
      NextTagMoves(area, offset0);
    }
    offset, depth := nextoffset, depth0;
    ghost var r := NodeScan(area, nextoffset, depth0, tracked);
    while true
      invariant 0 <= nextoffset <= |area| + 3 && nextoffset % 4 == 0
      invariant NodeScan(area, nextoffset, depth, tracked) == r
      decreases |area| + 4 - nextoffset
    {
      offset := nextoffset;
      NextTagMoves(area, offset);
      var tag;
      tag, nextoffset := NextTag(b, offset);
      if tag == FDT_BEGIN_NODE {
        depth := depth + 1;
        return;
      } else if tag == FDT_END_NODE {
        depth := depth - 1;
        if tracked && depth < 0 {
          return nextoffset, depth;
        }
      } else if tag == FDT_END {
        if nextoffset >= 0 || (nextoffset == -TRUNCATED && !tracked) {
          return -NOTFOUND, depth;
        }
        return nextoffset, depth;
      }
    }
  }

  /** The scan of a block and the scan of the forest it carries end at the same place. */
  ghost predicate Matches(b: seq<byte>, w: Walk, r: NodeStep) {
    match w
    case Node(c, d) => r.AtNode? && r.depth == d && At(b, c.spot, c.here, r.offset)
    case Out(c, d) => r.Beyond? && r.depth == d && At(b, c.spot, c.here, r.offset)
    case Stop(d) => r == Stopped(-NOTFOUND, d)
  }

  /** Where both stop at the token under the cursor. */
  lemma ScanStops(b: seq<byte>, s: Spot, f: Forest, offset: int, depth: int, tracked: bool)
    requires At(b, s, f, offset) && offset >= 0 && offset % 4 == 0
    requires f.NodeCons? || (f.Nil? && (AtTop(s) || (tracked && depth - 1 < 0)))
    ensures Matches(b, Scan(s, f, depth, tracked), NodeScan(StructOf(b), offset, depth, tracked))
  {
    hide NextTagAt, StructOf, Hdr, Pre, Plug, Block, Enc, AtTop, Holds, Off, At;
    AtNext(b, s, f, offset);
  }

  /** Where both go on. */
  lemma ScanGoes(b: seq<byte>, s: Spot, f: Forest, offset: int, depth: int, tracked: bool)
    requires At(b, s, f, offset) && offset >= 0 && offset % 4 == 0
    requires !f.NodeCons? && !(f.Nil? && (AtTop(s) || (tracked && depth - 1 < 0)))
    ensures (offset + Head(s, f).Size()) % 4 == 0 && Left(Next(s, f).spot, Next(s, f).here) < Left(s, f)
    ensures var n, next, d := Next(s, f), offset + Head(s, f).Size(), if f.Nil? then depth - 1 else depth;
      && Scan(s, f, depth, tracked) == Scan(n.spot, n.here, d, tracked)
      && NodeScan(StructOf(b), offset, depth, tracked) == NodeScan(StructOf(b), next, d, tracked)
  {
    hide NextTagAt, StructOf, Hdr, Pre, Plug, Block, Enc, AtTop, Holds, Off, At, Next;
    AtNext(b, s, f, offset);
    NextFacts(s, f);
    SizeAligned(Head(s, f));
  }

  lemma {:induction false} ScanMatches(b: seq<byte>, s: Spot, f: Forest, offset: int, depth: int, tracked: bool)
    requires At(b, s, f, offset)
    ensures 0 <= offset && offset % 4 == 0
    ensures Matches(b, Scan(s, f, depth, tracked), NodeScan(StructOf(b), offset, depth, tracked))
    decreases Left(s, f)
  {
    hide NextTagAt, StructOf, Hdr, Pre, Plug, Block, Enc, AtTop, Holds, Off, Scan, NodeScan, At, Next, Head, Matches;
    AtNext(b, s, f, offset);
    if f.NodeCons? || (f.Nil? && (AtTop(s) || (tracked && depth - 1 < 0))) {
      ScanStops(b, s, f, offset, depth, tracked);
    } else {
      ScanGoes(b, s, f, offset, depth, tracked);
      ScanMatches(b, Next(s, f).spot, Next(s, f).here, offset + Head(s, f).Size(),
        if f.Nil? then depth - 1 else depth, tracked);
    }
  }

  /**
   `fdt_next_node` from the node under the cursor (or from the start, for a negative offset) to the
   next BEGIN_NODE, or past the END_NODE at which the tracked depth turns negative.
   */
  method NextNodeAt(b: seq<byte>, offset0: int, depth0: int, tracked: bool, ghost s: Spot, ghost f: Forest)
    returns (offset: int, depth: int, ghost w: Walk)
    requires -0x8000_0000 <= offset0
    requires if offset0 < 0 then s == Top && Carries(b, f) else f.NodeCons? && At(b, s, f, offset0)
    ensures offset0 < 0 ==> w == Scan(s, f, depth0, tracked)
    ensures offset0 >= 0 ==> w == Scan(Next(s, f).spot, Next(s, f).here, depth0, tracked)
    ensures depth == w.depth
    ensures if w.Stop? then offset == -NOTFOUND else At(b, w.at.spot, w.at.here, offset)
  {
    hide NextTagAt, StructOf, Hdr, Pre, Plug, Block, Enc, AtTop, Holds, Off, NodeScan, Scan;
    if offset0 >= 0 {
      OffsetsAreInts(b, s, f, offset0);
      AtNext(b, s, f, offset0);
      var next := offset0 + Head(s, f).Size();
      ScanMatches(b, Next(s, f).spot, Next(s, f).here, next, depth0, tracked);
      w := Scan(Next(s, f).spot, Next(s, f).here, depth0, tracked);
    } else {
      AtStart(b, f);
      ScanMatches(b, Top, f, 0, depth0, tracked);
      w := Scan(s, f, depth0, tracked);
    }
    offset, depth := NextNode(b, offset0, depth0, tracked);
  }

  lemma AtStart(b: seq<byte>, f: Forest)
    requires Carries(b, f)
    ensures At(b, Top, f, 0)
  {
    assert Plug(Top, f) == f && Pre(Top) == [] && Enc([]) == [];
  }

  /** The outcome of a lookup: a cursor and its byte offset, or NOTFOUND. */
  ghost predicate Located(b: seq<byte>, found: Option<Cursor>, offset: int)
  {
    match found
    case None => offset == -NOTFOUND
    case Some(c) => offset >= 0 && At(b, c.spot, c.here, offset)
  }

  method FirstSubnode(b: seq<byte>, offset0: int, ghost s: Spot, ghost f: Forest) returns (offset: int)
    requires f.NodeCons? && At(b, s, f, offset0)
    ensures Located(b, FirstNode(Inside(s, f.name, f.npad, f.rest), f.kids), offset)
  {
    hide Hdr, Pre, Plug, Block, Enc, Holds, Off, StructOf;
    var depth; ghost var w;
    OffsetsAreInts(b, s, f, offset0);
    offset, depth, w := NextNodeAt(b, offset0, 0, true, s, f);
    SiblingIsFirst(Inside(s, f.name, f.npad, f.rest), f.kids);
    if offset < 0 || depth != 1 {
      return -NOTFOUND;
    }
  }

  method NextSubnode(b: seq<byte>, offset0: int, ghost s: Spot, ghost f: Forest) returns (offset: int)
    requires f.NodeCons? && At(b, s, f, offset0)
    ensures Located(b, NextNodeOf(Cursor(s, f)), offset)
  {
    hide Hdr, Pre, Plug, Block, Enc, Holds, Off, StructOf;
    offset := offset0;
    var depth := 1;
    ghost var c := Cursor(s, f);
    ghost var w;
    SiblingSkips(Inside(s, f.name, f.npad, f.rest), f.kids, 1);
    SiblingIsFirst(AfterNode(s, f.name, f.npad, f.kids), f.rest);
    while true
      invariant c.here.NodeCons? && At(b, c.spot, c.here, offset) && depth >= 1
      invariant SiblingWalk(Next(c.spot, c.here).spot, Next(c.spot, c.here).here, depth) == NextNodeOf(Cursor(s, f))
      decreases Left(c.spot, c.here)
    {
      OffsetsAreInts(b, c.spot, c.here, offset);
      NextFacts(c.spot, c.here);
      offset, depth, w := NextNodeAt(b, offset, depth, true, c.spot, c.here);
      if offset < 0 || depth < 1 {
        return -NOTFOUND;
      }
      c := w.at;
      if depth <= 1 {
        return;
      }
    }
  }

  /** `fdt_node_end_offset_`: the offset just past the END_NODE that matches the node's BEGIN_NODE. */
  method NodeEndOffset(b: seq<byte>, node: int, ghost s: Spot, ghost f: Forest) returns (offset: int)
    requires f.NodeCons? && At(b, s, f, node)
    ensures At(b, AfterNode(s, f.name, f.npad, f.kids), f.rest, offset)
  {
    hide Hdr, Pre, Plug, Block, Enc, Holds, Off, StructOf;
    offset := node;
    var depth := 0;
    ghost var c := Cursor(s, f);
    ghost var w;
    ghost var after := Cursor(AfterNode(s, f.name, f.npad, f.kids), f.rest);
    EndWalkCloses(Inside(s, f.name, f.npad, f.rest), f.kids, 0);
    while offset >= 0 && depth >= 0
      invariant offset >= 0
      invariant depth >= 0 ==> c.here.NodeCons? && At(b, c.spot, c.here, offset)
      invariant depth >= 0 ==> EndWalk(Next(c.spot, c.here).spot, Next(c.spot, c.here).here, depth) == Some(after)
      invariant depth < 0 ==> At(b, after.spot, after.here, offset)
      decreases depth >= 0, Left(c.spot, c.here)
    {
      OffsetsAreInts(b, c.spot, c.here, offset);
      NextFacts(c.spot, c.here);
      offset, depth, w := NextNodeAt(b, offset, depth, true, c.spot, c.here);
      OffsetsAreInts(b, w.at.spot, w.at.here, offset);
      if w.Node? {
        c := w.at;
      }
    }
  }

  lemma OffsetsAreInts(b: seq<byte>, s: Spot, f: Forest, offset: int)
    requires At(b, s, f, offset)
    ensures 0 <= offset < INT_MAX - HEADER_SIZE
  {
    hide NextTagAt, Head, Next;
    AtNext(b, s, f, offset);
  }

  /** The string `s`, NUL included, stands at `i`. */
  predicate OccursAt(strtab: seq<byte>, s: seq<byte>, i: int) {
    0 <= i && i + |s| + 1 <= |strtab| && strtab[i..i + |s| + 1] == s + [0]
  }

  /** A name occurs where reading the string there gives the name. */
  lemma OccursMeans(strtab: seq<byte>, s: seq<byte>, i: int)
    requires 0 !in s
    ensures OccursAt(strtab, s, i) <==> StrAt(strtab, i) == Some(s)
  {
    if OccursAt(strtab, s, i) {
      StrAtIs(strtab, i, s);
    }
    if StrAt(strtab, i) == Some(s) {
      var j := NulFrom(strtab, i);
      assert strtab[i..j + 1] == strtab[i..j] + [0];
    }
  }

  /** `fdt_find_string_`: the first place where the whole string appears, or -1 when there is none. */
  method FindString(strtab: seq<byte>, s: seq<byte>) returns (p: int)
    ensures p >= 0 ==> OccursAt(strtab, s, p) && forall i :: i < p ==> !OccursAt(strtab, s, i)
    ensures p < 0 ==> p == -1 && forall i :: !OccursAt(strtab, s, i)
  {
    var len := |s| + 1;
    var last := |strtab| - len;
    p := 0;
    while p <= last
      invariant 0 <= p
      invariant forall i :: i < p ==> !OccursAt(strtab, s, i)
    {
      if strtab[p..p + len] == s + [0] {
        return;
      }
      p := p + 1;
    }
    p := -1;
  }
}
