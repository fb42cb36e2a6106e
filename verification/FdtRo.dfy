/** fdt/fdt_ro.c: lookups on a read-only blob. */
module FdtRo {
  import opened Bytes
  import opened Tokens
  import opened Forests
  import opened Trees
  import opened Walks
  import opened Scans
  import opened Blobs
  import opened Fdt

  /** `fdt_get_string` on a complete blob: the string and its length, or the reason it is missing. */
  method GetString(b: seq<byte>, stroffset: int) returns (r: Option<seq<byte>>, len: int)
    requires Sound(b) && -0x8000_0000 <= stroffset <= INT_MAX
    ensures r == StrAt(StringsOf(b), stroffset)
    ensures r.Some? ==> len == |r.value|
    ensures r.None? ==> len == if 0 <= stroffset < |StringsOf(b)| then -TRUNCATED else -BADOFFSET
  {
    hide Dec32;
    var h := Hdr(b);
    var absoffset := Wrap32(stroffset + h.offStrings);
    if absoffset >= h.totalsize {
      return None, -BADOFFSET;
    }
    var room: int := h.totalsize - absoffset;
    if stroffset < 0 || stroffset >= h.sizeStrings {
      return None, -BADOFFSET;
    }
    if h.sizeStrings - stroffset < room {
      room := h.sizeStrings - stroffset;
    }
    StringBytes(b, stroffset);
    var n := NulFrom(b[..absoffset + room], absoffset);
    if n == absoffset + room {
      return None, -TRUNCATED;
    }
    return Some(b[absoffset..n]), n - absoffset;
  }

  /** Searching the blob up to the end of the strings block is searching the strings block. */
  lemma StringBytes(b: seq<byte>, k: nat)
    requires Sound(b) && k < |StringsOf(b)|
    ensures var h := Hdr(b); var e := h.offStrings + h.sizeStrings;
      && StringsOf(b) == b[h.offStrings..e] && |StringsOf(b)| == h.sizeStrings
      && NulFrom(b[..e], h.offStrings + k) - h.offStrings == NulFrom(StringsOf(b), k)
      && b[h.offStrings + k..NulFrom(b[..e], h.offStrings + k)] == StringsOf(b)[k..NulFrom(StringsOf(b), k)]
  {
    hide Dec32, Hdr;
    var h := Hdr(b);
    var o: nat, e := h.offStrings, h.offStrings + h.sizeStrings;
    var t := StringsOf(b);
    SliceSlice(b, 0, e, o + k, e);
    SliceSlice(b, o, e, k, e - o);
    assert b[0..e] == b[..e];
    NulFromShift(b[..e], o + k, t, k);
    SliceSlice(b, o, e, k, NulFrom(t, k));
  }

  lemma NulFromShift(s: seq<byte>, i: nat, t: seq<byte>, j: nat)
    requires i <= |s| && j <= |t| && s[i..] == t[j..]
    ensures NulFrom(s, i) - i == NulFrom(t, j) - j
    decreases |s| - i
  {
    if i < |s| {
      assert s[i] == s[i..][0] == t[j..][0] == t[j];
      if s[i] != 0 {
        assert s[i + 1..] == s[i..][1..] == t[j..][1..] == t[j + 1..];
        NulFromShift(s, i + 1, t, j + 1);
      }
    }
  }

  /** `fdt_string_eq_`. */
  method StringEq(b: seq<byte>, nameoff: u32, s: seq<byte>) returns (eq: bool)
    requires Sound(b)
    ensures eq <==> StrAt(StringsOf(b), nameoff) == Some(s)
  {
    hide Dec32, StringsOf, StrAt;
    NameoffFits(b, nameoff);
    var p, len := GetString(b, Int32(nameoff));
    eq := p.Some? && len == |s| && p.value == s;
  }

  /** `fdt_get_name` at a node. */
  method GetName(b: seq<byte>, offset: int, ghost s: Spot, ghost f: Forest) returns (name: seq<byte>)
    requires f.NodeCons? && At(b, s, f, offset)
    ensures name == f.name
  {
    hide Dec32, Hdr, Plug, Block, Enc, Holds, Pre;
    NodeBytes(b, s, f, offset);
    var off := Hdr(b).offStruct + offset + 4;
    var n := NulFrom(b, off);
    name := b[off..n];
  }

  lemma NodeBytes(b: seq<byte>, s: Spot, f: Forest, offset: int)
    requires f.NodeCons? && At(b, s, f, offset)
    ensures 0 <= offset && Hdr(b).offStruct + offset + 4 <= |b|
    ensures StrAt(b, Hdr(b).offStruct + offset + 4) == Some(f.name)
  {
    hide Dec32, Hdr, NextTagAt, Plug, Block, Enc, Pre, AtTop, StrAt, Align4, Enc32;
    AtNext(b, s, f, offset);
    Under(StructOf(b), s, f);
    NodeNameBytes(StructOf(b), offset, Head(s, f));
    NameInBlob(b, offset + 4, f.name);
  }

  /** A string in the structure block, read through the blob. */
  lemma NameInBlob(b: seq<byte>, q: nat, name: seq<byte>)
    requires Sound(b) && NoNul(name) && q + |name| + 1 <= |StructOf(b)|
    requires StructOf(b)[q..q + |name| + 1] == name + [0]
    ensures Hdr(b).offStruct + q <= |b| && StrAt(b, Hdr(b).offStruct + q) == Some(name)
  {
    hide Hdr, Dec32;
    var h, m := Hdr(b), |name| + 1;
    SliceSlice(b, h.offStruct, h.offStruct + h.sizeStruct, q, q + m);
    StrAtIs(b, h.offStruct + q, name);
  }

  lemma NodeNameBytes(area: seq<byte>, offset: nat, t: Token)
    requires t.BeginNode? && t.Valid() && offset + t.Size() <= |area| && area[offset..offset + t.Size()] == t.Bytes()
    ensures NoNul(t.name) && offset + 4 + |t.name| + 1 <= |area|
    ensures area[offset + 4..offset + 4 + |t.name| + 1] == t.name + [0]
  {
    var m := |t.name| + 1;
    SliceSlice(area, offset, offset + t.Size(), 4, 4 + m);
    assert t.Bytes()[4..4 + m] == t.name + [0];
  }

  /** `fdt_nodename_eq_`: byte comparison, then the NUL or the start of a unit address. */
  method NodenameEq(b: seq<byte>, offset: int, name: seq<byte>, ghost s: Spot, ghost f: Forest) returns (eq: bool)
    requires f.NodeCons? && At(b, s, f, offset)
    ensures eq <==> NameMatch(f.name, name)
    ensures eq <==> f.name == name || (64 !in name && exists u :: f.name == name + [64] + u)
  {
    hide Dec32, Hdr, Plug, Block, Enc, Holds, Pre, Off;
    NameMatchMeans(f.name, name);
    var p := GetName(b, offset, s, f);
    if |p| < |name| {
      return false;
    }
    if p[..|name|] != name {
      return false;
    }
    if |p| == |name| {
      return true;
    } else if AT !in name && p[|name|] == AT {
      return true;
    } else {
      return false;
    }
  }

  /** `nextprop_` on any structure block: it always returns. */
  method NextProp(b: seq<byte>, offset0: int) returns (offset: int)
    requires StructIn(b) && -0x8000_0000 <= offset0 < INT_MAX - 8
    ensures offset == PropScan(StructOf(b), offset0)
  {
    hide Dec32, Hdr, StructOf;
    AreaSmall(b);
    offset := offset0;
    while true
      invariant -0x8000_0000 <= offset < INT_MAX - 8
      invariant PropScan(StructOf(b), offset) == PropScan(StructOf(b), offset0)
      decreases |StructOf(b)| + 4 - offset
    {
      var tag, nextoffset := NextTag(b, offset);
      if tag == FDT_END {
        return if nextoffset >= 0 then -BADSTRUCTURE else nextoffset;
      } else if tag == FDT_PROP {
        return;
      }
      offset := nextoffset;
      if tag != FDT_NOP {
        return -NOTFOUND;
      }
    }
  }

  /** At a cursor it finds the next property of the node. */
  lemma {:induction false} PropScanAt(b: seq<byte>, s: Spot, f: Forest, offset: int)
    requires At(b, s, f, offset) && !AtTop(s)
    ensures Located(b, FirstProp(s, f), PropScan(StructOf(b), offset))
    decreases f
  {
    hide Dec32, Hdr, Plug, Block, Enc, Holds, Pre, Off, StructOf, NextTagAt;
    AtNext(b, s, f, offset);
    if f.NopCons? {
      PropScanAt(b, Next(s, f).spot, Next(s, f).here, offset + Head(s, f).Size());
    }
  }

  method FirstPropertyOffset(b: seq<byte>, nodeoffset: int, ghost s: Spot, ghost f: Forest) returns (offset: int)
    requires f.NodeCons? && At(b, s, f, nodeoffset)
    ensures Located(b, FirstProp(Inside(s, f.name, f.npad, f.rest), f.kids), offset)
  {
    hide Dec32, Hdr, Plug, Block, Enc, Holds, Pre, Off, StructOf, NextTagAt;
    AtNext(b, s, f, nodeoffset);
    OffsetsAreInts(b, s, f, nodeoffset);
    offset := CheckOffset(b, nodeoffset, FDT_BEGIN_NODE);
    OffsetsAreInts(b, Inside(s, f.name, f.npad, f.rest), f.kids, offset);
    PropScanAt(b, Inside(s, f.name, f.npad, f.rest), f.kids, offset);
    offset := NextProp(b, offset);
  }

  method NextPropertyOffset(b: seq<byte>, propoffset: int, ghost c: Cursor) returns (offset: int)
    requires c.here.PropCons? && At(b, c.spot, c.here, propoffset) && !AtTop(c.spot)
    ensures Located(b, NextPropOf(c), offset)
  {
    hide Dec32, Hdr, Plug, Block, Enc, Holds, Pre, Off, StructOf, NextTagAt;
    AtNext(b, c.spot, c.here, propoffset);
    OffsetsAreInts(b, c.spot, c.here, propoffset);
    offset := CheckOffset(b, propoffset, FDT_PROP);
    ghost var u := AfterProp(c.spot, c.here.nameoff, c.here.val, c.here.pad);
    OffsetsAreInts(b, u, c.here.rest, offset);
    PropScanAt(b, u, c.here.rest, offset);
    offset := NextProp(b, offset);
  }

  /** What `fdt_get_property_by_offset_` reads: value length and name offset, big-endian. */
  lemma PropWords(b: seq<byte>, s: Spot, f: Forest, offset: int)
    requires f.PropCons? && At(b, s, f, offset)
    ensures 0 <= offset && Hdr(b).offStruct + offset + 12 + |f.val| <= |b|
    ensures Dec32(b, Hdr(b).offStruct + offset + 4) == |f.val|
    ensures Dec32(b, Hdr(b).offStruct + offset + 8) == f.nameoff
    ensures b[Hdr(b).offStruct + offset + 12..Hdr(b).offStruct + offset + 12 + |f.val|] == f.val
  {
    hide Dec32, Hdr, NextTagAt, Plug, Block, Enc, Pre;
    var h, area := Hdr(b), StructOf(b);
    AtNext(b, s, f, offset);
    Under(area, s, f);
    var t := Head(s, f);
    PropWordsAt(area, offset, t);
    SliceSlice(b, h.offStruct, h.offStruct + h.sizeStruct, offset + 12, offset + 12 + |f.val|);
    AreaWord(b, offset + 4);
    AreaWord(b, offset + 8);
  }

  /** `fdt_get_property_namelen_`: the property's offset and value length, or an error twice. */
  method GetProperty(b: seq<byte>, nodeoffset: int, name: seq<byte>, ghost s: Spot, ghost f: Forest)
    returns (offset: int, len: int)
    requires f.NodeCons? && At(b, s, f, nodeoffset)
    ensures var found := FindProp(Inside(s, f.name, f.npad, f.rest), f.kids, StringsOf(b), name);
      Located(b, found, offset) && len == if found.Some? then |found.value.here.val| else -NOTFOUND
  {
    hide Dec32, Hdr, Plug, Block, Enc, Holds, Pre, Off, StructOf, NextTagAt, StringsOf, StrAt;
    ghost var found := FindProp(Inside(s, f.name, f.npad, f.rest), f.kids, StringsOf(b), name);
    ghost var cs, cf := Inside(s, f.name, f.npad, f.rest), f.kids;
    ghost var next := FirstProp(cs, cf);
    offset := FirstPropertyOffset(b, nodeoffset, s, f);
    while offset >= 0
      invariant Located(b, next, offset) && next == FirstProp(cs, cf) && !AtTop(cs)
      invariant FindProp(cs, cf, StringsOf(b), name) == found
      decreases cf
    {
      FindPropSteps(cs, cf, StringsOf(b), name);
      FirstPropInside(cs, cf);
      ghost var c := next.value;
      PropWords(b, c.spot, c.here, offset);
      var at := Hdr(b).offStruct + offset;
      len := Dec32(b, at + 4);
      var eq := StringEq(b, Dec32(b, at + 8), name);
      if eq {
        return;
      }
      offset := NextPropertyOffset(b, offset, c);
      cs, cf := AfterProp(c.spot, c.here.nameoff, c.here.val, c.here.pad), c.here.rest;
      next := FirstProp(cs, cf);
    }
    FindPropSteps(cs, cf, StringsOf(b), name);
    len := offset;
  }

  lemma {:induction false} FirstPropInside(s: Spot, f: Forest)
    requires FirstProp(s, f).Some?
    ensures AtTop(FirstProp(s, f).value.spot) == AtTop(s)
    ensures FirstProp(s, f).value.here == f || FirstProp(s, f).value.here < f
    decreases f
  {
    if f.NopCons? {
      FirstPropInside(AfterNop(s), f.rest);
    }
  }

  /** What the search still finds when it stands on node `c` at the given depth. */
  ghost function SearchFrom(c: Cursor, depth: int, name: seq<byte>): Option<Cursor>
    requires c.here.NodeCons?
  {
    var n := Next(c.spot, c.here);
    if depth == 1 && NameMatch(c.here.name, name) then Some(c) else SearchWalk(n.spot, n.here, depth, name)
  }

  /** `fdt_subnode_offset_namelen`. */
  method SubnodeOffset(b: seq<byte>, parentoffset: int, name: seq<byte>, ghost s: Spot, ghost f: Forest)
    returns (offset: int)
    requires f.NodeCons? && At(b, s, f, parentoffset)
    ensures var found := FindChild(Inside(s, f.name, f.npad, f.rest), f.kids, name);
      Located(b, found, offset)
    ensures var cs := Subnodes(Inside(s, f.name, f.npad, f.rest), f.kids);
      if offset < 0 then offset == -NOTFOUND && forall i :: 0 <= i < |cs| ==> !Answers(cs[i].here.name, name)
      else exists i ::
        && 0 <= i < |cs| && At(b, cs[i].spot, cs[i].here, offset) && Answers(cs[i].here.name, name)
        && forall j :: 0 <= j < i ==> !Answers(cs[j].here.name, name)
  {
    hide Dec32, Hdr, Plug, Block, Enc, Holds, Pre, Off, StructOf, NextTagAt, NameMatch, Answers;
    FindChildFirst(Inside(s, f.name, f.npad, f.rest), f.kids, name);
    offset := parentoffset;
    var depth := 0;
    ghost var found := FindChild(Inside(s, f.name, f.npad, f.rest), f.kids, name);
    SearchIsFindChild(Inside(s, f.name, f.npad, f.rest), f.kids, name);
    ghost var c := Cursor(s, f);
    ghost var w;
    while offset >= 0 && depth >= 0
      invariant offset >= 0 && depth >= 0 ==> c.here.NodeCons? && At(b, c.spot, c.here, offset)
      invariant offset >= 0 && depth >= 0 ==> found == SearchFrom(c, depth, name)
      invariant offset < 0 ==> offset == -NOTFOUND && found == None
      invariant depth < 0 ==> found == None
      decreases offset >= 0 && depth >= 0, Left(c.spot, c.here)
    {
      if depth == 1 {
        var eq := NodenameEq(b, offset, name, c.spot, c.here);
        if eq {
          return;
        }
      }
      OffsetsAreInts(b, c.spot, c.here, offset);
      NextFacts(c.spot, c.here);
      offset, depth, w := NextNodeAt(b, offset, depth, true, c.spot, c.here);
      if w.Node? {
        c := w.at;
      }
    }
    if depth < 0 {
      return -NOTFOUND;
    }
  }

  /** Strings read from a table contain no NUL. */
  lemma StrNoNul(s: seq<byte>, k: int)
    requires StrAt(s, k).Some?
    ensures NoNul(StrAt(s, k).value)
  {
  }

  /** `fdt_getprop_by_offset` at a property. */
  method GetpropByOffset(b: seq<byte>, offset: int, ghost c: Cursor) returns (name: seq<byte>, val: seq<byte>)
    requires c.here.PropCons? && At(b, c.spot, c.here, offset) && StrAt(StringsOf(b), c.here.nameoff).Some?
    ensures StrAt(StringsOf(b), c.here.nameoff) == Some(name) && NoNul(name)
    ensures val == c.here.val && |val| <= INT_MAX - 16
  {
    hide Dec32, Hdr, Plug, Block, Enc, Pre, Off, StructOf, NextTagAt, StringsOf, StrAt;
    AtNext(b, c.spot, c.here, offset);
    PropWords(b, c.spot, c.here, offset);
    StrNoNul(StringsOf(b), c.here.nameoff);
    NameoffFits(b, c.here.nameoff);
    var at := Hdr(b).offStruct + offset;
    var len := Dec32(b, at + 4);
    var s, n := GetString(b, Int32(Dec32(b, at + 8)));
    name := s.value;
    val := b[at + 12..at + 12 + len];
  }

  lemma NameoffFits(b: seq<byte>, o: u32)
    requires Sound(b)
    ensures StrAt(StringsOf(b), Int32(o)) == StrAt(StringsOf(b), o)
  {
    hide Dec32, Hdr, NulFrom;
  }
}
