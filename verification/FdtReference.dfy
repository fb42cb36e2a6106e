/**
 fdt/fdt_overlay.c: updating the cells that an overlay's `__local_fixups__` node lists.

 Two nodes of one blob are walked at the same time: the one that lists cells is read while values of the
 other are overwritten in place. The first is a region that keeps its contents and its offset; ghost
 parameters follow how the tree around it changes.
 */
module FdtReferences {
  import opened Bytes
  import opened Tokens
  import opened Forests
  import opened Trees
  import opened Walks
  import opened Blobs
  import opened Layouts
  import opened Edits
  import opened Paths
  import opened Merges
  import opened References
  import opened Regions
  import opened Fdt
  import opened FdtRo
  import opened FdtRw
  import opened FdtWip
  import opened FdtPath
  import opened FdtPhandle

  /** `n` tokens from `at` on share nothing with the tokens `lo..hi`. */
  predicate Outside(at: nat, n: nat, lo: nat, hi: nat) { at + n <= lo || hi <= at }

  /** The properties of the node lie outside the region `lo..hi`. */
  predicate PropsOutside(s: Spot, f: Forest, lo: nat, hi: nat)
    requires f.NodeCons?
  {
    Outside(|Pre(s)| + 1, Lead(f.kids), lo, hi)
  }

  /** So do the subnodes that answer to the given names. */
  predicate KidsOutside(s: Spot, f: Forest, names: set<seq<byte>>, lo: nat, hi: nat)
    requires f.NodeCons?
  {
    forall n :: n in names && ChildIndex(f.kids, n).Some? ==>
      Outside(|Pre(s)| + 1 + ChildIndex(f.kids, n).value.0, ChildIndex(f.kids, n).value.1 + 2, lo, hi)
  }

  /** A node all of whose tokens lie outside. */
  lemma NodeOutside(s: Spot, f: Forest, names: set<seq<byte>>, lo: nat, hi: nat)
    requires f.NodeCons? && Outside(|Pre(s)|, |Flat(f.kids)| + 2, lo, hi)
    ensures PropsOutside(s, f, lo, hi) && KidsOutside(s, f, names, lo, hi)
  {
    FindChildIndex(Top, f.kids, []);
    forall n | n in names && ChildIndex(f.kids, n).Some?
      ensures Outside(|Pre(s)| + 1 + ChildIndex(f.kids, n).value.0, ChildIndex(f.kids, n).value.1 + 2, lo, hi)
    {
      FindChildIndex(Top, f.kids, n);
    }
  }

  lemma LikeOutside(s: Spot, f: Forest, kids: Forest, names: set<seq<byte>>, lo: nat, hi: nat)
    requires f.NodeCons? && PropsOutside(s, f, lo, hi) && KidsOutside(s, f, names, lo, hi) && Like(f.kids, kids)
    ensures var g := NodeCons(f.name, f.npad, kids, f.rest);
      PropsOutside(s, g, lo, hi) && KidsOutside(s, g, names, lo, hi)
  {
    LikeFacts(f.kids, kids, []);
    forall n | n in names ensures ChildIndex(f.kids, n) == ChildIndex(kids, n) {
      LikeFacts(f.kids, kids, n);
    }
  }

  // ---------------------------------------------------------------- reading inside the region

  /** The node whose items are `g`, at spot `i` of the region's contents. */
  ghost predicate FixNode(b: seq<byte>, base: Spot, i: Spot, g: Forest, offset: int)
  {
    var n := Compose(base, i);
    n.Inside? && At(b, n.up, NodeCons(n.name, n.npad, g, n.rest), offset)
  }

  lemma KeptOff(base: Spot, base2: Spot, s: Spot)
    requires Kept(base, base2) && AllValid(Pre(Compose(base, s))) && AllValid(Pre(Compose(base2, s)))
    ensures Off(Compose(base2, s)) == Off(Compose(base, s)) && |Pre(base2)| == |Pre(base)|
  {
    hide Enc, Pre;
    ComposeFacts(base, s, Nil);
    ComposeFacts(base2, s, Nil);
    assert AllValid(Pre(s)) && AllValid(Pre(base)) && AllValid(Pre(base2)) by {
      assert forall t :: t in Pre(s) || t in Pre(base) ==> t in Pre(base) + Pre(s);
      assert forall t :: t in Pre(base2) ==> t in Pre(base2) + Pre(s);
    }
    EncConcat(Pre(base), Pre(s));
    EncConcat(Pre(base2), Pre(s));
    BaseOff(base);
    BaseOff(base2);
  }

  lemma BaseOff(b: Spot)
    requires b.Inside? && AllValid(Pre(b.up)) && AllValid(Pre(b))
    ensures Off(b) == Off(b.up) + BeginNode(b.name, b.npad).Size() && |Pre(b)| == |Pre(b.up)| + 1
  {
    hide Enc;
    var t := BeginNode(b.name, b.npad);
    assert t in Pre(b);
    EncAround(Pre(b.up), t, []);
  }

  /** A cursor into the region is found at the same offset after the region has been re-based. */
  lemma StillInside(b: seq<byte>, c: seq<byte>, base: Spot, base2: Spot, g: Forest, s: Spot, f: Forest, offset: int)
    requires At(b, Compose(base, s), f, offset) && Editable(c, Plug(base2, g)) && Plug(s, f) == g && Kept(base, base2)
    ensures At(c, Compose(base2, s), f, offset)
  {
    hide Hdr, Plug, Pre, Block, Enc;
    ComposeFacts(base2, s, f);
    EditableAt(c, Compose(base2, s), f);
    KeptOff(base, base2, s);
  }

  lemma FixNodeStill(b: seq<byte>, c: seq<byte>, base: Spot, base2: Spot, g: Forest, i: Spot, h: Forest, offset: int)
    requires FixNode(b, base, i, h, offset) && Editable(c, Plug(base2, g)) && Plug(i, h) == g && Kept(base, base2)
    requires i == Top || i.Inside?
    ensures FixNode(c, base2, i, h, offset)
  {
    hide Hdr, Pre, Block, Enc;
    if i == Top {
      EditableAt(c, base2.up, NodeCons(base2.name, base2.npad, h, base2.rest));
    } else {
      StillInside(b, c, base, base2, g, i.up, NodeCons(i.name, i.npad, h, i.rest), offset);
    }
  }

  // ---------------------------------------------------------------- writing outside the region

  /** The node being written has items `kids`; the region around `g` has been re-based from `base0` to `base`. */
  ghost predicate Working(b0: seq<byte>, d: Dtb, s: Spot, f: Forest, node: int, kids: Forest, base0: Spot, base: Spot,
      g: Forest)
    requires f.NodeCons? && Sound(b0)
    reads d, d.buf
  {
    var h := NodeCons(f.name, f.npad, kids, f.rest);
    && d.Valid() && d.tree == Plug(s, h) == Plug(base, g) && At(d.buf[..], s, h, node)
    && StringsOf(d.buf[..]) == StringsOf(b0) && Hdr(d.buf[..]) == Hdr(b0)
    && NamesOk(kids, StringsOf(b0)) && Like(f.kids, kids) && Kept(base0, base)
  }

  /** The property the lookup finds, with its value at byte `at` of the structure block. */
  ghost predicate ValueAt(b: seq<byte>, s: Spot, kids: Forest, name: seq<byte>, c: Cursor, at: int)
    requires Sound(b)
  {
    FindProp(s, kids, StringsOf(b), name) == Some(c) && c.here.PropCons? && At(b, c.spot, c.here, at - 12)
  }

  lemma CellOf(b: seq<byte>, c: Cursor, at: int, o: nat)
    requires c.here.PropCons? && At(b, c.spot, c.here, at - 12) && o + 4 <= |c.here.val|
    ensures 0 <= at && Hdr(b).offStruct + at + o + 4 <= |b|
      && Dec32(b, Hdr(b).offStruct + at + o) == Dec32(c.here.val, o)
  {
    hide Hdr, Plug, Pre, Block, Enc, Dec32;
    PropWords(b, c.spot, c.here, at - 12);
    var q := Hdr(b).offStruct + at;
    SliceSlice(b, q, q + |c.here.val|, o, o + 4);
    DecSlice(b, q + o, c.here.val, o);
  }

  /** `memcpy` of four bytes, which nothing has tested: behind the buffer they may be anything. */
  method CopyCell(buf: array<byte>, q: nat) returns (v: u32)
    ensures q + 4 <= buf.Length ==> v == Dec32(buf[..], q)
  {
    v := *;
    if q + 4 <= buf.Length {
      v := Dec32(buf[..], q);
    }
  }

  /** One listed cell: `delta` added to the word at `poffset` of the value, or BADOVERLAY when it does not fit. */
  method UpdateCell(d: Dtb, node: nat, name: seq<byte>, at: nat, poffset: u32, delta: u32,
                    ghost s: Spot, ghost f: Forest, ghost c: Cursor, ghost base: Spot, ghost g: Forest)
    returns (err: int, ghost kids: Forest, ghost base2: Spot)
    requires d.Valid() && d.tree == Plug(s, f) == Plug(base, g) && f.NodeCons? && At(d.buf[..], s, f, node)
    requires base.Inside? && AllValid(Pre(base.up))
    requires ValueAt(d.buf[..], Inside(s, f.name, f.npad, f.rest), f.kids, name, c, at)
      && PartialInside(|c.here.val|, poffset, 4)
    requires PropsOutside(s, f, |Pre(base)|, |Pre(base)| + |Flat(g)|)
    modifies d, d.buf
    ensures d.Valid() && StringsOf(d.buf[..]) == StringsOf(old(d.buf[..])) && Hdr(d.buf[..]) == Hdr(old(d.buf[..]))
    ensures err == if poffset + 4 <= |c.here.val| then 0 else -BADOVERLAY
    ensures err == 0 ==> Working(old(d.buf[..]), d, s, f, node, kids, base, base2, g)
    ensures err == 0 ==> var v := Bump(c.here.val, poffset, delta);
      && ValueAt(d.buf[..], Inside(s, f.name, f.npad, f.rest), kids, name,
                 Cursor(c.spot, PropCons(c.here.nameoff, v, c.here.pad, c.here.rest)), at)
      && Decode(kids, StringsOf(d.buf[..])) == ReplaceProp(Items(s, f, StringsOf(old(d.buf[..]))), name, v)
  {
    hide Hdr, Plug, Pre, Block, Enc, StructOf, StringsOf, NamesOk, Decode, Off, Dec32, Enc32, ReplaceRaw, FindProp,
      Put, Flat, Lead, Like;
    ghost var b, strs := d.buf[..], StringsOf(d.buf[..]);
    ghost var inner := Inside(s, f.name, f.npad, f.rest);
    kids, base2 := f.kids, base;
    ItemsDecode(s, f, strs);
    FindPropReads(inner, f.kids, strs, name);
    var q := Hdr(d.buf[..]).offStruct + at + poffset;
    if poffset + 4 <= |c.here.val| {
      CellOf(b, c, at, poffset);
    }
    var adj_val := CopyCell(d.buf, q);
    adj_val := Wrap32(adj_val + delta);
    err, kids := SetpropInplacePartial(d, node, name, poffset, Enc32(adj_val), s, f);
    if err == -NOSPACE {
      err := -BADOVERLAY;
    }
    if err != 0 {
      return;
    }
    ghost var v := Bump(c.here.val, poffset, delta);
    ReplaceRawLike(inner, f.kids, strs, name, v);
    FindPropReplaces(inner, f.kids, strs, name, v, c.here.pad);
    InsidePlug(s, f);
    InsidePlug(s, NodeCons(f.name, f.npad, kids, f.rest));
    InsideLength(s, f);
    base2 := Rebased(base, g, c, v);
    StillAt(b, d.buf[..], s, f, NodeCons(f.name, f.npad, kids, f.rest), node);
    StillAt(b, d.buf[..], c.spot, c.here, PropCons(c.here.nameoff, v, c.here.pad, c.here.rest), at - 12);
  }

  lemma InsideLength(s: Spot, f: Forest)
    requires f.NodeCons?
    ensures |Pre(Inside(s, f.name, f.npad, f.rest))| == |Pre(s)| + 1
  {
  }

  lemma WorkingStart(d: Dtb, s: Spot, f: Forest, node: int, base: Spot, g: Forest)
    requires d.Valid() && d.tree == Plug(s, f) == Plug(base, g) && f.NodeCons? && At(d.buf[..], s, f, node)
    requires base.Inside? && AllValid(Pre(base.up))
    ensures Working(d.buf[..], d, s, f, node, f.kids, base, base, g)
  {
    hide Hdr, Pre, Block, Enc, StructOf, StringsOf, NamesOk, Decode, Like, Plug;
    LikeRefl(f.kids);
    SameNode(f);
    ItemsDecode(s, f, StringsOf(d.buf[..]));
  }

  /** One more write. */
  lemma WorkingOn(b0: seq<byte>, b1: seq<byte>, d: Dtb, s: Spot, f: Forest, node: int, kids1: Forest, kids: Forest,
                  base0: Spot, base1: Spot, base: Spot, g: Forest)
    requires f.NodeCons? && Sound(b0) && Sound(b1) && StringsOf(b1) == StringsOf(b0) && Hdr(b1) == Hdr(b0)
    requires Like(f.kids, kids1) && Kept(base0, base1)
    requires Working(b1, d, s, NodeCons(f.name, f.npad, kids1, f.rest), node, kids, base1, base, g)
    ensures Working(b0, d, s, f, node, kids, base0, base, g)
  {
    hide Hdr, Pre, Block, Enc, StructOf, StringsOf, NamesOk, Decode, Like, Plug;
    LikeTrans(f.kids, kids1, kids);
  }

  lemma KeptLength(base: Spot, base2: Spot)
    requires Kept(base, base2)
    ensures |Pre(base2)| == |Pre(base)| && base2.Inside? && AllValid(Pre(base2.up))
  {
  }

  // What the lookups still see after a property of the node has been overwritten.

  lemma {:induction false} ReplaceTwice(t: Tree, name: seq<byte>, v: seq<byte>, w: seq<byte>)
    ensures ReplaceProp(ReplaceProp(t, name, v), name, w) == ReplaceProp(t, name, w)
  {
    match t
    case TProp(_, _, r) => ReplaceTwice(r, name, v, w);
    case _ =>
  }

  lemma {:induction false} ReplaceSame(t: Tree, name: seq<byte>)
    requires PropOf(t, name).Some?
    ensures ReplaceProp(t, name, PropOf(t, name).value) == t
  {
    match t
    case TProp(n, _, r) =>
      if n != name {
        ReplaceSame(r, name);
      }
    case _ =>
  }

  /** One fixup property: all its listed cells, in order. */
  method UpdateCells(d: Dtb, node: nat, name: seq<byte>, at: nat, fixup: nat, delta: u32,
      ghost s: Spot, ghost f: Forest, ghost c: Cursor, ghost base0: Spot, ghost g: Forest, ghost fc: Cursor)
    returns (err: int, ghost kids: Forest, ghost base: Spot)
    requires d.Valid() && d.tree == Plug(s, f) == Plug(base0, g) && f.NodeCons? && At(d.buf[..], s, f, node)
    requires base0.Inside? && AllValid(Pre(base0.up))
    requires ValueAt(d.buf[..], Inside(s, f.name, f.npad, f.rest), f.kids, name, c, at)
    requires PropsOutside(s, f, |Pre(base0)|, |Pre(base0)| + |Flat(g)|)
    requires fc.here.PropCons? && Plug(fc.spot, fc.here) == g && At(d.buf[..], Compose(base0, fc.spot), fc.here, fixup)
    requires |fc.here.val| % 4 == 0
      && forall i :: 0 <= i < |fc.here.val| / 4 ==> PartialInside(|c.here.val|, Dec32(fc.here.val, 4 * i), 4)
    modifies d, d.buf
    ensures d.Valid() && StringsOf(d.buf[..]) == StringsOf(old(d.buf[..])) && Hdr(d.buf[..]) == Hdr(old(d.buf[..]))
    ensures err == if CellsFit(|c.here.val|, fc.here.val) then 0 else -BADOVERLAY
    ensures err == 0 ==> Working(old(d.buf[..]), d, s, f, node, kids, base0, base, g)
    ensures err == 0 ==> At(d.buf[..], Compose(base, fc.spot), fc.here, fixup)
    ensures var t := Items(s, f, StringsOf(old(d.buf[..])));
      err == 0 ==>
        Decode(kids, StringsOf(d.buf[..])) == ReplaceProp(t, name, CellsBumped(c.here.val, fc.here.val, 0, delta))
  {
    hide Hdr, Plug, Pre, Block, Enc, StructOf, StringsOf, NamesOk, Decode, Off, Dec32, Enc32, FindProp, Put, Flat,
      Lead, Like, Kept, Bump, ReplaceProp;
    ghost var b, strs := d.buf[..], StringsOf(d.buf[..]);
    ghost var inner, fix := Inside(s, f.name, f.npad, f.rest), fc.here.val;
    ghost var t := Items(s, f, strs);
    WorkingStart(d, s, f, node, base0, g);
    kids, base := f.kids, base0;
    ghost var v := c.here.val;
    ItemsDecode(s, f, strs);
    FindPropReads(inner, f.kids, strs, name);
    ReplaceSame(t, name);
    var i := 0;
    FixWords(d.buf[..], base, fc, fixup, 0);
    var fixup_len := Dec32(d.buf[..], Hdr(d.buf[..]).offStruct + fixup + 4);
    while i < fixup_len / 4
      invariant 0 <= i <= |fix| / 4 && fixup_len == |fix| && |v| == |c.here.val|
      invariant Working(b, d, s, f, node, kids, base0, base, g)
      invariant At(d.buf[..], Compose(base, fc.spot), fc.here, fixup)
      invariant ValueAt(d.buf[..], inner, kids, name,
        Cursor(c.spot, PropCons(c.here.nameoff, v, c.here.pad, c.here.rest)), at)
      invariant Decode(kids, strs) == ReplaceProp(t, name, v)
      invariant CellsBumped(v, fix, i, delta) == CellsBumped(c.here.val, fix, 0, delta)
      invariant forall j :: 0 <= j < i ==> Dec32(fix, 4 * j) as int + 4 <= |v|
    {
      FixWords(d.buf[..], base, fc, fixup, i);
      var poffset := Dec32(d.buf[..], Hdr(d.buf[..]).offStruct + fixup + 12 + 4 * i);
      assert poffset == Dec32(fix, 4 * i);
      ghost var h := NodeCons(f.name, f.npad, kids, f.rest);
      ghost var b1, kids1, base1 := d.buf[..], kids, base;
      KeptLength(base0, base);
      LikeFacts(f.kids, kids, []);
      ghost var cell := Cursor(c.spot, PropCons(c.here.nameoff, v, c.here.pad, c.here.rest));
      ItemsDecode(s, h, strs);
      err, kids, base := UpdateCell(d, node, name, at, poffset, delta, s, h, cell, base, g);
      if err != 0 {
        return;
      }
      WorkingOn(b, b1, d, s, f, node, kids1, kids, base0, base1, base, g);
      StillInside(b1, d.buf[..], base1, base, g, fc.spot, fc.here, fixup);
      ReplaceTwice(t, name, v, Bump(v, poffset, delta));
      v := Bump(v, poffset, delta);
      i := i + 1;
    }
    err := 0;
  }

  /** The words of a fixup property, read from the blob. */
  lemma FixWords(b: seq<byte>, base: Spot, fc: Cursor, fixup: nat, i: nat)
    requires fc.here.PropCons? && At(b, Compose(base, fc.spot), fc.here, fixup)
    ensures Hdr(b).offStruct + fixup + 12 + |fc.here.val| <= |b|
    ensures Dec32(b, Hdr(b).offStruct + fixup + 4) == |fc.here.val|
    ensures 4 * i + 4 <= |fc.here.val| ==> Dec32(b, Hdr(b).offStruct + fixup + 12 + 4 * i) == Dec32(fc.here.val, 4 * i)
  {
    hide Hdr, Dec32, Plug, Pre, Enc, Block;
    PropWords(b, Compose(base, fc.spot), fc.here, fixup);
    if 4 * i + 4 <= |fc.here.val| {
      CellOf(b, Cursor(Compose(base, fc.spot), fc.here), fixup + 12, 4 * i);
    }
  }

  // ---------------------------------------------------------------- the recursion

  /** No listed offset is so large that adding four wraps around. */
  predicate ListFits(fix: Tree) {
    match fix
    case TNil => true
    case TProp(_, v, r) => (forall i :: 0 <= i < |v| / 4 ==> Dec32(v, 4 * i) < 0xffff_fffc) && ListFits(r)
    case TNode(_, k, r) => ListFits(k) && ListFits(r)
  }

  /** The property iterator on the fixup node, decoded. */
  lemma {:induction false} ListAhead(s: Spot, f: Forest, strs: seq<byte>)
    requires NamesOk(f, strs)
    ensures match FirstProp(s, f)
      case None => !Decode(f, strs).TProp?
      case Some(c) =>
        && NamesOk(c.here, strs) && Decode(c.here, strs) == Decode(f, strs) && AtTop(c.spot) == AtTop(s)
        && (c.here == f || c.here < f)
    decreases f
  {
    match f
    case NopCons(r) => ListAhead(AfterNop(s), r, strs);
    case _ =>
  }

  /** The property loop stands at `cf` of the fixup node with the target node's items decoding to `u`. */
  ghost predicate PropsLeft(u: Tree, cf: Forest, strs: seq<byte>, delta: u32, goal: Tree, ok: bool) {
    && NamesOk(cf, strs) && ListFits(Decode(cf, strs))
    && PropsBumped(u, Decode(cf, strs), delta) == goal && (PropsFit(u, Decode(cf, strs)) <==> ok)
  }

  /** What the loop does with the property at its front. */
  lemma PropsLeftStep(u: Tree, cf: Forest, strs: seq<byte>, delta: u32, goal: Tree, ok: bool)
    requires PropsLeft(u, cf, strs, delta, goal, ok) && cf.PropCons?
    ensures StrAt(strs, cf.nameoff).Some? && forall i :: 0 <= i < |cf.val| / 4 ==> Dec32(cf.val, 4 * i) < 0xffff_fffc
    ensures var name := StrAt(strs, cf.nameoff).value;
      if PropOf(u, name).Some? && CellsFit(|PropOf(u, name).value|, cf.val) then
        PropsLeft(ReplaceProp(u, name, CellsBumped(PropOf(u, name).value, cf.val, 0, delta)), cf.rest, strs, delta,
          goal, ok)
      else !ok
  {
    hide CellsFit, Dec32, CellsBumped;
    var name := StrAt(strs, cf.nameoff).value;
    if PropOf(u, name).Some? {
      PropBumpedShape(u, name, cf.val, delta);
      ShapePropsFit(u, PropBumped(u, name, cf.val, delta), Decode(cf.rest, strs));
    }
  }

  lemma PropsLeftEnd(u: Tree, s: Spot, cf: Forest, strs: seq<byte>, delta: u32, goal: Tree, ok: bool)
    requires PropsLeft(u, cf, strs, delta, goal, ok) && FirstProp(s, cf).None?
    ensures u == goal && ok
  {
    ListAhead(s, cf, strs);
  }

  /** The property loop of `overlay_update_local_node_references`. */
  method UpdateProps(d: Dtb, node: nat, fixup: nat, delta: u32, ghost s: Spot, ghost f: Forest, ghost base0: Spot,
      ghost g: Forest, ghost i: Spot, ghost h: Forest)
    returns (err: int, ghost kids: Forest, ghost base: Spot)
    requires d.Valid() && d.tree == Plug(s, f) == Plug(base0, g) && f.NodeCons? && At(d.buf[..], s, f, node)
    requires base0.Inside? && AllValid(Pre(base0.up)) && !AtTop(base0)
    requires PropsOutside(s, f, |Pre(base0)|, |Pre(base0)| + |Flat(g)|)
    requires Plug(i, h) == g && FixNode(d.buf[..], base0, i, h, fixup)
    requires NamesOk(h, StringsOf(d.buf[..])) && ListFits(Decode(h, StringsOf(d.buf[..])))
    modifies d, d.buf
    ensures d.Valid() && StringsOf(d.buf[..]) == StringsOf(old(d.buf[..])) && Hdr(d.buf[..]) == Hdr(old(d.buf[..]))
    ensures var strs := StringsOf(old(d.buf[..]));
      && err == (if PropsFit(Items(s, f, strs), Decode(h, strs)) then 0 else -BADOVERLAY)
      && (err == 0 ==> Working(old(d.buf[..]), d, s, f, node, kids, base0, base, g)
                       && Decode(kids, strs) == PropsBumped(Items(s, f, strs), Decode(h, strs), delta))
  {
    hide Hdr, Plug, Pre, Block, Enc, StructOf, StringsOf, NamesOk, Decode, Off, Dec32, FindProp, Flat, Lead, Like,
      Kept, ReplaceProp, FirstProp, PropsBumped, PropsFit, CellsBumped, CellsFit, PropsLeft, AtTop;
    ghost var b, strs := d.buf[..], StringsOf(d.buf[..]);
    ghost var inner := Inside(s, f.name, f.npad, f.rest);
    ghost var goal, ok := PropsBumped(Items(s, f, strs), Decode(h, strs), delta),
      PropsFit(Items(s, f, strs), Decode(h, strs));
    ghost var n := Compose(base0, i);
    WorkingStart(d, s, f, node, base0, g);
    kids, base := f.kids, base0;
    ghost var cs, cf := i, h;
    ItemsDecode(s, f, strs);
    ComposeProp(base, i, h);
    ComposeFacts(base, i, h);
    var fixup_prop := FirstPropertyOffset(d.buf[..], fixup, n.up, NodeCons(n.name, n.npad, h, n.rest));
    PropsLeftStart(Items(s, f, strs), h, strs, delta);
    while fixup_prop >= 0
      invariant Working(b, d, s, f, node, kids, base0, base, g)
      invariant Plug(cs, cf) == g && !AtTop(Compose(base, cs))
      invariant Located(d.buf[..], FirstProp(Compose(base, cs), cf), fixup_prop)
      invariant PropsLeft(Decode(kids, strs), cf, strs, delta, goal, ok)
      decreases cf
    {
      ghost var u := NodeCons(f.name, f.npad, kids, f.rest);
      ghost var b1, kids1, base1 := d.buf[..], kids, base;
      ComposeProp(base, cs, cf);
      ghost var fc := FirstProp(cs, cf).value;
      ghost var full := Cursor(Compose(base, fc.spot), fc.here);
      ListAheadLeft(Decode(kids, strs), cs, cf, strs, delta, goal, ok);
      PropsLeftStep(Decode(kids, strs), fc.here, strs, delta, goal, ok);
      FirstPropInside(Compose(base, cs), cf);
      var name, val := GetpropByOffset(d.buf[..], fixup_prop, full);
      if |val| % 4 != 0 {
        ListOdd(Decode(kids, strs), fc.here, strs, delta, goal, ok);
        return -BADOVERLAY, kids, base;
      }
      var at, tree_len := GetProperty(d.buf[..], node, name, s, u);
      FindPropReads(inner, kids, strs, name);
      if at < 0 {
        return if tree_len == -NOTFOUND then -BADOVERLAY else tree_len, kids, base;
      }
      ghost var c := FindProp(inner, kids, strs, name).value;
      ItemsDecode(s, u, strs);
      KeptLength(base0, base);
      LikeFacts(f.kids, kids, []);
      err, kids, base := UpdateCells(d, node, name, at + 12, fixup_prop, delta, s, u, c, base, g, fc);
      if err != 0 {
        return;
      }
      WorkingOn(b, b1, d, s, f, node, kids1, kids, base0, base1, base, g);
      full := Cursor(Compose(base, fc.spot), fc.here);
      ComposeFacts(base, fc.spot, fc.here);
      KeptTop(base0, base);
      fixup_prop := NextPropertyOffset(d.buf[..], fixup_prop, full);
      cs, cf := AfterProp(fc.spot, fc.here.nameoff, fc.here.val, fc.here.pad), fc.here.rest;
      AfterPropFacts(base, fc);
    }
    ComposeProp(base, cs, cf);
    PropsLeftEnd(Decode(kids, strs), cs, cf, strs, delta, goal, ok);
    err := 0;
  }

  lemma PropsLeftStart(u: Tree, cf: Forest, strs: seq<byte>, delta: u32)
    requires NamesOk(cf, strs) && ListFits(Decode(cf, strs))
    ensures PropsLeft(u, cf, strs, delta, PropsBumped(u, Decode(cf, strs), delta), PropsFit(u, Decode(cf, strs)))
  {
  }

  lemma ListAheadLeft(u: Tree, s: Spot, cf: Forest, strs: seq<byte>, delta: u32, goal: Tree, ok: bool)
    requires PropsLeft(u, cf, strs, delta, goal, ok) && FirstProp(s, cf).Some?
    ensures var c := FirstProp(s, cf).value;
      PropsLeft(u, c.here, strs, delta, goal, ok) && AtTop(c.spot) == AtTop(s) && (c.here == cf || c.here < cf)
  {
    hide PropsBumped, PropsFit, ListFits;
    ListAhead(s, cf, strs);
  }

  lemma ListOdd(u: Tree, cf: Forest, strs: seq<byte>, delta: u32, goal: Tree, ok: bool)
    requires PropsLeft(u, cf, strs, delta, goal, ok) && cf.PropCons? && |cf.val| % 4 != 0
    ensures !ok
  {
  }

  lemma KeptTop(base: Spot, base2: Spot)
    requires Kept(base, base2)
    ensures !AtTop(base2)
  {
  }

  lemma AfterPropFacts(base: Spot, fc: Cursor)
    requires fc.here.PropCons? && !AtTop(Compose(base, fc.spot))
    ensures var u := AfterProp(fc.spot, fc.here.nameoff, fc.here.val, fc.here.pad);
      && Compose(base, u) == AfterProp(Compose(base, fc.spot), fc.here.nameoff, fc.here.val, fc.here.pad)
      && !AtTop(Compose(base, u)) && Plug(u, fc.here.rest) == Plug(fc.spot, fc.here)
  {
  }

  /** The subnode loop stands at `cf` of the fixup node with the target node's items decoding to `u`. */
  ghost predicate NodesLeft(u: Tree, cf: Forest, strs: seq<byte>, delta: u32, names: set<seq<byte>>, goal: Tree,
      ok: bool) {
    && NamesOk(cf, strs) && ListFits(Decode(cf, strs)) && KidNames(Decode(cf, strs)) <= names
    && NodesBumped(u, Decode(cf, strs), delta) == goal && (NodesFixable(u, Decode(cf, strs)) <==> ok)
  }

  lemma {:induction false} NodesLeftNext(u: Tree, s: Spot, cf: Forest, strs: seq<byte>, delta: u32,
      names: set<seq<byte>>, goal: Tree, ok: bool)
    requires NodesLeft(u, cf, strs, delta, names, goal, ok)
    ensures match FirstNode(s, cf)
      case None => u == goal && ok
      case Some(c) => NodesLeft(u, c.here, strs, delta, names, goal, ok) && (c.here == cf || c.here < cf)
    decreases cf
  {
    hide Dec32, ChildBumped, Fixable, Plug;
    match cf
    case PropCons(o, v, p, r) => NodesLeftNext(u, AfterProp(s, o, v, p), r, strs, delta, names, goal, ok);
    case NopCons(r) => NodesLeftNext(u, AfterNop(s), r, strs, delta, names, goal, ok);
    case _ =>
  }

  lemma NodesLeftStep(u: Tree, cf: Forest, strs: seq<byte>, delta: u32, names: set<seq<byte>>, goal: Tree, ok: bool)
    requires NodesLeft(u, cf, strs, delta, names, goal, ok) && cf.NodeCons?
    ensures NamesOk(cf.kids, strs) && ListFits(Decode(cf.kids, strs)) && cf.name in names
    ensures match ChildOf(u, cf.name)
      case None => !ok
      case Some(k) =>
        if Fixable(k, Decode(cf.kids, strs)) then
          NodesLeft(SetChild(u, cf.name, Bumped(k, Decode(cf.kids, strs), delta)), cf.rest, strs, delta, names, goal,
            ok)
        else !ok
  {
    hide Dec32, Fixable, Bumped;
    ChildBumpedShape(u, cf.name, Decode(cf.kids, strs), delta);
    ShapeNodesFixable(u, ChildBumped(u, cf.name, Decode(cf.kids, strs), delta), Decode(cf.rest, strs));
  }

  /** A node below the target node, changed: the target node has changed accordingly. */
  lemma ChildRejoins(b0: seq<byte>, b1: seq<byte>, d: Dtb, s: Spot, f: Forest, node: int, kids1: Forest,
      name: seq<byte>, kids: Forest,
                     base0: Spot, base1: Spot, base: Spot, g: Forest)
    requires f.NodeCons? && Sound(b0) && Sound(b1) && StringsOf(b1) == StringsOf(b0) && Hdr(b1) == Hdr(b0)
    requires Like(f.kids, kids1) && Kept(base0, base1) && NamesOk(kids1, StringsOf(b0))
    requires At(b1, s, NodeCons(f.name, f.npad, kids1, f.rest), node)
    requires FindChild(Inside(s, f.name, f.npad, f.rest), kids1, name).Some?
    requires var tc := FindChild(Inside(s, f.name, f.npad, f.rest), kids1, name).value;
      exists at :: Working(b1, d, tc.spot, tc.here, at, kids, base1, base, g)
    ensures Working(b0, d, s, f, node, SetKidsRaw(kids1, name, kids), base0, base, g)
    ensures NamesOk(kids, StringsOf(b0))
    ensures Decode(SetKidsRaw(kids1, name, kids), StringsOf(b0))
      == SetChild(Decode(kids1, StringsOf(b0)), name, Decode(kids, StringsOf(b0)))
  {
    hide Hdr, Pre, Block, Enc, StructOf, StringsOf, NamesOk, Decode, Like, Plug, FindChild, SetKidsRaw;
    var inner := Inside(s, f.name, f.npad, f.rest);
    FindChildReplaces(inner, kids1, StringsOf(b0), name, kids);
    SetKidsLike(inner, kids1, name, kids);
    LikeTrans(f.kids, kids1, SetKidsRaw(kids1, name, kids));
    InsidePlug(s, NodeCons(f.name, f.npad, SetKidsRaw(kids1, name, kids), f.rest));
    StillAt(b1, d.buf[..], s, NodeCons(f.name, f.npad, kids1, f.rest),
      NodeCons(f.name, f.npad, SetKidsRaw(kids1, name, kids), f.rest), node);
  }

  /** The subnode loop of `overlay_update_local_node_references`. */
  method UpdateSubnodes(d: Dtb, node: nat, fixup: nat, delta: u32, ghost s: Spot, ghost f: Forest, ghost base0: Spot,
      ghost g: Forest, ghost i: Spot, ghost h: Forest)
    returns (err: int, ghost kids: Forest, ghost base: Spot)
    requires d.Valid() && d.tree == Plug(s, f) == Plug(base0, g) && f.NodeCons? && At(d.buf[..], s, f, node)
    requires base0.Inside? && AllValid(Pre(base0.up))
    requires Plug(i, h) == g && FixNode(d.buf[..], base0, i, h, fixup)
    requires NamesOk(h, StringsOf(d.buf[..])) && ListFits(Decode(h, StringsOf(d.buf[..])))
    requires KidsOutside(s, f, KidNames(Decode(h, StringsOf(d.buf[..]))), |Pre(base0)|, |Pre(base0)| + |Flat(g)|)
    modifies d, d.buf
    ensures d.Valid() && StringsOf(d.buf[..]) == StringsOf(old(d.buf[..])) && Hdr(d.buf[..]) == Hdr(old(d.buf[..]))
    ensures var strs := StringsOf(old(d.buf[..]));
      && err == (if NodesFixable(Items(s, f, strs), Decode(h, strs)) then 0 else -BADOVERLAY)
      && (err == 0 ==> Working(old(d.buf[..]), d, s, f, node, kids, base0, base, g)
                       && Decode(kids, strs) == NodesBumped(Items(s, f, strs), Decode(h, strs), delta))
    decreases h, 0
  {
    hide Hdr, Plug, Pre, Block, Enc, StructOf, StringsOf, NamesOk, Decode, Off, Flat, Lead, Like, Kept, FirstNode,
      FindChild, ChildOf, SetChild, SetKidsRaw, NodesBumped, NodesFixable, NodesLeft, Bumped, Fixable, ListFits,
        KidNames, Outside, RsvOf, Ordered, HeaderOk;
    ghost var b, strs := d.buf[..], StringsOf(d.buf[..]);
    ghost var inner := Inside(s, f.name, f.npad, f.rest);
    ghost var names, lo, hi := KidNames(Decode(h, strs)), |Pre(base0)|, |Pre(base0)| + |Flat(g)|;
    ghost var goal, ok := NodesBumped(Items(s, f, strs), Decode(h, strs), delta),
      NodesFixable(Items(s, f, strs), Decode(h, strs));
    ghost var n := Compose(base0, i);
    WorkingStart(d, s, f, node, base0, g);
    kids, base := f.kids, base0;
    ghost var cs, cf := i, h;
    ItemsDecode(s, f, strs);
    ComposeNode(base, i, h);
    var fixup_child := FirstSubnode(d.buf[..], fixup, n.up, NodeCons(n.name, n.npad, h, n.rest));
    NodesLeftStart(Items(s, f, strs), h, strs, delta);
    while fixup_child >= 0
      invariant Working(b, d, s, f, node, kids, base0, base, g) && Plug(cs, cf) == g
      invariant Located(d.buf[..], FirstNode(Compose(base, cs), cf), fixup_child)
      invariant NodesLeft(Decode(kids, strs), cf, strs, delta, names, goal, ok) && (cf == h || cf < h)
      decreases cf
    {
      ghost var u := NodeCons(f.name, f.npad, kids, f.rest);
      ghost var b1, kids1, base1 := d.buf[..], kids, base;
      ComposeNode(base, cs, cf);
      ghost var fc := FirstNode(cs, cf).value;
      ghost var full := Cursor(Compose(base, fc.spot), fc.here);
      NodesLeftNext(Decode(kids, strs), cs, cf, strs, delta, names, goal, ok);
      NodesLeftStep(Decode(kids, strs), fc.here, strs, delta, names, goal, ok);
      var name := GetName(d.buf[..], fixup_child, full.spot, full.here);
      var tree_child := SubnodeOffset(d.buf[..], node, name, s, u);
      FindChildReads(inner, kids, strs, name);
      if tree_child == -NOTFOUND {
        return -BADOVERLAY, kids, base;
      }
      if tree_child < 0 {
        assert false;
        return tree_child, kids, base;
      }
      ghost var tc := FindChild(inner, kids, name).value;
      KeptLength(base0, base);
      ChildOutside(s, f, kids, name, names, lo, hi, KidNames(Decode(fc.here.kids, strs)));
      ghost var j := Inside(fc.spot, fc.here.name, fc.here.npad, fc.here.rest);
      InsidePlug(fc.spot, fc.here);
      InsidePlug(s, u);
      ItemsDecode(tc.spot, tc.here, strs);
      OffsetsAreInts(d.buf[..], full.spot, full.here, fixup_child);
      ChildNode(d.buf[..], base, fc, fixup_child);
      err, kids, base := UpdateNodeReferences(d, tree_child, fixup_child, delta, tc.spot, tc.here, base, g, j,
        fc.here.kids);
      if err != 0 {
        return;
      }
      ChildRejoins(b, b1, d, s, f, node, kids1, name, kids, base0, base1, base, g);
      kids := SetKidsRaw(kids1, name, kids);
      StillInside(b1, d.buf[..], base1, base, g, fc.spot, fc.here, fixup_child);
      fixup_child := NextSubnode(d.buf[..], fixup_child, Compose(base, fc.spot), fc.here);
      cs, cf := AfterNode(fc.spot, fc.here.name, fc.here.npad, fc.here.kids), fc.here.rest;
      AfterNodeFacts(base, fc);
    }
    ComposeNode(base, cs, cf);
    NodesLeftNext(Decode(kids, strs), cs, cf, strs, delta, names, goal, ok);
    err := 0;
  }

  lemma NodesLeftStart(u: Tree, cf: Forest, strs: seq<byte>, delta: u32)
    requires NamesOk(cf, strs) && ListFits(Decode(cf, strs))
    ensures NodesLeft(u, cf, strs, delta, KidNames(Decode(cf, strs)), NodesBumped(u, Decode(cf, strs), delta),
      NodesFixable(u, Decode(cf, strs)))
  {
  }

  /** The subnode that answers to a listed name lies outside the region with everything below it. */
  lemma ChildOutside(s: Spot, f: Forest, kids: Forest, name: seq<byte>, names: set<seq<byte>>, lo: nat, hi: nat,
      more: set<seq<byte>>)
    requires f.NodeCons? && KidsOutside(s, f, names, lo, hi) && Like(f.kids, kids) && name in names
    requires FindChild(Inside(s, f.name, f.npad, f.rest), kids, name).Some?
    ensures var tc := FindChild(Inside(s, f.name, f.npad, f.rest), kids, name).value;
      PropsOutside(tc.spot, tc.here, lo, hi) && KidsOutside(tc.spot, tc.here, more, lo, hi)
  {
    hide Flat, FindChild, ChildIndex, Lead, Like;
    var inner := Inside(s, f.name, f.npad, f.rest);
    LikeFacts(f.kids, kids, name);
    FindChildIndex(inner, kids, name);
    InsideLength(s, f);
    var tc := FindChild(inner, kids, name).value;
    NodeOutside(tc.spot, tc.here, more, lo, hi);
  }

  lemma ChildNode(b: seq<byte>, base: Spot, fc: Cursor, offset: int)
    requires fc.here.NodeCons? && At(b, Compose(base, fc.spot), fc.here, offset)
    ensures FixNode(b, base, Inside(fc.spot, fc.here.name, fc.here.npad, fc.here.rest), fc.here.kids, offset)
  {
    hide Hdr, Plug, Pre, Block, Enc;
    SameNode(fc.here);
  }

  lemma AfterNodeFacts(base: Spot, fc: Cursor)
    requires fc.here.NodeCons?
    ensures var u := AfterNode(fc.spot, fc.here.name, fc.here.npad, fc.here.kids);
      && Compose(base, u) == AfterNode(Compose(base, fc.spot), fc.here.name, fc.here.npad, fc.here.kids)
      && Plug(u, fc.here.rest) == Plug(fc.spot, fc.here)
  {
  }

  /**
   `overlay_update_local_node_references`: every cell that the fixup node and the nodes below it list is
   increased by `delta`, in the properties of the same names below the target node. The fixup node is
   read from the same blob that is being written; what is written must lie outside it.
   */
  method UpdateNodeReferences(d: Dtb, node: nat, fixup: nat, delta: u32, ghost s: Spot, ghost f: Forest,
      ghost base0: Spot, ghost g: Forest, ghost i: Spot, ghost h: Forest)
    returns (err: int, ghost kids: Forest, ghost base: Spot)
    requires d.Valid() && d.tree == Plug(s, f) == Plug(base0, g) && f.NodeCons? && At(d.buf[..], s, f, node)
    requires base0.Inside? && AllValid(Pre(base0.up))
    requires Plug(i, h) == g && FixNode(d.buf[..], base0, i, h, fixup) && (i == Top || i.Inside?)
    requires NamesOk(h, StringsOf(d.buf[..])) && ListFits(Decode(h, StringsOf(d.buf[..])))
    requires PropsOutside(s, f, |Pre(base0)|, |Pre(base0)| + |Flat(g)|)
    requires KidsOutside(s, f, KidNames(Decode(h, StringsOf(d.buf[..]))), |Pre(base0)|, |Pre(base0)| + |Flat(g)|)
    modifies d, d.buf
    ensures d.Valid() && StringsOf(d.buf[..]) == StringsOf(old(d.buf[..])) && Hdr(d.buf[..]) == Hdr(old(d.buf[..]))
    ensures var strs := StringsOf(old(d.buf[..]));
      && err == (if Fixable(Items(s, f, strs), Decode(h, strs)) then 0 else -BADOVERLAY)
      && (err == 0 ==> Working(old(d.buf[..]), d, s, f, node, kids, base0, base, g)
                       && Decode(kids, strs) == Bumped(Items(s, f, strs), Decode(h, strs), delta))
    decreases h, 1
  {
    hide Hdr, Plug, Pre, Block, Enc, StructOf, StringsOf, NamesOk, Decode, Off, Flat, Lead, Like, Kept, NodesBumped,
      NodesFixable, PropsFit, PropsBumped, ListFits, KidNames, Outside;
    ghost var b, strs := d.buf[..], StringsOf(d.buf[..]);
    ghost var t, fix := Items(s, f, strs), Decode(h, strs);
    ghost var kids1, base1;
    err, kids1, base1 := UpdateProps(d, node, fixup, delta, s, f, base0, g, i, h);
    PropsBumpedShape(t, fix, delta);
    ShapeNodesFixable(t, PropsBumped(t, fix, delta), fix);
    if err != 0 {
      return err, kids1, base1;
    }
    ghost var u, b1 := NodeCons(f.name, f.npad, kids1, f.rest), d.buf[..];
    LikeOutside(s, f, kids1, KidNames(fix), |Pre(base0)|, |Pre(base0)| + |Flat(g)|);
    KeptLength(base0, base1);
    FixNodeStill(b, b1, base0, base1, g, i, h, fixup);
    ItemsDecode(s, u, strs);
    err, kids, base := UpdateSubnodes(d, node, fixup, delta, s, u, base1, g, i, h);
    if err == 0 {
      WorkingOn(b, b1, d, s, f, node, kids1, kids, base0, base1, base, g);
    }
  }

  // ---------------------------------------------------------------- the whole overlay

  /** No subnode is the first to answer to both names. */
  predicate NotSameKid(t: Tree, a: seq<byte>, b: seq<byte>) {
    match t
    case TNil => true
    case TProp(_, _, r) => NotSameKid(r, a, b)
    case TNode(n, _, r) =>
      if NameMatch(n, a) then !NameMatch(n, b) else NameMatch(n, b) || NotSameKid(r, a, b)
  }

  lemma {:induction false} TwoKids(f: Forest, strs: seq<byte>, a: seq<byte>, b: seq<byte>)
    requires NamesOk(f, strs) && NotSameKid(Decode(f, strs), a, b)
    ensures ChildIndex(f, a).Some? && ChildIndex(f, b).Some? ==>
      var x, y := ChildIndex(f, a).value, ChildIndex(f, b).value;
      x.0 + x.1 + 2 <= y.0 || y.0 + y.1 + 2 <= x.0
  {
    hide NameMatch;
    match f
    case Nil =>
    case PropCons(_, _, _, r) => TwoKids(r, strs, a, b);
    case NopCons(r) => TwoKids(r, strs, a, b);
    case NodeCons(n, _, k, r) =>
      if !NameMatch(n, a) && !NameMatch(n, b) {
        TwoKids(r, strs, a, b);
      }
  }

  /** A path of one name is a lookup among the root's subnodes. */
  lemma OneName(f: Forest, name: seq<byte>)
    requires f.NodeCons? && name != [] && SLASH !in name
    ensures Resolve(Cursor(Top, f), [SLASH] + name) == FindChild(Inside(Top, f.name, f.npad, f.rest), f.kids, name)
  {
    hide FindChild, ComponentLen, Plug;
    assert ([SLASH] + name)[1..] == name;
    ResolveSlash(Cursor(Top, f), [SLASH] + name);
    assert name + [] == name;
    ComponentOf(name, []);
    assert name[..|name|] == name && name[|name|..] == [];
    ResolveComponent(Cursor(Top, f), name);
  }

  lemma FixupsName()
    ensures LOCAL_FIXUPS != [] && SLASH !in LOCAL_FIXUPS
  {
  }

  /** The region of the fixups node, and the root's items outside it. */
  lemma FixupsRegion(f: Forest, strs: seq<byte>, names: set<seq<byte>>)
    requires f.NodeCons? && NamesOk(f.kids, strs)
    requires FindChild(Inside(Top, f.name, f.npad, f.rest), f.kids, LOCAL_FIXUPS).Some?
    requires forall n :: n in names ==> NotSameKid(Decode(f.kids, strs), n, LOCAL_FIXUPS)
    ensures var c := FindChild(Inside(Top, f.name, f.npad, f.rest), f.kids, LOCAL_FIXUPS).value;
      var lo := |Pre(c.spot)| + 1;
      PropsOutside(Top, f, lo, lo + |Flat(c.here.kids)|) && KidsOutside(Top, f, names, lo, lo + |Flat(c.here.kids)|)
  {
    hide FindChild, ChildIndex, Lead, Flat, Decode;
    FindChildIndex(Inside(Top, f.name, f.npad, f.rest), f.kids, LOCAL_FIXUPS);
    InsideLength(Top, f);
    forall n | n in names && ChildIndex(f.kids, n).Some?
      ensures var x, y := ChildIndex(f.kids, n).value, ChildIndex(f.kids, LOCAL_FIXUPS).value;
        x.0 + x.1 + 2 <= y.0 || y.0 + y.1 + 2 <= x.0
    {
      TwoKids(f.kids, strs, n, LOCAL_FIXUPS);
    }
  }

  /**
   `overlay_update_local_references`: the update that the `__local_fixups__` node asks for. The list must
   not ask for an update of the `__local_fixups__` node itself.
   */
  method UpdateLocalReferences(d: Dtb, delta: u32, ghost f: Forest) returns (err: int, ghost kids: Forest)
    requires d.Valid() && d.tree == f && f.NodeCons? && NamesOk(f.kids, StringsOf(d.buf[..]))
    requires var t := Decode(f.kids, StringsOf(d.buf[..])); ChildOf(t, LOCAL_FIXUPS).Some? ==>
      ListFits(ChildOf(t, LOCAL_FIXUPS).value) &&
      forall n :: n in KidNames(ChildOf(t, LOCAL_FIXUPS).value) ==> NotSameKid(t, n, LOCAL_FIXUPS)
    modifies d, d.buf
    ensures d.Valid() && StringsOf(d.buf[..]) == StringsOf(old(d.buf[..])) && Hdr(d.buf[..]) == Hdr(old(d.buf[..]))
    ensures var strs := StringsOf(old(d.buf[..])); var t := Decode(f.kids, strs);
      match ChildOf(t, LOCAL_FIXUPS)
      case None => err == 0 && d.buf[..] == old(d.buf[..]) && d.tree == f && kids == f.kids
      case Some(fix) =>
        && err == (if Fixable(t, fix) then 0 else -BADOVERLAY)
        && (err == 0 ==> d.tree == NodeCons(f.name, f.npad, kids, f.rest)
                         && NamesOk(kids, strs) && Decode(kids, strs) == Bumped(t, fix, delta))
  {
    hide Hdr, Pre, Block, Enc, StructOf, StringsOf, NamesOk, Decode, Off, FindChild, Resolve, Flat, KidNames,
      ListFits, NotSameKid, Fixable, Bumped, Plug, ChildOf, Like, Outside;
    ghost var strs := StringsOf(d.buf[..]);
    ghost var inner := Inside(Top, f.name, f.npad, f.rest);
    kids := f.kids;
    FixupsName();
    OneName(f, LOCAL_FIXUPS);
    FindChildReads(inner, f.kids, strs, LOCAL_FIXUPS);
    CarriesTree(d.buf[..], f);
    var fixups := PathOffset(d.buf[..], [SLASH] + LOCAL_FIXUPS, f);
    if fixups < 0 {
      if fixups == -NOTFOUND {
        return 0, kids;
      }
      assert false;
      return fixups, kids;
    }
    ghost var c := FindChild(inner, f.kids, LOCAL_FIXUPS).value;
    ghost var base := Inside(c.spot, c.here.name, c.here.npad, c.here.rest);
    ghost var fix := Decode(c.here.kids, strs);
    FixupsRegion(f, strs, KidNames(fix));
    InsideLength(c.spot, c.here);
    InsidePlug(c.spot, c.here);
    TopIsAll(f);
    InsidePlug(Top, f);
    RootAt(d.buf[..], f);
    ItemsDecode(Top, f, strs);
    SameNode(c.here);
    ComposeTop(base);
    ghost var base2;
    err, kids, base2 := UpdateNodeReferences(d, 0, fixups, delta, Top, f, base, c.here.kids, Top, c.here.kids);
    TopIsAll(NodeCons(f.name, f.npad, kids, f.rest));
  }

  lemma CarriesTree(b: seq<byte>, f: Forest)
    requires Editable(b, f)
    ensures Carries(b, f)
  {
    hide Hdr;
  }

  lemma ComposeTop(base: Spot)
    ensures Compose(base, Top) == base && forall h :: Plug(Top, h) == h
  {
  }
}
