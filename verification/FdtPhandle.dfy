/** fdt/fdt_ro.c and fdt/fdt_overlay.c: phandle lookup and the renumbering of an overlay's phandles. */
module FdtPhandle {
  import opened Bytes
  import opened Tokens
  import opened Forests
  import opened Trees
  import opened Walks
  import opened Blobs
  import opened Layouts
  import opened Edits
  import opened Paths
  import opened Visits
  import opened Phandles
  import opened Fdt
  import opened FdtRo
  import opened FdtRw
  import opened FdtWip

  /** `fdt_getprop`: the value of a node's property, or NOTFOUND in place of its length. */
  method Getprop(b: seq<byte>, node: int, name: seq<byte>, ghost s: Spot, ghost f: Forest)
    returns (val: Option<seq<byte>>, len: int)
    requires f.NodeCons? && At(b, s, f, node) && NamesOk(f.kids, StringsOf(b))
    ensures val == PropOf(Decode(f.kids, StringsOf(b)), name)
    ensures len == if val.Some? then |val.value| else -NOTFOUND
  {
    hide Hdr, Plug, Pre, Block, Enc, StructOf, StringsOf, NamesOk, FindProp, Decode, Off;
    var poff;
    poff, len := GetProperty(b, node, name, s, f);
    FindPropReads(Inside(s, f.name, f.npad, f.rest), f.kids, StringsOf(b), name);
    if poff < 0 {
      return None, len;
    }
    ghost var c := FindProp(Inside(s, f.name, f.npad, f.rest), f.kids, StringsOf(b), name).value;
    PropWords(b, c.spot, c.here, poff);
    var at := Hdr(b).offStruct + poff + 12;
    val := Some(b[at..at + len]);
  }

  /** `fdt_get_phandle`. */
  method GetPhandle(b: seq<byte>, node: int, ghost s: Spot, ghost f: Forest) returns (r: u32)
    requires f.NodeCons? && At(b, s, f, node) && NamesOk(f.kids, StringsOf(b))
    ensures r == PhandleOf(Decode(f.kids, StringsOf(b)))
  {
    hide Hdr, Plug, Pre, Block, Enc, StructOf, StringsOf, NamesOk, Decode, Off, Dec32, PropOf;
    var php, len := Getprop(b, node, PHANDLE, s, f);
    if php.None? || len != 4 {
      php, len := Getprop(b, node, LINUX_PHANDLE, s, f);
      if php.None? || len != 4 {
        return 0;
      }
    }
    return Dec32(php.value, 0);
  }

  // ---------------------------------------------------------------- scans over all nodes

  /** The nodes still to be visited: in the tree, with resolvable names. */
  ghost predicate Ahead(b: seq<byte>, f: Forest, cs: seq<Cursor>)
    requires Sound(b)
  {
    forall c :: c in cs ==> c.here.NodeCons? && Plug(c.spot, c.here) == f && NamesOk(c.here.kids, StringsOf(b))
  }

  lemma AllAhead(b: seq<byte>, f: Forest)
    requires Sound(b) && NamesOk(f, StringsOf(b))
    ensures Ahead(b, f, Preorder(Top, f))
  {
    hide Hdr, StringsOf, NamesOk, Plug;
    forall c | c in Preorder(Top, f)
      ensures c.here.NodeCons? && Plug(c.spot, c.here) == f && NamesOk(c.here.kids, StringsOf(b)) {
      TopIsAll(f);
      ItemsDecode(c.spot, c.here, StringsOf(b));
    }
  }

  /** The largest phandle among the given nodes. */
  ghost function MaxOver(cs: seq<Cursor>, strs: seq<byte>): u32
    requires forall c :: c in cs ==> c.here.NodeCons? && NamesOk(c.here.kids, strs)
  {
    if cs == [] then 0 else Max(PhandleOf(Decode(cs[0].here.kids, strs)), MaxOver(cs[1..], strs))
  }

  lemma {:induction false} MaxOverConcat(a: seq<Cursor>, b: seq<Cursor>, strs: seq<byte>)
    requires forall c :: c in a || c in b ==> c.here.NodeCons? && NamesOk(c.here.kids, strs)
    ensures MaxOver(a + b, strs) == Max(MaxOver(a, strs), MaxOver(b, strs))
  {
    hide PhandleOf;
    if a == [] {
      assert a + b == b;
    } else {
      assert (a + b)[1..] == a[1..] + b;
      MaxOverConcat(a[1..], b, strs);
    }
  }

  /** Over all nodes of a forest that is the maximum of the decoded tree. */
  lemma {:induction false} MaxOverAll(s: Spot, f: Forest, strs: seq<byte>)
    requires NamesOk(f, strs)
    ensures forall c :: c in Preorder(s, f) ==> c.here.NodeCons? && NamesOk(c.here.kids, strs)
    ensures MaxOver(Preorder(s, f), strs) == MaxPhandle(Decode(f, strs))
    decreases f
  {
    hide PhandleOf, Plug;
    match f
    case Nil =>
    case PropCons(o, v, p, r) => MaxOverAll(AfterProp(s, o, v, p), r, strs);
    case NopCons(r) => MaxOverAll(AfterNop(s), r, strs);
    case NodeCons(n, p, k, r) =>
      MaxOverAll(Inside(s, n, p, r), k, strs);
      MaxOverAll(AfterNode(s, n, p, k), r, strs);
      var one := [Cursor(s, f)];
      assert MaxOver(one, strs) == PhandleOf(Decode(k, strs)) by { assert one[1..] == []; }
      MaxOverConcat(one, Preorder(Inside(s, n, p, r), k), strs);
      MaxOverConcat(one + Preorder(Inside(s, n, p, r), k), Preorder(AfterNode(s, n, p, k), r), strs);
  }

  /** `fdt_find_max_phandle`: the largest phandle in the tree. */
  method FindMaxPhandle(b: seq<byte>, ghost f: Forest) returns (err: int, max: u32)
    requires Carries(b, f) && NamesOk(f, StringsOf(b))
    ensures err == 0 && max == MaxPhandle(Decode(f, StringsOf(b)))
  {
    hide Hdr, Plug, Pre, Block, Enc, StructOf, StringsOf, NamesOk, Decode, Off, PhandleOf, Scan, Preorder, MaxPhandle;
    max := 0;
    var offset, depth := -1, 0;
    ghost var cs, here := Preorder(Top, f), Cursor(Top, f);
    ghost var strs := StringsOf(b);
    AllAhead(b, f);
    MaxOverAll(Top, f, strs);
    VisitsAll(f, 0);
    TopIsAll(f);
    while true
      invariant Ahead(b, f, cs) && Max(max, MaxOver(cs, strs)) == MaxPhandle(Decode(f, strs))
      invariant if offset < 0 then offset == -1 && depth == 0 && here == Cursor(Top, f)
        && Visiting(Scan(Top, f, 0, false), cs)
        else here.here.NodeCons? && At(b, here.spot, here.here, offset)
             && Visiting(Scan(Next(here.spot, here.here).spot, Next(here.spot, here.here).here, depth, false), cs)
      decreases |cs|
    {
      ghost var w;
      if offset >= 0 {
        OffsetsAreInts(b, here.spot, here.here, offset);
      }
      offset, depth, w := NextNodeAt(b, offset, depth, false, here.spot, here.here);
      if offset < 0 {
        if offset == -NOTFOUND {
          break;
        }
        assert false;
        return offset, max;
      }
      assert cs[0] in cs;
      here := w.at;
      var value := GetPhandle(b, offset, here.spot, here.here);
      if value > max {
        max := value;
      }
      cs := cs[1..];
    }
    err := 0;
  }

  /**
   `fdt_generate_phandle`: it succeeds unless the largest phandle is the largest valid one. The result is
   a valid unused phandle exactly when no node carries the reserved value 0xffffffff; otherwise it is 0.
   */
  method GeneratePhandle(b: seq<byte>, ghost f: Forest) returns (err: int, phandle: u32)
    requires Carries(b, f) && NamesOk(f, StringsOf(b))
    ensures var t := Decode(f, StringsOf(b));
      && err == (if MaxPhandle(t) == MAX_PHANDLE then -NOPHANDLES else 0)
      && (err == 0 ==> (1 <= phandle <= MAX_PHANDLE && phandle !in PhandleSet(t) <==> 0xffff_ffff !in PhandleSet(t)))
      && (err == 0 && 0xffff_ffff in PhandleSet(t) ==> phandle == 0)
  {
    hide Hdr, Plug, Block, Enc, StructOf, StringsOf, NamesOk, Decode, PhandleSet, MaxPhandle;
    ghost var t := Decode(f, StringsOf(b));
    MaxIsLargest(t);
    var max;
    err, max := FindMaxPhandle(b, f);
    phandle := 0;
    if err < 0 {
      return;
    }
    if max == MAX_PHANDLE {
      return -NOPHANDLES, 0;
    }
    phandle := Wrap32(max as int + 1);
  }

  /** The first node with that phandle. */
  ghost function FirstWith(cs: seq<Cursor>, strs: seq<byte>, phandle: u32): (r: Option<Cursor>)
    requires forall c :: c in cs ==> c.here.NodeCons? && NamesOk(c.here.kids, strs)
    ensures r.Some? ==> r.value in cs && PhandleOf(Decode(r.value.here.kids, strs)) == phandle
    ensures r.Some? ==>
      exists i ::
        && 0 <= i < |cs| && cs[i] == r.value
        && forall j :: 0 <= j < i ==> PhandleOf(Decode(cs[j].here.kids, strs)) != phandle
    ensures r.None? ==> forall c :: c in cs ==> PhandleOf(Decode(c.here.kids, strs)) != phandle
  {
    if cs == [] then None
    else if PhandleOf(Decode(cs[0].here.kids, strs)) == phandle then Some(cs[0])
    else FirstWith(cs[1..], strs, phandle)
  }

  /** `fdt_node_offset_by_phandle`: the first node in document order that has the phandle. */
  method NodeOffsetByPhandle(b: seq<byte>, phandle: u32, ghost f: Forest) returns (offset: int)
    requires Carries(b, f) && NamesOk(f, StringsOf(b))
    ensures Ahead(b, f, Preorder(Top, f))
    ensures if phandle == 0 || phandle == 0xffff_ffff then offset == -BADPHANDLE
      else Located(b, FirstWith(Preorder(Top, f), StringsOf(b), phandle), offset)
  {
    hide Hdr, Plug, Pre, Block, Enc, StructOf, StringsOf, NamesOk, Decode, Off, PhandleOf, Scan, Preorder;
    AllAhead(b, f);
    if phandle == 0 || phandle == 0xffff_ffff {
      return -BADPHANDLE;
    }
    VisitsAll(f, 0);
    TopIsAll(f);
    ghost var cs := Preorder(Top, f);
    var depth; ghost var w;
    offset, depth, w := NextNodeAt(b, -1, 0, false, Top, f);
    while offset >= 0
      invariant Ahead(b, f, cs) && Visiting(w, cs)
      invariant FirstWith(cs, StringsOf(b), phandle) == FirstWith(Preorder(Top, f), StringsOf(b), phandle)
      invariant if w.Stop? then offset == -NOTFOUND else At(b, w.at.spot, w.at.here, offset) && offset >= 0
      invariant depth == w.depth
      decreases |cs|
    {
      ghost var here := w.at;
      assert cs[0] in cs;
      var value := GetPhandle(b, offset, here.spot, here.here);
      if value == phandle {
        return;
      }
      OffsetsAreInts(b, here.spot, here.here, offset);
      offset, depth, w := NextNodeAt(b, offset, depth, false, here.spot, here.here);
      if offset >= 0 {
        OffsetsAreInts(b, w.at.spot, w.at.here, offset);
      }
      cs := cs[1..];
    }
  }

  // ---------------------------------------------------------------- renumbering in place

  /** Replacing a value leaves the number of tokens. */
  lemma {:induction false} ReplaceRawFlat(f: Forest, strs: seq<byte>, name: seq<byte>, val: seq<byte>, pad: seq<byte>)
    ensures |Flat(ReplaceRaw(f, strs, name, val, pad))| == |Flat(f)|
  {
    match f
    case PropCons(_, _, _, r) => ReplaceRawFlat(r, strs, name, val, pad);
    case NopCons(r) => ReplaceRawFlat(r, strs, name, val, pad);
    case _ =>
  }

  /** The node under the cursor with new raw items, the rest of the blob as before. */
  ghost predicate Reworked(b0: seq<byte>, d: Dtb, s: Spot, f: Forest, node: int, kids: Forest, t: Tree)
    requires f.NodeCons? && Sound(b0)
    reads d, d.buf
  {
    var g := NodeCons(f.name, f.npad, kids, f.rest);
    && d.Valid() && d.tree == Plug(s, g) && At(d.buf[..], s, g, node)
    && StringsOf(d.buf[..]) == StringsOf(b0) && Hdr(d.buf[..]) == Hdr(b0)
    && NamesOk(kids, StringsOf(b0)) && Decode(kids, StringsOf(b0)) == t && |Flat(kids)| == |Flat(f.kids)|
  }

  /** `overlay_phandle_add_offset`. */
  method AddOffset(d: Dtb, node: nat, name: seq<byte>, delta: u32, ghost s: Spot, ghost f: Forest)
    returns (err: int, ghost kids: Forest)
    requires d.Valid() && d.tree == Plug(s, f) && f.NodeCons? && At(d.buf[..], s, f, node)
    modifies d, d.buf
    ensures var t := Items(s, f, StringsOf(old(d.buf[..])));
      && err == AddError(PropOf(t, name), delta)
      && Reworked(old(d.buf[..]), d, s, f, node, kids, if err == 0 then Added(t, name, delta) else t)
  {
    hide Hdr, Plug, Pre, Block, Enc, StructOf, StringsOf, NamesOk, Decode, Off, Dec32, Enc32, ReplaceRaw, FindProp;
    ghost var b, strs := d.buf[..], StringsOf(d.buf[..]);
    ghost var t := Items(s, f, strs);
    kids := f.kids;
    ItemsDecode(s, f, strs);
    SameNode(f);
    var val, len := Getprop(d.buf[..], node, name, s, f);
    if val.None? {
      return len, kids;
    }
    if len != 4 {
      return -BADPHANDLE, kids;
    }
    var adj_val := Dec32(val.value, 0);
    if Wrap32(adj_val + delta) < adj_val {
      return -NOPHANDLES, kids;
    }
    adj_val := Wrap32(adj_val + delta);
    if adj_val == 0xffff_ffff {
      return -NOPHANDLES, kids;
    }
    err, kids := SetpropInplace(d, node, name, Enc32(adj_val), s, f);
    StillAt(b, d.buf[..], s, f, NodeCons(f.name, f.npad, kids, f.rest), node);
    ReplaceRawFlat(f.kids, strs, name, Enc32(adj_val),
      FindProp(Inside(s, f.name, f.npad, f.rest), f.kids, strs, name).value.here.pad);
  }

  lemma SameNode(f: Forest)
    requires f.NodeCons?
    ensures NodeCons(f.name, f.npad, f.kids, f.rest) == f
  {
  }

  // The subnode loop: where it stands among the items of its node.

  /** The innermost enclosing node's spot. */
  function Base(s: Spot): Spot {
    match s
    case AfterProp(u, _, _, _) => Base(u)
    case AfterNop(u) => Base(u)
    case AfterNode(u, _, _, _) => Base(u)
    case _ => s
  }

  /** The decoded items of that node when `t` follows the items before the spot. */
  function Above(s: Spot, strs: seq<byte>, t: Tree): Tree
    requires NamesOkAround(s, strs)
  {
    match s
    case AfterProp(u, o, v, _) => Above(u, strs, TProp(StrAt(strs, o).value, v, t))
    case AfterNop(u) => Above(u, strs, t)
    case AfterNode(u, n, _, k) => Above(u, strs, TNode(n, Decode(k, strs), t))
    case _ => t
  }

  lemma {:induction false} AboveIsItems(s: Spot, f: Forest, strs: seq<byte>)
    requires NamesOk(Plug(s, f), strs)
    ensures var c := Rewind(s, f);
      && c.spot == Base(s) && Plug(c.spot, c.here) == Plug(s, f) && NamesOkAround(s, strs) && NamesOk(f, strs)
      && NamesOk(c.here, strs) && Decode(c.here, strs) == Above(s, strs, Decode(f, strs))
      && |Pre(Base(s))| + |Flat(c.here)| == |Pre(s)| + |Flat(f)|
  {
    DecodePlug(s, f, strs);
    match s
    case AfterProp(u, o, v, p) => AboveIsItems(u, PropCons(o, v, p, f), strs);
    case AfterNop(u) => AboveIsItems(u, NopCons(f), strs);
    case AfterNode(u, n, p, k) => AboveIsItems(u, NodeCons(n, p, k, f), strs);
    case _ =>
  }

  /** The loop stands at `(s, f)` with the items from there on still to be renumbered. */
  ghost predicate Halfway(s: Spot, f: Forest, strs: seq<byte>, delta: u32, goal: Tree, goalErr: int) {
    && NamesOkAround(s, strs) && NamesOk(f, strs)
    && Above(s, strs, BelowRenumbered(Decode(f, strs), delta)) == goal && BelowError(Decode(f, strs), delta) == goalErr
  }

  /** The next subnode is the next one to be renumbered. */
  lemma {:induction false} HalfwayNext(s: Spot, f: Forest, strs: seq<byte>, delta: u32, goal: Tree, goalErr: int)
    requires Halfway(s, f, strs, delta, goal, goalErr)
    ensures match FirstNode(s, f)
      case None => goalErr == 0 && goal == Above(s, strs, Decode(f, strs))
      case Some(c) =>
        && Halfway(c.spot, c.here, strs, delta, goal, goalErr) && Base(c.spot) == Base(s)
        && |Flat(c.here)| <= |Flat(f)| && |Pre(c.spot)| + |Flat(c.here)| == |Pre(s)| + |Flat(f)|
    decreases f
  {
    hide Renumbered, RenumberError, Plug;
    match f
    case PropCons(o, v, p, r) => HalfwayNext(AfterProp(s, o, v, p), r, strs, delta, goal, goalErr);
    case NopCons(r) => HalfwayNext(AfterNop(s), r, strs, delta, goal, goalErr);
    case _ =>
  }

  /** After a renumbered subnode. */
  lemma HalfwayPast(s: Spot, f: Forest, kids: Forest, strs: seq<byte>, delta: u32, goal: Tree, goalErr: int)
    requires Halfway(s, f, strs, delta, goal, goalErr) && f.NodeCons?
    requires NamesOk(f.kids, strs) && NamesOk(kids, strs) && RenumberError(Decode(f.kids, strs), delta) == 0
    requires Decode(kids, strs) == Renumbered(Decode(f.kids, strs), delta) && |Flat(kids)| == |Flat(f.kids)|
    ensures var u := AfterNode(s, f.name, f.npad, kids);
      && Halfway(u, f.rest, strs, delta, goal, goalErr) && Base(u) == Base(s)
      && |Flat(f.rest)| < |Flat(f)| && |Pre(u)| + |Flat(f.rest)| == |Pre(s)| + |Flat(f)|
      && Plug(u, f.rest) == Plug(s, NodeCons(f.name, f.npad, kids, f.rest))
  {
    hide Renumbered, RenumberError;
  }

  lemma HalfwayFails(s: Spot, f: Forest, strs: seq<byte>, delta: u32, goal: Tree, goalErr: int)
    requires Halfway(s, f, strs, delta, goal, goalErr) && f.NodeCons?
    ensures NamesOk(f.kids, strs) && |Flat(f.kids)| < |Flat(f)|
    ensures RenumberError(Decode(f.kids, strs), delta) != 0 ==> goalErr == RenumberError(Decode(f.kids, strs), delta)
  {
    hide Renumbered, RenumberError;
  }

  lemma HalfwayStart(s: Spot, f: Forest, strs: seq<byte>, delta: u32)
    requires f.NodeCons? && NamesOk(Plug(s, f), strs)
    ensures NamesOk(f.kids, strs)
    ensures var inner, t := Inside(s, f.name, f.npad, f.rest), Decode(f.kids, strs);
      Halfway(inner, f.kids, strs, delta, BelowRenumbered(t, delta), BelowError(t, delta)) && Base(inner) == inner
  {
    hide Plug, BelowRenumbered, BelowError;
    DecodePlug(s, f, strs);
  }

  /** The loop over the subnodes in `overlay_adjust_node_phandles`. */
  method AdjustSubnodes(d: Dtb, node: nat, delta: u32, ghost s: Spot, ghost f: Forest) returns (err: int,
      ghost kids: Forest)
    requires d.Valid() && d.tree == Plug(s, f) && f.NodeCons? && At(d.buf[..], s, f, node)
    modifies d, d.buf
    ensures d.Valid() && StringsOf(d.buf[..]) == StringsOf(old(d.buf[..])) && Hdr(d.buf[..]) == Hdr(old(d.buf[..]))
    ensures var t := Items(s, f, StringsOf(old(d.buf[..])));
      && err == BelowError(t, delta)
      && (err == 0 ==> Reworked(old(d.buf[..]), d, s, f, node, kids, BelowRenumbered(t, delta)))
    decreases |Flat(f.kids)|, 0
  {
    hide Hdr, Plug, Pre, Block, Enc, StructOf, StringsOf, NamesOk, Decode, Off, Renumbered, RenumberError,
      BelowRenumbered, BelowError, Above, Base, FirstNode, Halfway, Flat, NamesOkAround;
    ghost var b, strs := d.buf[..], StringsOf(d.buf[..]);
    ghost var inner := Inside(s, f.name, f.npad, f.rest);
    ItemsDecode(s, f, strs);
    InsidePlug(s, f);
    ghost var goal, goalErr := BelowRenumbered(Items(s, f, strs), delta), BelowError(Items(s, f, strs), delta);
    ghost var cs, cf := inner, f.kids;
    HalfwayStart(s, f, strs, delta);
    kids := f.kids;
    var child := FirstSubnode(d.buf[..], node, s, f);
    while child >= 0
      invariant d.Valid() && StringsOf(d.buf[..]) == strs && Hdr(d.buf[..]) == Hdr(b) && d.tree == Plug(cs, cf)
      invariant Located(d.buf[..], FirstNode(cs, cf), child) && Base(cs) == inner && |Flat(cf)| <= |Flat(f.kids)|
      invariant Halfway(cs, cf, strs, delta, goal, goalErr)
      invariant |Pre(cs)| + |Flat(cf)| == |Pre(inner)| + |Flat(f.kids)|
      decreases |Flat(cf)|
    {
      HalfwayNext(cs, cf, strs, delta, goal, goalErr);
      ghost var c := FirstNode(cs, cf).value;
      HalfwayFails(c.spot, c.here, strs, delta, goal, goalErr);
      ItemsDecode(c.spot, c.here, strs);
      err, kids := AdjustNodePhandles(d, child, delta, c.spot, c.here);
      if err != 0 {
        return;
      }
      HalfwayPast(c.spot, c.here, kids, strs, delta, goal, goalErr);
      ghost var g := NodeCons(c.here.name, c.here.npad, kids, c.here.rest);
      child := NextSubnode(d.buf[..], child, c.spot, g);
      cs, cf := AfterNode(c.spot, c.here.name, c.here.npad, kids), c.here.rest;
    }
    HalfwayNext(cs, cf, strs, delta, goal, goalErr);
    AboveIsItems(cs, cf, strs);
    kids := Rewind(cs, cf).here;
    InsidePlug(s, NodeCons(f.name, f.npad, kids, f.rest));
    StillAt(b, d.buf[..], s, f, NodeCons(f.name, f.npad, kids, f.rest), node);
    err := 0;
  }

  /** `overlay_adjust_node_phandles`. */
  method AdjustNodePhandles(d: Dtb, node: nat, delta: u32, ghost s: Spot, ghost f: Forest) returns (err: int,
      ghost kids: Forest)
    requires d.Valid() && d.tree == Plug(s, f) && f.NodeCons? && At(d.buf[..], s, f, node)
    modifies d, d.buf
    ensures d.Valid() && StringsOf(d.buf[..]) == StringsOf(old(d.buf[..])) && Hdr(d.buf[..]) == Hdr(old(d.buf[..]))
    ensures var t := Items(s, f, StringsOf(old(d.buf[..])));
      && err == RenumberError(t, delta)
      && (err == 0 ==> Reworked(old(d.buf[..]), d, s, f, node, kids, Renumbered(t, delta)))
    decreases |Flat(f.kids)|, 1
  {
    hide Hdr, Plug, Pre, Block, Enc, StructOf, StringsOf, NamesOk, Decode, Off, BelowRenumbered, BelowError,
      AddError, Flat, Renumbered;
    ghost var strs := StringsOf(d.buf[..]);
    ghost var t := Items(s, f, strs);
    TwoNames();
    AddedReads(t, PHANDLE, delta, LINUX_PHANDLE);
    MissingAdds(t, PHANDLE, delta);
    err, kids := AddOffset(d, node, PHANDLE, delta, s, f);
    if err != 0 && err != -NOTFOUND {
      return;
    }
    ghost var f1 := NodeCons(f.name, f.npad, kids, f.rest);
    ItemsDecode(s, f1, strs);
    MissingAdds(Added(t, PHANDLE, delta), LINUX_PHANDLE, delta);
    err, kids := AddOffset(d, node, LINUX_PHANDLE, delta, s, f1);
    if err != 0 && err != -NOTFOUND {
      return;
    }
    ghost var f2 := NodeCons(f.name, f.npad, kids, f.rest);
    ItemsDecode(s, f2, strs);
    OwnFirst(t, delta);
    err, kids := AdjustSubnodes(d, node, delta, s, f2);
  }

  lemma MissingAdds(t: Tree, name: seq<byte>, delta: u32)
    ensures AddError(PropOf(t, name), delta) == -NOTFOUND ==> Added(t, name, delta) == t
  {
    hide ReplaceProp, Enc32, Dec32;
  }

  /** `overlay_adjust_local_phandles`: from the root of the overlay. */
  method AdjustLocalPhandles(d: Dtb, delta: u32, ghost f: Forest) returns (err: int, ghost kids: Forest)
    requires d.Valid() && d.tree == f && f.NodeCons?
    modifies d, d.buf
    ensures d.Valid() && StringsOf(d.buf[..]) == StringsOf(old(d.buf[..])) && Hdr(d.buf[..]) == Hdr(old(d.buf[..]))
    ensures NamesOk(f.kids, StringsOf(old(d.buf[..])))
    ensures var t := Decode(f.kids, StringsOf(old(d.buf[..])));
      && err == RenumberError(t, delta)
      && (err == 0 ==> Reworked(old(d.buf[..]), d, Top, f, 0, kids, Renumbered(t, delta)))
  {
    hide Hdr, Pre, Block, Enc, StructOf, StringsOf, NamesOk, Decode, Off, RenumberError, Flat, Renumbered, Plug;
    TopIsAll(f);
    RootAt(d.buf[..], f);
    ItemsDecode(Top, f, StringsOf(d.buf[..]));
    err, kids := AdjustNodePhandles(d, 0, delta, Top, f);
  }

  lemma RootAt(b: seq<byte>, f: Forest)
    requires Editable(b, f)
    ensures At(b, Top, f, 0)
  {
    hide Hdr;
    AtStart(b, f);
  }
}
