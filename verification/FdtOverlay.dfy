/** fdt/fdt_overlay.c: merging an overlay blob into a base blob. */
module FdtOverlay {
  import opened Bytes
  import opened Tokens
  import opened Forests
  import opened Trees
  import opened Walks
  import opened Blobs
  import opened Layouts
  import opened Edits
  import opened Merges
  import opened MergeRooms
  import opened Fdt
  import opened FdtRo
  import opened FdtRw

  // ---------------------------------------------------------------- the overlay iterators, decoded

  /** Properties still to be set when the iterator stands on `next`. */
  lemma {:induction false} PropsAhead(s: Spot, f: Forest, strs: seq<byte>, t: Tree)
    requires NamesOk(f, strs)
    ensures var next := FirstProp(s, f);
      match next
      case None => ApplyProps(t, Decode(f, strs)) == t
      case Some(c) =>
        && NamesOk(c.here, strs) && Decode(c.here, strs) == Decode(f, strs) && AtTop(c.spot) == AtTop(s)
        && (c.here == f || c.here < f)
    decreases f
  {
    match f
    case NopCons(r) => PropsAhead(AfterNop(s), r, strs, t);
    case _ =>
  }

  /** Subnodes still to be merged when the iterator stands on `next`. */
  lemma {:induction false} NodesAhead(s: Spot, f: Forest, strs: seq<byte>, t: Tree)
    requires NamesOk(f, strs)
    ensures var next := FirstNode(s, f);
      match next
      case None => ApplyNodes(t, Decode(f, strs)) == t
      case Some(c) =>
        && NamesOk(c.here, strs) && ApplyNodes(t, Decode(c.here, strs)) == ApplyNodes(t, Decode(f, strs))
        && (c.here == f || c.here < f)
    decreases f
  {
    match f
    case PropCons(o, v, p, r) => NodesAhead(AfterProp(s, o, v, p), r, strs, t);
    case NopCons(r) => NodesAhead(AfterNop(s), r, strs, t);
    case _ =>
  }

  /** And the room they take. */
  lemma {:induction false} NodesRoomAhead(s: Spot, f: Forest, strs: seq<byte>, t: Tree, r: Room)
    requires NamesOk(f, strs)
    ensures match FirstNode(s, f)
      case None => NodesRoom(t, Decode(f, strs), r) == Some(r)
      case Some(c) => NamesOk(c.here, strs) && NodesRoom(t, Decode(c.here, strs), r) == NodesRoom(t, Decode(f, strs), r)
    decreases f
  {
    match f
    case PropCons(o, v, p, rest) => NodesRoomAhead(AfterProp(s, o, v, p), rest, strs, t, r);
    case NopCons(rest) => NodesRoomAhead(AfterNop(s), rest, strs, t, r);
    case _ =>
  }

  lemma {:induction false} PropsRoomAhead(s: Spot, f: Forest, strs: seq<byte>, t: Tree, r: Room)
    requires NamesOk(f, strs) && FirstProp(s, f).None?
    ensures PropsRoom(t, Decode(f, strs), r) == Some(r)
    decreases f
  {
    match f
    case NopCons(rest) => PropsRoomAhead(AfterNop(s), rest, strs, t, r);
    case _ =>
  }

  // ---------------------------------------------------------------- the base node while it is edited

  /** The node under the base cursor, with its current items. */
  function Renewed(f: Forest, kids: Forest): Forest
    requires f.NodeCons?
  {
    NodeCons(f.name, f.npad, kids, f.rest)
  }

  /** The base blob with `kids` as the items of the node at `target`; they decode to `t`. */
  ghost predicate Stage(d: Dtb, target: int, s: Spot, f: Forest, kids: Forest, t: Tree)
    requires f.NodeCons?
    reads d, d.buf
  {
    && d.Valid() && d.tree == Plug(s, Renewed(f, kids)) && At(d.buf[..], s, Renewed(f, kids), target)
    && NamesOk(kids, StringsOf(d.buf[..])) && Decode(kids, StringsOf(d.buf[..])) == t
  }

  /** The outcome of a step that leaves the room `left`: it fails exactly when there is not enough. */
  predicate Leaves(err: int, b: seq<byte>, left: Option<Room>) {
    match left
    case None => err == -NOSPACE
    case Some(r) => err == 0 && Sound(b) && RoomOf(b) == r
  }

  /** `overlay_apply_node`, first loop body: one overlay property set on the target node. */
  method ApplyProperty(d: Dtb, target: int, ob: seq<byte>, poff: int, ghost s: Spot, ghost f: Forest,
      ghost kids0: Forest, ghost t: Tree, ghost c: Cursor)
    returns (err: int, ghost kids: Forest)
    requires f.NodeCons? && Stage(d, target, s, f, kids0, t)
    requires c.here.PropCons? && At(ob, c.spot, c.here, poff) && StrAt(StringsOf(ob), c.here.nameoff).Some?
    modifies d, d.buf
    ensures d.Valid() && SameFrame(old(d.buf[..]), d.buf[..])
    ensures Leaves(err, d.buf[..],
      SetRoom(t, StrAt(StringsOf(ob), c.here.nameoff).value, |c.here.val|, old(RoomOf(d.buf[..]))))
    ensures err == 0 ==> StringsOf(old(d.buf[..])) <= StringsOf(d.buf[..])
    ensures err == 0 ==>
      Stage(d, target, s, f, kids, SetProp(t, StrAt(StringsOf(ob), c.here.nameoff).value, c.here.val))
  {
    hide Hdr, Plug, Pre, Block, Enc, StructOf, StringsOf, NamesOk, RsvOf, FindProp, Decode, At;
    ghost var b := d.buf[..];
    var name, val := GetpropByOffset(ob, poff, c);
    ghost var g := Renewed(f, kids0);
    AtInStruct(b, s, g, target);
    ItemsDecode(s, g, StringsOf(b));
    FindPropReads(Inside(s, f.name, f.npad, f.rest), kids0, StringsOf(b), name);
    err, kids := d.Setprop(target, name, val, s, g);
    if err == 0 {
      StillAt(b, d.buf[..], s, g, Renewed(f, kids), target);
    }
  }

  // ---------------------------------------------------------------- descending into a subnode

  /** The target's items once the entered child has items `kids2`. */
  ghost function Rejoined(kids: Forest, name: seq<byte>, created: bool, npad: seq<byte>, kids2: Forest): Forest {
    if created then AddRaw(kids, name, npad, kids2) else SetKidsRaw(kids, name, kids2)
  }

  /** The base child at cursor `c` that stands for the overlay subnode `name`: found, or just created. */
  ghost predicate Entered(c: Cursor, s: Spot, f: Forest, kids: Forest, name: seq<byte>, created: bool)
    requires f.NodeCons?
  {
    var inner := Inside(s, f.name, f.npad, f.rest);
    && c.here.NodeCons?
    && created == FindChild(inner, kids, name).None?
    && (created ==> c == NewNode(s, Renewed(f, kids), name))
    && (!created ==> c == FindChild(inner, kids, name).value)
  }

  /** Changing the entered child's items changes the target's items as `ApplyChild` says. */
  lemma ChildRejoins(c: Cursor, s: Spot, f: Forest, kids: Forest, name: seq<byte>, created: bool, strs: seq<byte>,
      kids2: Forest)
    requires f.NodeCons? && Entered(c, s, f, kids, name, created) && NamesOk(kids, strs) && NamesOk(kids2, strs)
    ensures var j := Rejoined(kids, name, created, c.here.npad, kids2);
      && Plug(c.spot, Renewed(c.here, kids2)) == Plug(s, Renewed(f, j)) && NamesOk(j, strs)
      && Decode(j, strs) == match ChildOf(Decode(kids, strs), name)
                            case Some(_) => SetChild(Decode(kids, strs), name, Decode(kids2, strs))
                            case None => AddChild(Decode(kids, strs), name, Decode(kids2, strs))
  {
    hide Plug, NameMatch;
    var inner := Inside(s, f.name, f.npad, f.rest);
    FindChildReads(inner, kids, strs, name);
    if created {
      InsertAdds(inner, kids, strs, name, c.here.npad, kids2);
    } else {
      FindChildReplaces(inner, kids, strs, name, kids2);
    }
    InsidePlug(s, Renewed(f, Rejoined(kids, name, created, c.here.npad, kids2)));
  }

  /** `overlay_apply_node`, second loop body up to the recursion: the child is added unless it exists. */
  method EnterChild(d: Dtb, target: int, name: seq<byte>, ghost s: Spot, ghost f: Forest, ghost kids: Forest,
      ghost t: Tree)
    returns (nnode: int, ghost c: Cursor, ghost created: bool)
    requires f.NodeCons? && Stage(d, target, s, f, kids, t) && NoNul(name)
    modifies d, d.buf
    ensures d.Valid() && SameFrame(old(d.buf[..]), d.buf[..]) && StringsOf(d.buf[..]) == StringsOf(old(d.buf[..]))
    ensures var r := old(RoomOf(d.buf[..]));
      if ChildOf(t, name).Some? then nnode >= 0 && RoomOf(d.buf[..]) == r
      else if NodeTakes(name) > r.free then nnode == -NOSPACE
      else nnode >= 0 && RoomOf(d.buf[..]) == r.(free := r.free - NodeTakes(name))
    ensures nnode >= 0 ==> Entered(c, s, f, kids, name, created)
    ensures nnode >= 0 ==> d.tree == Plug(c.spot, c.here) && At(d.buf[..], c.spot, c.here, nnode)
    ensures nnode >= 0 ==> var strs := StringsOf(d.buf[..]);
      Items(c.spot, c.here, strs) == match ChildOf(t, name) case Some(k) => k case None => TNil
  {
    hide Hdr, Plug, Pre, Block, Enc, StructOf, StringsOf, NamesOk, RsvOf, FindChild, Decode, At, Align4;
    ghost var b, strs := d.buf[..], StringsOf(d.buf[..]);
    ghost var g := Renewed(f, kids);
    ghost var inner := Inside(s, f.name, f.npad, f.rest);
    AtInStruct(b, s, g, target);
    FindChildReads(inner, kids, strs, name);
    nnode, c := d.AddSubnode(target, name, s, g);
    created := true;
    if nnode == -EXISTS {
      nnode := SubnodeOffset(d.buf[..], target, name, s, g);
      c := FindChild(inner, kids, name).value;
      created := false;
      FoundNode(inner, kids, name);
      InsidePlug(s, g);
    }
    if nnode < 0 {
      return;
    }
    ItemsDecode(c.spot, c.here, StringsOf(d.buf[..]));
    DecodeNil(strs);
  }

  lemma FoundNode(s: Spot, kids: Forest, name: seq<byte>)
    requires FindChild(s, kids, name).Some?
    ensures var c := FindChild(s, kids, name).value; c.here.NodeCons? && Plug(c.spot, c.here) == Plug(s, kids)
  {
    hide Plug;
  }

  // ---------------------------------------------------------------- overlay_apply_node

  /**
   `overlay_apply_node`: on success the items of the base node at `target` are the merge of its old
   items with the overlay node's items, and nothing else in the base tree has changed.
   */
  method ApplyNode(d: Dtb, target: int, ob: seq<byte>, node: int, ghost s: Spot, ghost f: Forest, ghost os: Spot,
      ghost of: Forest)
    returns (err: int, ghost kids: Forest)
    requires d.Valid() && d.tree == Plug(s, f) && f.NodeCons? && At(d.buf[..], s, f, target)
    requires of.NodeCons? && At(ob, os, of, node) && NamesOk(of.kids, StringsOf(ob))
    modifies d, d.buf
    ensures d.Valid() && SameFrame(old(d.buf[..]), d.buf[..])
    ensures var t0 := Items(s, f, StringsOf(old(d.buf[..])));
      Leaves(err, d.buf[..], MergeRoom(t0, Decode(of.kids, StringsOf(ob)), old(RoomOf(d.buf[..]))))
    ensures err == 0 ==> StringsOf(old(d.buf[..])) <= StringsOf(d.buf[..])
    ensures err == 0 ==>
      Stage(d, target, s, f, kids, Merge(Items(s, f, StringsOf(old(d.buf[..]))), Decode(of.kids, StringsOf(ob))))
    ensures err == 0 ==> var strs := StringsOf(old(d.buf[..]));
      d.Meaning() == WithItems(s, f, strs, Merge(Items(s, f, strs), Decode(of.kids, StringsOf(ob))))
    decreases of.kids, 1
  {
    hide Hdr, Plug, Pre, Block, Enc, StructOf, StringsOf, NamesOk, RsvOf, Decode, Off, Align4;
    ghost var b0, strs, ostrs := d.buf[..], StringsOf(d.buf[..]), StringsOf(ob);
    ghost var ot := Decode(of.kids, ostrs);
    ghost var t0 := Items(s, f, strs);
    ItemsDecode(s, f, strs);
    ghost var t;
    err, kids, t := ApplyProperties(d, target, ob, node, s, f, t0, os, of);
    if err != 0 {
      return;
    }
    err, kids, t := ApplySubnodes(d, target, ob, node, s, f, kids, t, os, of);
    if err != 0 {
      return;
    }
    ItemsReplaced(s, f, strs, kids, StringsOf(d.buf[..]), t);
  }

  /** The property loop of `overlay_apply_node`. */
  method ApplyProperties(d: Dtb, target: int, ob: seq<byte>, node: int, ghost s: Spot, ghost f: Forest,
      ghost t0: Tree, ghost os: Spot, ghost of: Forest)
    returns (err: int, ghost kids: Forest, ghost t: Tree)
    requires f.NodeCons? && Stage(d, target, s, f, f.kids, t0)
    requires of.NodeCons? && At(ob, os, of, node) && NamesOk(of.kids, StringsOf(ob))
    modifies d, d.buf
    ensures d.Valid() && SameFrame(old(d.buf[..]), d.buf[..])
    ensures Leaves(err, d.buf[..], PropsRoom(t0, Decode(of.kids, StringsOf(ob)), old(RoomOf(d.buf[..]))))
    ensures err == 0 ==> StringsOf(old(d.buf[..])) <= StringsOf(d.buf[..])
    ensures err == 0 ==> t == ApplyProps(t0, Decode(of.kids, StringsOf(ob))) && Stage(d, target, s, f, kids, t)
  {
    hide Hdr, Plug, Pre, Block, Enc, StructOf, StringsOf, NamesOk, RsvOf, Decode, Off, Align4, StrAt, ApplyProps;
    ghost var ostrs := StringsOf(ob);
    ghost var cs, cf := Inside(os, of.name, of.npad, of.rest), of.kids;
    ghost var goal := ApplyProps(t0, Decode(of.kids, ostrs));
    ghost var left := PropsRoom(t0, Decode(of.kids, ostrs), RoomOf(d.buf[..]));
    kids, t, err := f.kids, t0, 0;
    var property := FirstPropertyOffset(ob, node, os, of);
    while property >= 0
      invariant Located(ob, FirstProp(cs, cf), property)
      invariant NamesOk(cf, ostrs) && !AtTop(cs) && ApplyProps(t, Decode(cf, ostrs)) == goal
      invariant Stage(d, target, s, f, kids, t) && SameFrame(old(d.buf[..]), d.buf[..])
      invariant StringsOf(old(d.buf[..])) <= StringsOf(d.buf[..])
      invariant err == 0 && PropsRoom(t, Decode(cf, ostrs), RoomOf(d.buf[..])) == left
      decreases cf
    {
      PropsAhead(cs, cf, ostrs, t);
      ghost var c := FirstProp(cs, cf).value;
      NamedCell(c.here, ostrs);
      ApplyPropsStep(t, c.here, ostrs);
      PropsRoomStep(t, c.here, ostrs, RoomOf(d.buf[..]));
      err, kids := ApplyProperty(d, target, ob, property, s, f, kids, t, c);
      if err != 0 {
        return;
      }
      t := SetProp(t, StrAt(ostrs, c.here.nameoff).value, c.here.val);
      property := NextPropertyOffset(ob, property, c);
      cs, cf := AfterProp(c.spot, c.here.nameoff, c.here.val, c.here.pad), c.here.rest;
    }
    PropsAhead(cs, cf, ostrs, t);
    PropsRoomAhead(cs, cf, ostrs, t, RoomOf(d.buf[..]));
  }

  lemma NamedCell(f: Forest, strs: seq<byte>)
    requires f.PropCons? && NamesOk(f, strs)
    ensures StrAt(strs, f.nameoff).Some? && NamesOk(f.rest, strs)
  {
  }

  lemma ApplyPropsStep(t: Tree, f: Forest, strs: seq<byte>)
    requires f.PropCons? && NamesOk(f, strs)
    ensures ApplyProps(t, Decode(f, strs))
      == ApplyProps(SetProp(t, StrAt(strs, f.nameoff).value, f.val), Decode(f.rest, strs))
  {
  }

  lemma PropsRoomStep(t: Tree, f: Forest, strs: seq<byte>, r: Room)
    requires f.PropCons? && NamesOk(f, strs)
    ensures var name := StrAt(strs, f.nameoff).value;
      PropsRoom(t, Decode(f, strs), r) ==
      match SetRoom(t, name, |f.val|, r)
      case None => None
      case Some(q) => PropsRoom(SetProp(t, name, f.val), Decode(f.rest, strs), q)
  {
  }

  /** The subnode loop of `overlay_apply_node`. */
  method ApplySubnodes(d: Dtb, target: int, ob: seq<byte>, node: int, ghost s: Spot, ghost f: Forest,
      ghost kids0: Forest, ghost t0: Tree, ghost os: Spot, ghost of: Forest)
    returns (err: int, ghost kids: Forest, ghost t: Tree)
    requires f.NodeCons? && Stage(d, target, s, f, kids0, t0)
    requires of.NodeCons? && At(ob, os, of, node) && NamesOk(of.kids, StringsOf(ob))
    modifies d, d.buf
    ensures d.Valid() && SameFrame(old(d.buf[..]), d.buf[..])
    ensures Leaves(err, d.buf[..], NodesRoom(t0, Decode(of.kids, StringsOf(ob)), old(RoomOf(d.buf[..]))))
    ensures err == 0 ==> StringsOf(old(d.buf[..])) <= StringsOf(d.buf[..])
    ensures err == 0 ==> t == ApplyNodes(t0, Decode(of.kids, StringsOf(ob))) && Stage(d, target, s, f, kids, t)
    decreases of.kids, 0
  {
    hide Hdr, Plug, Pre, Block, Enc, StructOf, StringsOf, NamesOk, RsvOf, Decode, Off, Align4, ApplyNodes;
    ghost var ostrs := StringsOf(ob);
    ghost var cs, cf := Inside(os, of.name, of.npad, of.rest), of.kids;
    ghost var goal := ApplyNodes(t0, Decode(of.kids, ostrs));
    ghost var left := NodesRoom(t0, Decode(of.kids, ostrs), RoomOf(d.buf[..]));
    kids, t, err := kids0, t0, 0;
    var subnode := FirstSubnode(ob, node, os, of);
    while subnode >= 0
      invariant Located(ob, FirstNode(cs, cf), subnode)
      invariant NamesOk(cf, ostrs) && ApplyNodes(t, Decode(cf, ostrs)) == goal && (cf == of.kids || cf < of.kids)
      invariant Stage(d, target, s, f, kids, t) && SameFrame(old(d.buf[..]), d.buf[..])
      invariant StringsOf(old(d.buf[..])) <= StringsOf(d.buf[..])
      invariant err == 0 && NodesRoom(t, Decode(cf, ostrs), RoomOf(d.buf[..])) == left
      decreases cf
    {
      NodesAhead(cs, cf, ostrs, t);
      NodesRoomAhead(cs, cf, ostrs, t, RoomOf(d.buf[..]));
      ghost var c := FirstNode(cs, cf).value;
      NamedNode(c.here, ostrs);
      ApplyNodesStep(t, c.here, ostrs);
      NodesRoomStep(t, c.here, ostrs, RoomOf(d.buf[..]));
      err, kids := ApplySubnode(d, target, ob, subnode, s, f, kids, t, c);
      if err != 0 {
        return;
      }
      t := ApplyChild(t, c.here.name, Decode(c.here.kids, ostrs));
      subnode := NextSubnode(ob, subnode, c.spot, c.here);
      cs, cf := AfterNode(c.spot, c.here.name, c.here.npad, c.here.kids), c.here.rest;
    }
    NodesAhead(cs, cf, ostrs, t);
    NodesRoomAhead(cs, cf, ostrs, t, RoomOf(d.buf[..]));
  }

  lemma NamedNode(f: Forest, strs: seq<byte>)
    requires f.NodeCons? && NamesOk(f, strs)
    ensures NamesOk(f.kids, strs) && NamesOk(f.rest, strs)
  {
  }

  lemma ApplyNodesStep(t: Tree, f: Forest, strs: seq<byte>)
    requires f.NodeCons? && NamesOk(f, strs)
    ensures ApplyNodes(t, Decode(f, strs))
      == ApplyNodes(ApplyChild(t, f.name, Decode(f.kids, strs)), Decode(f.rest, strs))
  {
  }

  lemma NodesRoomStep(t: Tree, f: Forest, strs: seq<byte>, r: Room)
    requires f.NodeCons? && NamesOk(f, strs)
    ensures var kids := Decode(f.kids, strs);
      NodesRoom(t, Decode(f, strs), r) ==
      match ChildRoom(t, f.name, kids, r)
      case None => None
      case Some(q) => NodesRoom(ApplyChild(t, f.name, kids), Decode(f.rest, strs), q)
  {
  }

  /** One overlay subnode: enter or create the base child, recurse, and rejoin. */
  method ApplySubnode(d: Dtb, target: int, ob: seq<byte>, subnode: int, ghost s: Spot, ghost f: Forest,
      ghost kids0: Forest, ghost t: Tree, ghost c: Cursor)
    returns (err: int, ghost kids: Forest)
    requires f.NodeCons? && Stage(d, target, s, f, kids0, t)
    requires c.here.NodeCons? && At(ob, c.spot, c.here, subnode) && NamesOk(c.here.kids, StringsOf(ob))
    modifies d, d.buf
    ensures d.Valid() && SameFrame(old(d.buf[..]), d.buf[..])
    ensures Leaves(err, d.buf[..],
      ChildRoom(t, c.here.name, Decode(c.here.kids, StringsOf(ob)), old(RoomOf(d.buf[..]))))
    ensures err == 0 ==> StringsOf(old(d.buf[..])) <= StringsOf(d.buf[..])
    ensures err == 0 ==> Stage(d, target, s, f, kids, ApplyChild(t, c.here.name, Decode(c.here.kids, StringsOf(ob))))
    decreases c.here.kids, 2
  {
    hide Hdr, Plug, Pre, Block, Enc, StructOf, StringsOf, NamesOk, RsvOf, Decode, Off, Align4, Merge;
    ghost var b0, strs := d.buf[..], StringsOf(d.buf[..]);
    var name := GetName(ob, subnode, c.spot, c.here);
    AtNext(ob, c.spot, c.here, subnode);
    ghost var e, created, kids2;
    var nnode;
    kids := kids0;
    nnode, e, created := EnterChild(d, target, name, s, f, kids0, t);
    if nnode < 0 {
      return nnode, kids;
    }
    err, kids2 := ApplyNode(d, nnode, ob, subnode, e.spot, e.here, c.spot, c.here);
    if err != 0 {
      return;
    }
    DecodeMoreStrings(kids0, strs, StringsOf(d.buf[..]));
    ChildRejoins(e, s, f, kids0, name, created, StringsOf(d.buf[..]), kids2);
    kids := Rejoined(kids0, name, created, e.here.npad, kids2);
    StillAt(b0, d.buf[..], s, Renewed(f, kids0), Renewed(f, kids), target);
  }
}
