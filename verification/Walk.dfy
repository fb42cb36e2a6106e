/**
 The depth-counting walks of libfdt as functions on cursors, and what they find in the tree.
 */
module Walks {
  import opened Bytes
  import opened Tokens
  import opened Forests
  import opened Trees

  /** Where one call of `fdt_next_node` ends. */
  datatype Walk =
    | Node(at: Cursor, depth: int)  // on a BEGIN_NODE
    | Out(at: Cursor, depth: int)   // past the END_NODE that made the depth negative
    | Stop(depth: int)              // on the END token

  /** One call of `fdt_next_node` from the token under the cursor. */
  function Scan(s: Spot, f: Forest, depth: int, tracked: bool): (w: Walk)
    ensures w.Node? ==>
      w.at.here.NodeCons? && Plug(w.at.spot, w.at.here) == Plug(s, f) && Left(w.at.spot, w.at.here) <= Left(s, f)
    ensures w.Node? ==> w.depth <= depth + 1 && (tracked && depth >= 0 ==> w.depth >= 1)
    ensures w.Out? ==> Plug(w.at.spot, w.at.here) == Plug(s, f) && tracked && w.depth < 0
    decreases Left(s, f)
  {
    if f.NodeCons? then Node(Cursor(s, f), depth + 1)
    else if f.Nil? && AtTop(s) then Stop(depth)
    else
      NextFacts(s, f);
      var n := Next(s, f);
      if f.Nil? then
        if tracked && depth - 1 < 0 then Out(n, depth - 1) else Scan(n.spot, n.here, depth - 1, tracked)
      else
        Scan(n.spot, n.here, depth, tracked)
  }

  /** `fdt_node_end_offset_`: calls of `fdt_next_node` until the depth turns negative. */
  function EndWalk(s: Spot, f: Forest, depth: int): Option<Cursor>
    decreases Left(s, f)
  {
    match Scan(s, f, depth, true)
    case Stop(_) => None
    case Out(c, _) => Some(c)
    case Node(c, d) =>
      NextFacts(c.spot, c.here);
      var n := Next(c.spot, c.here);
      EndWalk(n.spot, n.here, d)
  }

  /** Walking over a whole forest arrives at the END_NODE that closes it, one level up. */
  lemma {:induction false} EndWalkCloses(s: Spot, f: Forest, depth: nat)
    requires !AtTop(s)
    ensures var c := Close(s, f);
      EndWalk(s, f, depth) == if depth == 0 then Some(c) else EndWalk(c.spot, c.here, depth - 1)
    decreases f
  {
    hide Plug, Flat, Pre, Post, NameMatch;
    match f
    case Nil =>
    case PropCons(o, v, p, r) => EndWalkCloses(AfterProp(s, o, v, p), r, depth);
    case NopCons(r) => EndWalkCloses(AfterNop(s), r, depth);
    case NodeCons(n, p, k, r) =>
      EndWalkCloses(Inside(s, n, p, r), k, depth + 1);
      EndWalkCloses(AfterNode(s, n, p, k), r, depth);
  }

  // ---------------------------------------------------------------- subnodes

  /** The first node among the remaining items, without descending. */
  function FirstNode(s: Spot, f: Forest): (c: Option<Cursor>)
    ensures c.Some? ==> c.value.here.NodeCons? && Plug(c.value.spot, c.value.here) == Plug(s, f)
    decreases f
  {
    match f
    case Nil => None
    case PropCons(o, v, p, r) => FirstNode(AfterProp(s, o, v, p), r)
    case NopCons(r) => FirstNode(AfterNop(s), r)
    case NodeCons(_, _, _, _) => Some(Cursor(s, f))
  }

  /** The first node whose name matches. */
  function FindChild(s: Spot, f: Forest, name: seq<byte>): (c: Option<Cursor>)
    ensures c.Some? ==> c.value.here.NodeCons? && Plug(c.value.spot, c.value.here) == Plug(s, f)
    decreases f
  {
    match f
    case Nil => None
    case PropCons(o, v, p, r) => FindChild(AfterProp(s, o, v, p), r, name)
    case NopCons(r) => FindChild(AfterNop(s), r, name)
    case NodeCons(n, p, k, r) =>
      if NameMatch(n, name) then Some(Cursor(s, f)) else FindChild(AfterNode(s, n, p, k), r, name)
  }

  /** The loop of `fdt_subnode_offset_namelen`, from the token under the cursor. */
  function SearchWalk(s: Spot, f: Forest, depth: int, name: seq<byte>): Option<Cursor>
    decreases Left(s, f)
  {
    match Scan(s, f, depth, true)
    case Stop(_) => None
    case Out(_, _) => None
    case Node(c, d) =>
      if d == 1 && NameMatch(c.here.name, name) then Some(c)
      else
        NextFacts(c.spot, c.here);
        var n := Next(c.spot, c.here);
        SearchWalk(n.spot, n.here, d, name)
  }

  /** Below the children the search just passes. */
  lemma {:induction false} SearchSkips(s: Spot, f: Forest, depth: nat, name: seq<byte>)
    requires !AtTop(s) && depth >= 1
    ensures var c := Close(s, f); SearchWalk(s, f, depth, name) == SearchWalk(c.spot, c.here, depth - 1, name)
    decreases f
  {
    hide Plug, Flat, Pre, Post, NameMatch;
    match f
    case Nil =>
    case PropCons(o, v, p, r) => SearchSkips(AfterProp(s, o, v, p), r, depth, name);
    case NopCons(r) => SearchSkips(AfterNop(s), r, depth, name);
    case NodeCons(n, p, k, r) =>
      SearchSkips(Inside(s, n, p, r), k, depth + 1, name);
      SearchSkips(AfterNode(s, n, p, k), r, depth, name);
  }

  /** The depth-counting search is the search among the direct children. */
  lemma {:induction false} SearchIsFindChild(s: Spot, f: Forest, name: seq<byte>)
    requires !AtTop(s)
    ensures SearchWalk(s, f, 0, name) == FindChild(s, f, name)
    decreases f
  {
    hide Plug, Flat, Pre, Post, NameMatch;
    match f
    case Nil =>
    case PropCons(o, v, p, r) => SearchIsFindChild(AfterProp(s, o, v, p), r, name);
    case NopCons(r) => SearchIsFindChild(AfterNop(s), r, name);
    case NodeCons(n, p, k, r) =>
      if !NameMatch(n, name) {
        SearchSkips(Inside(s, n, p, r), k, 1, name);
        SearchIsFindChild(AfterNode(s, n, p, k), r, name);
      }
  }

  /** The loop of `fdt_next_subnode`. */
  function SiblingWalk(s: Spot, f: Forest, depth: int): Option<Cursor>
    decreases Left(s, f)
  {
    match Scan(s, f, depth, true)
    case Stop(_) => None
    case Out(_, _) => None
    case Node(c, d) =>
      if d < 1 then None
      else if d == 1 then Some(c)
      else
        NextFacts(c.spot, c.here);
        var n := Next(c.spot, c.here);
        SiblingWalk(n.spot, n.here, d)
  }

  lemma {:induction false} SiblingSkips(s: Spot, f: Forest, depth: nat)
    requires !AtTop(s) && depth >= 1
    ensures var c := Close(s, f); SiblingWalk(s, f, depth) == SiblingWalk(c.spot, c.here, depth - 1)
    decreases f
  {
    hide Plug, Flat, Pre, Post, Left, NameMatch;
    match f
    case Nil =>
    case PropCons(o, v, p, r) => SiblingSkips(AfterProp(s, o, v, p), r, depth);
    case NopCons(r) => SiblingSkips(AfterNop(s), r, depth);
    case NodeCons(n, p, k, r) =>
      SiblingSkips(Inside(s, n, p, r), k, depth + 1);
      SiblingSkips(AfterNode(s, n, p, k), r, depth);
  }

  /** At depth zero the sibling walk finds the first node. */
  lemma {:induction false} SiblingIsFirst(s: Spot, f: Forest)
    ensures SiblingWalk(s, f, 0) == FirstNode(s, f)
    decreases f
  {
    hide Plug, Flat, Pre, Post, NameMatch;
    match f
    case Nil =>
    case PropCons(o, v, p, r) => SiblingIsFirst(AfterProp(s, o, v, p), r);
    case NopCons(r) => SiblingIsFirst(AfterNop(s), r);
    case NodeCons(n, p, k, r) =>
  }

  /** The direct subnodes, in order. */
  function Subnodes(s: Spot, f: Forest): (cs: seq<Cursor>)
    ensures forall c :: c in cs ==> c.here.NodeCons?
    decreases f
  {
    match f
    case Nil => []
    case PropCons(o, v, p, r) => Subnodes(AfterProp(s, o, v, p), r)
    case NopCons(r) => Subnodes(AfterNop(s), r)
    case NodeCons(n, p, k, r) => [Cursor(s, f)] + Subnodes(AfterNode(s, n, p, k), r)
  }

  /** `found` is the first of the nodes that answers to the name, None when none does. */
  ghost predicate FirstAnswer(cs: seq<Cursor>, name: seq<byte>, found: Option<Cursor>)
    requires forall c :: c in cs ==> c.here.NodeCons?
  {
    match found
    case None => forall i :: 0 <= i < |cs| ==> !Answers(cs[i].here.name, name)
    case Some(c) =>
      exists i ::
        && 0 <= i < |cs| && cs[i] == c && Answers(c.here.name, name)
        && forall j :: 0 <= j < i ==> !Answers(cs[j].here.name, name)
  }

  /** The search finds that one. */
  lemma {:induction false} FindChildFirst(s: Spot, f: Forest, name: seq<byte>)
    ensures FirstAnswer(Subnodes(s, f), name, FindChild(s, f, name))
    decreases f
  {
    hide Plug, NameMatch, Answers;
    match f
    case Nil =>
    case PropCons(o, v, p, r) => FindChildFirst(AfterProp(s, o, v, p), r, name);
    case NopCons(r) => FindChildFirst(AfterNop(s), r, name);
    case NodeCons(n, p, k, r) =>
      NameMatchMeans(n, name);
      if NameMatch(n, name) {
        assert Subnodes(s, f)[0] == Cursor(s, f);
      } else {
        FindChildFirst(AfterNode(s, n, p, k), r, name);
        OneMore(Cursor(s, f), Subnodes(AfterNode(s, n, p, k), r), name, FindChild(s, f, name));
      }
  }

  lemma OneMore(c: Cursor, cs: seq<Cursor>, name: seq<byte>, found: Option<Cursor>)
    requires c.here.NodeCons? && (forall d :: d in cs ==> d.here.NodeCons?) && !Answers(c.here.name, name)
    requires FirstAnswer(cs, name, found)
    ensures FirstAnswer([c] + cs, name, found)
  {
    hide Answers;
    var all := [c] + cs;
    assert forall i :: 0 < i < |all| ==> all[i] == cs[i - 1];
    if found.Some? {
      var i :| 0 <= i < |cs| && cs[i] == found.value && forall j :: 0 <= j < i ==> !Answers(cs[j].here.name, name);
      assert all[i + 1] == found.value;
    }
  }

  /** The subnode after the one under the cursor (`fdt_next_subnode`). */
  function NextNodeOf(c: Cursor): Option<Cursor>
    requires c.here.NodeCons?
  {
    FirstNode(AfterNode(c.spot, c.here.name, c.here.npad, c.here.kids), c.here.rest)
  }

  /** `cs` is what starting at `first` and asking for the next subnode yields until there is none. */
  predicate Enumerates(first: Option<Cursor>, cs: seq<Cursor>)
    decreases |cs|
  {
    if cs == [] then first.None?
    else first == Some(cs[0]) && cs[0].here.NodeCons? && Enumerates(NextNodeOf(cs[0]), cs[1..])
  }

  /** First-then-next visits exactly the direct subnodes, in order, and then stops. */
  lemma {:induction false} SubnodesInOrder(s: Spot, f: Forest)
    ensures Enumerates(FirstNode(s, f), Subnodes(s, f))
    decreases f
  {
    match f
    case Nil =>
    case PropCons(o, v, p, r) => SubnodesInOrder(AfterProp(s, o, v, p), r);
    case NopCons(r) => SubnodesInOrder(AfterNop(s), r);
    case NodeCons(n, p, k, r) => SubnodesInOrder(AfterNode(s, n, p, k), r);
  }

  // ---------------------------------------------------------------- properties

  /** The first property at or after the cursor, skipping NOPs only (`nextprop_`). */
  function FirstProp(s: Spot, f: Forest): (c: Option<Cursor>)
    ensures c.Some? ==> c.value.here.PropCons? && Plug(c.value.spot, c.value.here) == Plug(s, f)
    decreases f
  {
    match f
    case PropCons(_, _, _, _) => Some(Cursor(s, f))
    case NopCons(r) => FirstProp(AfterNop(s), r)
    case _ => None
  }

  /** `fdt_next_property_offset`. */
  function NextPropOf(c: Cursor): Option<Cursor>
    requires c.here.PropCons?
  {
    FirstProp(AfterProp(c.spot, c.here.nameoff, c.here.val, c.here.pad), c.here.rest)
  }

  /** The first property whose name resolves to `name`. */
  function FindProp(s: Spot, f: Forest, strs: seq<byte>, name: seq<byte>): (c: Option<Cursor>)
    ensures c.Some? ==> c.value.here.PropCons? && Plug(c.value.spot, c.value.here) == Plug(s, f)
    decreases f
  {
    match f
    case PropCons(o, v, p, r) =>
      if StrAt(strs, o) == Some(name) then Some(Cursor(s, f)) else FindProp(AfterProp(s, o, v, p), r, strs, name)
    case NopCons(r) => FindProp(AfterNop(s), r, strs, name)
    case _ => None
  }

  /** Looking for a name property by property. */
  lemma {:induction false} FindPropSteps(s: Spot, f: Forest, strs: seq<byte>, name: seq<byte>)
    ensures FindProp(s, f, strs, name) ==
      match FirstProp(s, f)
      case None => None
      case Some(c) =>
        if StrAt(strs, c.here.nameoff) == Some(name) then Some(c)
        else FindProp(AfterProp(c.spot, c.here.nameoff, c.here.val, c.here.pad), c.here.rest, strs, name)
    decreases f
  {
    match f
    case NopCons(r) => FindPropSteps(AfterNop(s), r, strs, name);
    case _ =>
  }
}
