/**
 Overlay fragments on decoded trees: which base node a fragment targets, and merging all fragments.

 A `Place` with a tree in it is the decoded counterpart of a cursor. The lookups by path and by phandle
 are stated on both, and proved to find the same node.
 */
module Fragments {
  import opened Bytes
  import opened Tokens
  import opened Forests
  import opened Trees
  import opened Walks
  import opened Merges
  import opened Phandles
  import opened Paths
  import opened Visits
  import opened Edits
  import opened FdtPath
  import opened FdtPhandle

  const OVERLAY: seq<byte> := [95, 95, 111, 118, 101, 114, 108, 97, 121, 95, 95] // "__overlay__"
  const TARGET: seq<byte> := [116, 97, 114, 103, 101, 116] // "target"
  const TARGET_PATH: seq<byte> := TARGET + [45, 112, 97, 116, 104] // "target-path"

  /** A position in a decoded tree. */
  datatype TCursor = TCursor(place: Place, here: Tree)

  function FindKid(p: Place, t: Tree, name: seq<byte>): (r: Option<TCursor>)
    ensures r.Some? ==> r.value.here.TNode? && Graft(r.value.place, r.value.here) == Graft(p, t)
    decreases t
  {
    match t
    case TNil => None
    case TProp(n, v, r) => FindKid(TAfterProp(p, n, v), r, name)
    case TNode(n, k, r) => if NameMatch(n, name) then Some(TCursor(p, t)) else FindKid(TAfterNode(p, n, k), r, name)
  }

  /** The node an absolute path leads to, component by component. */
  function Lookup(c: TCursor, path: seq<byte>): (r: Option<TCursor>)
    requires c.here.TNode?
    ensures r.Some? ==> r.value.here.TNode? && Graft(r.value.place, r.value.here) == Graft(c.place, c.here)
    decreases |path|
  {
    if path == [] then Some(c)
    else if path[0] == SLASH then Lookup(c, path[1..])
    else
      var n := ComponentLen(path);
      match FindKid(TInside(c.place, c.here.name, c.here.rest), c.here.kids, path[..n])
      case None => None
      case Some(d) => Lookup(d, path[n..])
  }

  /** The first node in document order that has the phandle. */
  function WithPhandle(p: Place, t: Tree, phandle: u32): (r: Option<TCursor>)
    ensures r.Some? ==> r.value.here.TNode? && Graft(r.value.place, r.value.here) == Graft(p, t)
    decreases t
  {
    match t
    case TNil => None
    case TProp(n, v, r) => WithPhandle(TAfterProp(p, n, v), r, phandle)
    case TNode(n, k, r) =>
      if PhandleOf(k) == phandle then Some(TCursor(p, t))
      else match WithPhandle(TInside(p, n, r), k, phandle)
        case Some(c) => Some(c)
        case None => WithPhandle(TAfterNode(p, n, k), r, phandle)
  }

  datatype Goal = Reach(at: TCursor) | Fails(err: int)

  /** `overlay_get_target`: by the "target" phandle if there is one, else by "target-path". */
  function GoalOf(base: Tree, frag: Tree): (r: Goal)
    requires base.TNode?
    ensures r.Reach? ==> r.at.here.TNode? && Graft(r.at.place, r.at.here) == base
    ensures r.Fails? ==> r.err < 0
  {
    match PropOf(frag, TARGET)
    case Some(v) =>
      if |v| != 4 || Dec32(v, 0) == 0xffff_ffff then Fails(-BADPHANDLE)
      else if Dec32(v, 0) == 0 then GoalByPath(base, frag)
      else (match WithPhandle(TTop, base, Dec32(v, 0)) case Some(c) => Reach(c) case None => Fails(-NOTFOUND))
    case None => GoalByPath(base, frag)
  }

  function GoalByPath(base: Tree, frag: Tree): (r: Goal)
    requires base.TNode?
    ensures r.Reach? ==> r.at.here.TNode? && Graft(r.at.place, r.at.here) == base
    ensures r.Fails? ==> r.err < 0
  {
    match PropOf(frag, TARGET_PATH)
    case None => Fails(-BADOVERLAY)
    case Some(v) =>
      (match Lookup(TCursor(TTop, base), v[..NulFrom(v, 0)]) case Some(c) => Reach(c) case None => Fails(-NOTFOUND))
  }

  /** The base with the target's items merged with `ov`. */
  function MergedAt(c: TCursor, ov: Tree): (r: Tree)
    requires c.here.TNode?
  {
    Graft(c.place, TNode(c.here.name, Merge(c.here.kids, ov), c.here.rest))
  }

  lemma {:induction false} GraftKeepsRoot(p: Place, t: Tree, u: Tree)
    requires t.TNode? && u.TNode? && Graft(p, t).TNode?
    ensures Graft(p, u).TNode?
  {
    match p
    case TTop =>
    case TAfterProp(q, n, v) => GraftKeepsHead(q, TProp(n, v, t), TProp(n, v, u));
    case TAfterNode(q, n, k) => GraftKeepsRoot(q, TNode(n, k, t), TNode(n, k, u));
    case TInside(q, n, r) => GraftKeepsRoot(q, TNode(n, t, r), TNode(n, u, r));
  }

  lemma {:induction false} GraftKeepsHead(p: Place, t: Tree, u: Tree)
    requires t.TProp? && u.TProp? && Graft(p, t).TNode?
    ensures Graft(p, u).TNode?
  {
    match p
    case TTop =>
    case TAfterProp(q, n, v) => GraftKeepsHead(q, TProp(n, v, t), TProp(n, v, u));
    case TAfterNode(q, n, k) => GraftKeepsRoot(q, TNode(n, k, t), TNode(n, k, u));
    case TInside(q, n, r) => GraftKeepsRoot(q, TNode(n, t, r), TNode(n, u, r));
  }

  datatype Outcome = Merged(base: Tree) | Failed(err: int)

  /** `overlay_merge`: the fragments of an overlay one after the other, each into the result of those before. */
  function MergeFragments(base: Tree, frags: Tree): (r: Outcome)
    requires base.TNode?
    ensures if r.Failed? then r.err < 0 else r.base.TNode?
    decreases frags
  {
    match frags
    case TNil => Merged(base)
    case TProp(_, _, r) => MergeFragments(base, r)
    case TNode(_, k, r) =>
      match ChildOf(k, OVERLAY)
      case None => MergeFragments(base, r)
      case Some(ov) =>
        match GoalOf(base, k)
        case Fails(e) => Failed(e)
        case Reach(c) =>
          GraftKeepsRoot(c.place, c.here, TNode(c.here.name, Merge(c.here.kids, ov), c.here.rest));
          MergeFragments(MergedAt(c, ov), r)
  }

  /** Bytes that merging all the fragments takes at most. */
  function FragsCost(frags: Tree): nat {
    match frags
    case TNil => 0
    case TProp(_, _, r) => FragsCost(r)
    case TNode(_, k, r) => (match ChildOf(k, OVERLAY) case None => 0 case Some(ov) => Cost(ov)) + FragsCost(r)
  }

  // ---------------------------------------------------------------- the same lookups on the blob's forest

  /** A cursor, decoded. */
  function Decoded(c: Cursor, strs: seq<byte>): TCursor
    requires NamesOkAround(c.spot, strs) && NamesOk(c.here, strs)
  {
    TCursor(PlaceOf(c.spot, strs), Decode(c.here, strs))
  }

  /** `r` is the decoded counterpart of `c`. */
  ghost predicate SameFind(c: Option<Cursor>, r: Option<TCursor>, strs: seq<byte>) {
    match c
    case None => r.None?
    case Some(d) => NamesOkAround(d.spot, strs) && NamesOk(d.here, strs) && r == Some(Decoded(d, strs))
  }

  lemma {:induction false} FindKidSame(s: Spot, f: Forest, strs: seq<byte>, name: seq<byte>)
    requires NamesOkAround(s, strs) && NamesOk(f, strs)
    ensures SameFind(FindChild(s, f, name), FindKid(PlaceOf(s, strs), Decode(f, strs), name), strs)
    decreases f
  {
    hide NameMatch, Plug, Graft;
    match f
    case Nil =>
    case PropCons(o, v, p, r) => FindKidSame(AfterProp(s, o, v, p), r, strs, name);
    case NopCons(r) => FindKidSame(AfterNop(s), r, strs, name);
    case NodeCons(n, p, k, r) =>
      if !NameMatch(n, name) {
        FindKidSame(AfterNode(s, n, p, k), r, strs, name);
      }
  }

  lemma {:induction false} LookupSame(c: Cursor, strs: seq<byte>, path: seq<byte>)
    requires c.here.NodeCons? && NamesOkAround(c.spot, strs) && NamesOk(c.here, strs)
    ensures SameFind(Resolve(c, path), Lookup(Decoded(c, strs), path), strs)
    decreases |path|
  {
    hide NameMatch, Plug, Graft, FindChild, FindKid, ComponentLen;
    if path != [] {
      if path[0] == SLASH {
        LookupSame(c, strs, path[1..]);
      } else {
        ResolveComponent(c, path);
        var n := ComponentLen(path);
        var inner := Inside(c.spot, c.here.name, c.here.npad, c.here.rest);
        FindKidSame(inner, c.here.kids, strs, path[..n]);
        if FindChild(inner, c.here.kids, path[..n]).Some? {
          LookupSame(FindChild(inner, c.here.kids, path[..n]).value, strs, path[n..]);
        }
      }
    }
  }

  lemma {:induction false} FirstWithConcat(a: seq<Cursor>, b: seq<Cursor>, strs: seq<byte>, phandle: u32)
    requires forall c :: c in a || c in b ==> c.here.NodeCons? && NamesOk(c.here.kids, strs)
    ensures FirstWith(a + b, strs, phandle) ==
      if FirstWith(a, strs, phandle).Some? then FirstWith(a, strs, phandle) else FirstWith(b, strs, phandle)
  {
    hide PhandleOf;
    if a == [] {
      assert a + b == b;
    } else {
      assert (a + b)[1..] == a[1..] + b;
      FirstWithConcat(a[1..], b, strs, phandle);
    }
  }

  lemma {:induction false} WithPhandleSame(s: Spot, f: Forest, strs: seq<byte>, phandle: u32)
    requires NamesOkAround(s, strs) && NamesOk(f, strs)
    ensures forall c :: c in Preorder(s, f) ==> c.here.NodeCons? && NamesOk(c.here.kids, strs)
    ensures SameFind(FirstWith(Preorder(s, f), strs, phandle), WithPhandle(PlaceOf(s, strs), Decode(f, strs), phandle),
      strs)
    decreases f
  {
    hide PhandleOf, Plug, Graft;
    match f
    case Nil =>
    case PropCons(o, v, p, r) => WithPhandleSame(AfterProp(s, o, v, p), r, strs, phandle);
    case NopCons(r) => WithPhandleSame(AfterNop(s), r, strs, phandle);
    case NodeCons(n, p, k, r) =>
      WithPhandleSame(Inside(s, n, p, r), k, strs, phandle);
      WithPhandleSame(AfterNode(s, n, p, k), r, strs, phandle);
      var one := [Cursor(s, f)];
      FirstWithOne(Cursor(s, f), strs, phandle);
      FirstWithConcat(one, Preorder(Inside(s, n, p, r), k), strs, phandle);
      FirstWithConcat(one + Preorder(Inside(s, n, p, r), k), Preorder(AfterNode(s, n, p, k), r), strs, phandle);
  }

  lemma FirstWithOne(c: Cursor, strs: seq<byte>, phandle: u32)
    requires c.here.NodeCons? && NamesOk(c.here.kids, strs)
    ensures FirstWith([c], strs, phandle) == if PhandleOf(Decode(c.here.kids, strs)) == phandle then Some(c) else None
  {
    hide PhandleOf;
    assert [c][1..] == [];
  }
}
