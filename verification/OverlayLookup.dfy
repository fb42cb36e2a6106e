/** An applied overlay, looked up by path: renumbering, reference update and merge put together. */
module OverlayLookups {
  import opened Bytes
  import opened Trees
  import opened Merges
  import opened MergeRooms
  import opened Phandles
  import opened References
  import opened Fragments
  import opened Paths
  import opened FdtPath
  import opened FdtReferences
  import opened FdtOverlayApply

  // ---------------------------------------------------------------- where a place is, by path

  /** Names of the nodes that enclose a place. */
  function PathTo(p: Place): seq<seq<byte>> {
    match p
    case TTop => []
    case TAfterProp(u, _, _) => PathTo(u)
    case TAfterNode(u, _, _) => PathTo(u)
    case TInside(u, n, _) => PathTo(u) + [n]
  }

  /** Following the path leads to this place: no earlier sibling has the name, here and around every enclosing node. */
  predicate Leads(p: Place, name: seq<byte>) {
    match p
    case TTop => true
    case TAfterProp(u, _, _) => Leads(u, name)
    case TAfterNode(u, n, _) => n != name && Leads(u, name)
    case TInside(u, n, _) => Leads(u, n)
  }

  /** What is put at a place is found there by its path. */
  lemma {:induction false} GraftFollow(p: Place, t: Tree, path: seq<seq<byte>>)
    requires path != [] && Leads(p, path[0])
    ensures Follow(Graft(p, t), PathTo(p) + path) == Follow(t, path)
  {
    match p
    case TTop => assert PathTo(p) + path == path;
    case TAfterProp(u, n, v) => GraftFollow(u, TProp(n, v, t), path);
    case TAfterNode(u, n, k) => GraftFollow(u, TNode(n, k, t), path);
    case TInside(u, n, r) =>
      GraftFollow(u, TNode(n, t, r), [n] + path);
      assert PathTo(p) + path == PathTo(u) + ([n] + path);
      assert ([n] + path)[1..] == path;
  }

  lemma {:induction false} FollowOn(t: Tree, a: seq<seq<byte>>, b: seq<seq<byte>>)
    ensures Follow(t, a + b) == match Follow(t, a) case None => None case Some(k) => Follow(k, b)
    decreases |a|
  {
    if a == [] {
      assert a + b == b;
    } else if KidOf(t, a[0]).Some? {
      FollowOn(KidOf(t, a[0]).value, a[1..], b);
      assert (a + b)[1..] == a[1..] + b;
    }
  }

  lemma GetOn(t: Tree, a: seq<seq<byte>>, b: seq<seq<byte>>, prop: seq<byte>)
    requires Follow(t, a).Some?
    ensures Get(t, a + b, prop) == Get(Follow(t, a).value, b, prop)
    ensures PhandleAt(t, a + b) == PhandleAt(Follow(t, a).value, b)
  {
    hide Follow, Get, PhandleOf;
    FollowOn(t, a, b);
    GetFollows(t, a + b, prop);
    GetFollows(Follow(t, a).value, b, prop);
  }

  // ---------------------------------------------------------------- one fragment among others

  /** A fragment's target in the base that the fragments in front leave, its items, and the fragments behind it. */
  datatype Landed = Landed(at: TCursor, part: Tree, later: Tree)

  /** Where the fragment of that name arrives; None where it is not reached. */
  function Landing(base: Tree, frags: Tree, name: seq<byte>): (r: Option<Landed>)
    requires base.TNode?
    ensures r.Some? ==> r.value.at.here.TNode? && MergedAt(r.value.at, r.value.part).TNode?
    decreases frags
  {
    match frags
    case TNil => None
    case TProp(_, _, rest) => Landing(base, rest, name)
    case TNode(n, k, rest) =>
      match ChildOf(k, OVERLAY)
      case None => if n == name then None else Landing(base, rest, name)
      case Some(part) =>
        match GoalOf(base, k)
        case Fails(_) => None
        case Reach(c) =>
          MergedIsNode(base, k, part);
          if n == name then Some(Landed(c, part, rest)) else Landing(MergedAt(c, part), rest, name)
  }

  lemma MergedIsNode(base: Tree, frag: Tree, ov: Tree)
    requires base.TNode? && GoalOf(base, frag).Reach?
    ensures MergedAt(GoalOf(base, frag).at, ov).TNode?
  {
    hide Merge;
    var c := GoalOf(base, frag).at;
    GraftKeepsRoot(c.place, c.here, TNode(c.here.name, Merge(c.here.kids, ov), c.here.rest));
  }

  /** The merge goes on from there. */
  lemma {:induction false} LandingMerges(base: Tree, frags: Tree, name: seq<byte>)
    requires base.TNode? && Landing(base, frags, name).Some?
    ensures var l := Landing(base, frags, name).value;
      && MergeFragments(base, frags) == MergeFragments(MergedAt(l.at, l.part), l.later)
      && KidOf(frags, name).Some? && ChildOf(KidOf(frags, name).value, OVERLAY) == Some(l.part)
    decreases frags
  {
    hide ChildOf, GoalOf, MergedAt;
    match frags
    case TProp(_, _, rest) => LandingMerges(base, rest, name);
    case TNode(n, k, rest) =>
      if ChildOf(k, OVERLAY).None? {
        LandingMerges(base, rest, name);
      } else {
        MergedIsNode(base, k, ChildOf(k, OVERLAY).value);
        if n != name {
          LandingMerges(MergedAt(GoalOf(base, k).at, ChildOf(k, OVERLAY).value), rest, name);
        }
      }
    case TNil =>
  }

  /** Path of a cursor's node. */
  function PathOf(c: TCursor): seq<seq<byte>>
    requires c.here.TNode?
  {
    PathTo(c.place) + [c.here.name]
  }

  /** Merging `part` at `c` does not set that property: the node is elsewhere, or the part does not have it. */
  ghost predicate PartSpares(c: TCursor, part: Tree, path: seq<seq<byte>>, prop: seq<byte>)
    requires c.here.TNode?
  {
    PathOf(c) <= path ==>
      && Leads(c.place, c.here.name) && Clean(c.here.kids, part)
      && Get(part, path[|PathOf(c)|..], prop).None?
  }

  /** The fragments all reach their targets, and none of them sets that property. */
  ghost predicate LaterSpares(base: Tree, frags: Tree, path: seq<seq<byte>>, prop: seq<byte>)
    requires base.TNode?
    decreases frags
  {
    match frags
    case TNil => true
    case TProp(_, _, r) => LaterSpares(base, r, path, prop)
    case TNode(_, k, r) =>
      match ChildOf(k, OVERLAY)
      case None => LaterSpares(base, r, path, prop)
      case Some(part) =>
        match GoalOf(base, k)
        case Fails(_) => false
        case Reach(c) =>
          MergedIsNode(base, k, part);
          PartSpares(c, part, path, prop) && LaterSpares(MergedAt(c, part), r, path, prop)
  }

  /** Nodes that are not fragments set nothing. */
  lemma {:induction false} NothingLater(base: Tree, frags: Tree, path: seq<seq<byte>>, prop: seq<byte>)
    requires base.TNode? && NoFragment(frags)
    ensures LaterSpares(base, frags, path, prop)
    decreases frags
  {
    match frags
    case TNil =>
    case TProp(_, _, r) => NothingLater(base, r, path, prop);
    case TNode(_, _, r) => NothingLater(base, r, path, prop);
  }

  predicate NoFragment(t: Tree) {
    match t
    case TNil => true
    case TProp(_, _, r) => NoFragment(r)
    case TNode(_, k, r) => ChildOf(k, OVERLAY).None? && NoFragment(r)
  }

  /** What is put at a place is not seen by paths that do not go there, or that find the same there. */
  lemma {:induction false} GraftElsewhere(p: Place, t: Tree, u: Tree, path: seq<seq<byte>>, prop: seq<byte>)
    requires PathTo(p) <= path ==> Get(t, path[|PathTo(p)|..], prop) == Get(u, path[|PathTo(p)|..], prop)
    ensures Get(Graft(p, t), path, prop) == Get(Graft(p, u), path, prop)
  {
    match p
    case TTop => assert path[0..] == path;
    case TAfterProp(q, n, v) => GraftElsewhere(q, TProp(n, v, t), TProp(n, v, u), path, prop);
    case TAfterNode(q, n, k) => GraftElsewhere(q, TNode(n, k, t), TNode(n, k, u), path, prop);
    case TInside(q, n, r) =>
      if PathTo(q) <= path {
        InsideElsewhere(q, n, r, t, u, path, prop);
      }
      GraftElsewhere(q, TNode(n, t, r), TNode(n, u, r), path, prop);
  }

  lemma InsideElsewhere(q: Place, n: seq<byte>, r: Tree, t: Tree, u: Tree, path: seq<seq<byte>>, prop: seq<byte>)
    requires PathTo(q) <= path
    requires PathTo(q) + [n] <= path ==> Get(t, path[|PathTo(q)| + 1..], prop) == Get(u, path[|PathTo(q)| + 1..], prop)
    ensures Get(TNode(n, t, r), path[|PathTo(q)|..], prop) == Get(TNode(n, u, r), path[|PathTo(q)|..], prop)
  {
    var s := path[|PathTo(q)|..];
    if s != [] && s[0] == n {
      assert PathTo(q) + [n] <= path;
      assert s[1..] == path[|PathTo(q)| + 1..];
    }
  }

  /** So a merge that spares a property leaves it as it is. */
  lemma PartKeeps(c: TCursor, part: Tree, path: seq<seq<byte>>, prop: seq<byte>)
    requires c.here.TNode? && PartSpares(c, part, path, prop)
    ensures Get(MergedAt(c, part), path, prop) == Get(Graft(c.place, c.here), path, prop)
  {
    hide Merge, Clean, Leads, Graft;
    var n, at := c.here.name, PathOf(c);
    var t := TNode(n, Merge(c.here.kids, part), c.here.rest);
    assert c.here == TNode(n, c.here.kids, c.here.rest);
    if at <= path {
      MergeLookup(c.here.kids, part, path[|at|..], prop);
    }
    if PathTo(c.place) <= path {
      InsideElsewhere(c.place, n, c.here.rest, Merge(c.here.kids, part), c.here.kids, path, prop);
    }
    GraftElsewhere(c.place, t, c.here, path, prop);
  }

  /** And so do the later fragments. */
  lemma {:induction false} LaterKeeps(base: Tree, frags: Tree, path: seq<seq<byte>>, prop: seq<byte>)
    requires base.TNode? && LaterSpares(base, frags, path, prop)
    ensures MergeFragments(base, frags).Merged?
      && Get(MergeFragments(base, frags).base, path, prop) == Get(base, path, prop)
    decreases frags
  {
    hide ChildOf, GoalOf, MergedAt, PartSpares, Get;
    match frags
    case TNil =>
    case TProp(_, _, r) => LaterKeeps(base, r, path, prop);
    case TNode(_, k, r) =>
      if ChildOf(k, OVERLAY).None? {
        LaterKeeps(base, r, path, prop);
      } else {
        var part, c := ChildOf(k, OVERLAY).value, GoalOf(base, k).at;
        MergedIsNode(base, k, part);
        PartKeeps(c, part, path, prop);
        LaterKeeps(MergedAt(c, part), r, path, prop);
      }
  }

  // ---------------------------------------------------------------- the shape of the overlay survives

  lemma {:induction false} ShapeKid(t: Tree, u: Tree, name: seq<byte>)
    requires SameShape(t, u)
    ensures KidOf(t, name).Some? <==> KidOf(u, name).Some?
    ensures KidOf(t, name).Some? ==> SameShape(KidOf(t, name).value, KidOf(u, name).value)
    ensures KidNames(t) == KidNames(u)
  {
    match t
    case TNil =>
    case TProp(_, _, r) => ShapeKid(r, u.rest, name);
    case TNode(_, _, r) => ShapeKid(r, u.rest, name);
  }

  lemma {:induction false} ShapeFollow(t: Tree, u: Tree, path: seq<seq<byte>>)
    requires SameShape(t, u)
    ensures Follow(t, path).Some? <==> Follow(u, path).Some?
    ensures Follow(t, path).Some? ==> SameShape(Follow(t, path).value, Follow(u, path).value)
    decreases |path|
  {
    hide SameShape;
    if path != [] {
      ShapeKid(t, u, path[0]);
      if KidOf(t, path[0]).Some? {
        ShapeFollow(KidOf(t, path[0]).value, KidOf(u, path[0]).value, path[1..]);
      }
    }
  }

  lemma AdoptedSame(ov: Tree, delta: u32)
    ensures SameShape(ov, Adopted(ov, delta))
  {
    hide Renumbered, Bumped, ChildOf, SameShape;
    var mid := Renumbered(ov, delta);
    RenumberedShape(ov, delta);
    if ChildOf(mid, LOCAL_FIXUPS).Some? {
      BumpedShape(mid, ChildOf(mid, LOCAL_FIXUPS).value, delta);
      ShapeTrans(ov, mid, Adopted(ov, delta));
    }
  }

  // ---------------------------------------------------------------- the references after the merge

  /** The overlay items of a fragment, by path from the overlay's root. */
  function Part(fragment: seq<byte>): seq<seq<byte>> { [fragment, OVERLAY] }

  lemma TwoDown(t: Tree, a: seq<byte>, b: seq<byte>)
    requires KidOf(t, a).Some?
    ensures Follow(t, [a, b]) == KidOf(KidOf(t, a).value, b)
  {
    hide KidOf;
    assert [a, b][1..] == [b] && [b][1..] == [];
    var k := KidOf(t, a).value;
    if KidOf(k, b).Some? {
      assert Follow(k, [b]) == Follow(KidOf(k, b).value, []);
    }
  }

  /** Path of the target node of that fragment. */
  function TargetPath(base: Tree, ov: Tree, fragment: seq<byte>): seq<seq<byte>>
    requires base.TNode? && Landing(base, ov, fragment).Some?
  {
    PathOf(Landing(base, ov, fragment).value.at)
  }

  /** The first node that answers to the name is the one of that name. */
  ghost predicate PlainKid(t: Tree, name: seq<byte>): (r: bool)
    ensures r ==> KidOf(t, name).Some?
  {
    match t
    case TNil => false
    case TProp(_, _, r) => PlainKid(r, name)
    case TNode(n, _, r) => n == name || (!Answers(n, name) && PlainKid(r, name))
  }

  lemma {:induction false} PlainChild(t: Tree, name: seq<byte>)
    requires PlainKid(t, name)
    ensures ChildOf(t, name) == KidOf(t, name)
  {
    hide Answers, NameMatch;
    match t
    case TProp(_, _, r) => PlainChild(r, name);
    case TNode(n, _, r) =>
      NameMatchMeans(n, name);
      AnswersItself(name);
      if n != name {
        PlainChild(r, name);
      }
    case TNil =>
  }

  lemma AnswersItself(name: seq<byte>)
    ensures Answers(name, name)
  {
  }

  /**
   The fragment reaches its target, whose path leads to it, every name in it means one node, and no later fragment
   sets that property of the node at `path` below the target.
   */
  ghost predicate Arrives(base: Tree, ov: Tree, fragment: seq<byte>, path: seq<seq<byte>>, prop: seq<byte>) {
    && base.TNode? && KidOf(ov, fragment).Some? && PlainKid(KidOf(ov, fragment).value, OVERLAY)
    && Landing(base, ov, fragment).Some?
    && var l := Landing(base, ov, fragment).value;
       && Leads(l.at.place, l.at.here.name) && Clean(l.at.here.kids, l.part)
       && LaterSpares(MergedAt(l.at, l.part), l.later, PathOf(l.at) + path, prop)
  }

  /** The fragment's items are the part that is merged. */
  lemma PartIs(base: Tree, ov: Tree, fragment: seq<byte>)
    requires base.TNode? && KidOf(ov, fragment).Some? && PlainKid(KidOf(ov, fragment).value, OVERLAY)
    requires Landing(base, ov, fragment).Some?
    ensures Follow(ov, Part(fragment)) == Some(Landing(base, ov, fragment).value.part)
  {
    hide Landing, MergeFragments, MergedAt, PlainKid;
    LandingMerges(base, ov, fragment);
    PlainChild(KidOf(ov, fragment).value, OVERLAY);
    TwoDown(ov, fragment, OVERLAY);
  }

  /** Below its target the merged part is found by the target's path. */
  lemma MergedRead(c: TCursor, ov: Tree, path: seq<seq<byte>>, prop: seq<byte>)
    requires c.here.TNode? && Leads(c.place, c.here.name)
    ensures Get(MergedAt(c, ov), PathOf(c) + path, prop) == Get(Merge(c.here.kids, ov), path, prop)
  {
    hide Merge, Graft, Get;
    var n, at := c.here.name, PathOf(c);
    var t := TNode(n, Merge(c.here.kids, ov), c.here.rest);
    GraftFollow(c.place, t, [n] + path);
    assert at + path == PathTo(c.place) + ([n] + path);
    assert ([n] + path)[1..] == path;
    GetFollows(MergedAt(c, ov), at + path, prop);
    GetFollows(Merge(c.here.kids, ov), path, prop);
  }

  /** A property below a target after the whole merge: the fragment's, or else what the target had. */
  lemma Arrived(base: Tree, ov: Tree, fragment: seq<byte>, path: seq<seq<byte>>, prop: seq<byte>)
    requires Arrives(base, ov, fragment, path, prop)
    ensures MergeFragments(base, ov).Merged?
    ensures var r, mine := MergeFragments(base, ov).base, Get(ov, Part(fragment) + path, prop);
      Get(r, TargetPath(base, ov, fragment) + path, prop)
      == if mine.Some? then mine else Get(Landing(base, ov, fragment).value.at.here.kids, path, prop)
  {
    hide Landing, Clean, Leads, LaterSpares, MergedAt, Merge, Get, Follow, MergeFragments, PlainKid, PhandleOf;
    var l := Landing(base, ov, fragment).value;
    LandingMerges(base, ov, fragment);
    PartIs(base, ov, fragment);
    GetOn(ov, Part(fragment), path, prop);
    MergedRead(l.at, l.part, path, prop);
    MergeLookup(l.at.here.kids, l.part, path, prop);
    LaterKeeps(MergedAt(l.at, l.part), l.later, PathOf(l.at) + path, prop);
  }

  // ---------------------------------------------------------------- fragments that name their target by path

  /** So it is at every step. */
  ghost predicate PlainPath(t: Tree, names: seq<seq<byte>>)
    decreases |names|
  {
    names == [] || (PlainKid(t, names[0]) && PlainPath(KidOf(t, names[0]).value, names[1..]))
  }

  lemma {:induction false} FindKidPlain(p: Place, t: Tree, name: seq<byte>)
    requires PlainKid(t, name) && Leads(p, name)
    ensures var r := FindKid(p, t, name);
      && r.Some? && r.value.here.TNode? && r.value.here.name == name && KidOf(t, name) == Some(r.value.here.kids)
      && PathTo(r.value.place) == PathTo(p) && Leads(r.value.place, name)
    decreases t
  {
    hide Answers, NameMatch, Graft;
    match t
    case TProp(n, v, r) => FindKidPlain(TAfterProp(p, n, v), r, name);
    case TNode(n, k, r) =>
      NameMatchMeans(n, name);
      AnswersItself(name);
      if n != name {
        FindKidPlain(TAfterNode(p, n, k), r, name);
      }
    case TNil =>
  }

  /** Then an absolute path spelled with these names leads to the node that they name. */
  lemma {:induction false} LookupSpelled(c: TCursor, path: seq<byte>, names: seq<seq<byte>>)
    requires c.here.TNode? && Leads(c.place, c.here.name) && Spells(path, names) && PlainPath(c.here.kids, names)
    ensures var r := Lookup(c, path);
      && r.Some? && r.value.here.TNode? && PathOf(r.value) == PathOf(c) + names
      && Leads(r.value.place, r.value.here.name) && Follow(c.here.kids, names) == Some(r.value.here.kids)
    decreases |names|
  {
    hide FindKid, Graft, PlainKid, ComponentLen, SpellsFirst, Lookup, Follow, Leads, Spells, PathTo;
    if names == [] {
      SpelledNone(path);
      LookupSlashes(c, path, |path|);
      LookupNothing(c);
      assert Follow(c.here.kids, names) == Some(c.here.kids) by { FollowNothing(c.here.kids); }
    } else {
      var name, p := names[0], TInside(c.place, c.here.name, c.here.rest);
      var k := SpelledComponent(path, names);
      LookupSlashes(c, path, k);
      LookupStep(c, path[k..]);
      InsideLeads(c);
      FindKidPlain(p, c.here.kids, name);
      var d := FindKid(p, c.here.kids, name).value;
      LookupSpelled(d, path[k + |name|..], names[1..]);
      FollowFirst(c.here.kids, names);
      assert PathOf(c) + names == PathOf(d) + names[1..];
    }
  }

  lemma FollowNothing(t: Tree)
    ensures Follow(t, []) == Some(t)
  {
  }

  lemma FollowFirst(t: Tree, names: seq<seq<byte>>)
    requires names != [] && KidOf(t, names[0]).Some?
    ensures Follow(t, names) == Follow(KidOf(t, names[0]).value, names[1..])
  {
  }

  lemma InsideLeads(c: TCursor)
    requires c.here.TNode? && Leads(c.place, c.here.name)
    ensures var p := TInside(c.place, c.here.name, c.here.rest);
      PathTo(p) == PathOf(c) && forall name :: Leads(p, name)
  {
  }

  lemma LookupNothing(c: TCursor)
    requires c.here.TNode?
    ensures Lookup(c, []) == Some(c)
  {
  }

  lemma LookupStep(c: TCursor, path: seq<byte>)
    requires c.here.TNode? && path != [] && path[0] != SLASH
    ensures var n, r := ComponentLen(path), FindKid(TInside(c.place, c.here.name, c.here.rest), c.here.kids,
        path[..ComponentLen(path)]);
      r.Some? ==> Lookup(c, path) == Lookup(r.value, path[n..])
  {
    hide FindKid, Graft;
  }

  lemma SpelledNone(path: seq<byte>)
    requires Spells(path, [])
    ensures path[|path|..] == [] && forall i :: 0 <= i < |path| ==> path[i] == SLASH
  {
  }

  /** Where the first name of a spelled path stands. */
  lemma SpelledComponent(path: seq<byte>, names: seq<seq<byte>>) returns (k: nat)
    requires names != [] && Spells(path, names)
    ensures var name := names[0];
      && k + |name| <= |path| && path[k..] != [] && path[k..][0] != SLASH && ComponentLen(path[k..]) == |name|
      && path[k..][..|name|] == name && path[k..][|name|..] == path[k + |name|..]
      && Spells(path[k + |name|..], names[1..]) && forall i :: 0 <= i < k ==> path[i] == SLASH
  {
    hide ComponentLen;
    k :| 0 < k <= |path| && SpellsFirst(path, k, names[0]) && Spells(path[k + |names[0]|..], names[1..]);
    var rest := path[k + |names[0]|..];
    assert path[k..] == names[0] + rest;
    ComponentOf(names[0], rest);
  }

  lemma {:induction false} LookupSlashes(c: TCursor, path: seq<byte>, k: nat)
    requires c.here.TNode? && k <= |path| && forall i :: 0 <= i < k ==> path[i] == SLASH
    ensures Lookup(c, path) == Lookup(c, path[k..])
    decreases k
  {
    hide Graft, FindKid, ComponentLen;
    if k == 0 {
      assert path[0..] == path;
    } else {
      LookupSlashes(c, path[1..], k - 1);
      assert path[1..][k - 1..] == path[k..];
    }
  }

  /** The nodes in front of the first one of that name. */
  function FrontOf(t: Tree, name: seq<byte>): Tree {
    match t
    case TNil => TNil
    case TProp(n, v, r) => TProp(n, v, FrontOf(r, name))
    case TNode(n, k, r) => if n == name then TNil else TNode(n, k, FrontOf(r, name))
  }

  /** With the first one of that name. */
  function UpTo(t: Tree, name: seq<byte>): Tree {
    match t
    case TNil => TNil
    case TProp(n, v, r) => TProp(n, v, UpTo(r, name))
    case TNode(n, k, r) => if n == name then TNode(n, k, TNil) else TNode(n, k, UpTo(r, name))
  }

  /** What is behind it. */
  function BackOf(t: Tree, name: seq<byte>): Tree {
    match t
    case TNil => TNil
    case TProp(_, _, r) => BackOf(r, name)
    case TNode(n, _, r) => if n == name then r else BackOf(r, name)
  }

  /** A fragment arrives in the base that the ones in front of it leave. */
  lemma {:induction false} LandsThere(base: Tree, frags: Tree, name: seq<byte>)
    requires base.TNode? && MergeFragments(base, FrontOf(frags, name)).Merged? && KidOf(frags, name).Some?
    requires ChildOf(KidOf(frags, name).value, OVERLAY).Some?
    requires GoalOf(MergeFragments(base, FrontOf(frags, name)).base, KidOf(frags, name).value).Reach?
    ensures Landing(base, frags, name).Some?
    ensures Landing(base, frags, name).value.at
      == GoalOf(MergeFragments(base, FrontOf(frags, name)).base, KidOf(frags, name).value).at
    ensures var l := Landing(base, frags, name).value;
      MergeFragments(base, UpTo(frags, name)) == Merged(MergedAt(l.at, l.part)) && l.later == BackOf(frags, name)
    decreases frags
  {
    hide ChildOf, GoalOf, MergedAt;
    match frags
    case TProp(_, _, rest) => LandsThere(base, rest, name);
    case TNode(n, k, rest) =>
      if n != name {
        if ChildOf(k, OVERLAY).None? {
          LandsThere(base, rest, name);
        } else {
          MergedIsNode(base, k, ChildOf(k, OVERLAY).value);
          LandsThere(MergedAt(GoalOf(base, k).at, ChildOf(k, OVERLAY).value), rest, name);
        }
      }
    case TNil =>
  }

  /**
   The merge of a fragment that names its target by path: below the node with these names, in the base that the
   fragments in front of it leave, the fragment's values are read, and for the rest what was there.
   */
  lemma MergedByPath(base: Tree, frags: Tree, fragment: seq<byte>, p: seq<byte>, names: seq<seq<byte>>,
      path: seq<seq<byte>>, prop: seq<byte>)
    requires base.TNode? && KidOf(frags, fragment).Some? && ByPath(KidOf(frags, fragment).value, p) && Spells(p, names)
    requires MergeFragments(base, FrontOf(frags, fragment)).Merged?
    requires PlainPath(MergeFragments(base, FrontOf(frags, fragment)).base.kids, names)
    requires PlainKid(KidOf(frags, fragment).value, OVERLAY)
    requires var b1, part := MergeFragments(base, FrontOf(frags, fragment)).base, Follow(frags, Part(fragment));
      && part.Some? && Follow(b1.kids, names).Some? && Clean(Follow(b1.kids, names).value, part.value)
      && MergeFragments(base, UpTo(frags, fragment)).Merged?
      && LaterSpares(MergeFragments(base, UpTo(frags, fragment)).base, BackOf(frags, fragment),
        [b1.name] + names + path, prop)
    ensures MergeFragments(base, frags).Merged?
    ensures var b1 := MergeFragments(base, FrontOf(frags, fragment)).base;
      var mine := Get(frags, Part(fragment) + path, prop);
      Get(MergeFragments(base, frags).base, [b1.name] + names + path, prop)
      == if mine.Some? then mine else Get(b1, [b1.name] + names + path, prop)
  {
    hide MergeFragments, Landing, Clean, LaterSpares, PlainPath, Spells, Leads, MergedAt, Get, Follow, ByPath, PlainKid;
    var b1, frag := MergeFragments(base, FrontOf(frags, fragment)).base, KidOf(frags, fragment).value;
    PlainChild(frag, OVERLAY);
    GoalSpelled(b1, frag, p, names);
    LandsThere(base, frags, fragment);
    PartIs(base, frags, fragment);
    var l := Landing(base, frags, fragment).value;
    assert PathOf(l.at) + path == [b1.name] + names + path;
    Arrived(base, frags, fragment, path, prop);
    RootFollow(b1, names);
    GetOn(b1, [b1.name] + names, path, prop);
  }

  lemma RootFollow(t: Tree, names: seq<seq<byte>>)
    requires t.TNode?
    ensures Follow(t, [t.name] + names) == Follow(t.kids, names)
  {
    assert ([t.name] + names)[1..] == names;
  }

  lemma GoalSpelled(base: Tree, frag: Tree, p: seq<byte>, names: seq<seq<byte>>)
    requires base.TNode? && ByPath(frag, p) && Spells(p, names) && PlainPath(base.kids, names)
    ensures var g := GoalOf(base, frag);
      && g.Reach? && PathOf(g.at) == [base.name] + names && Leads(g.at.place, g.at.here.name)
      && Follow(base.kids, names) == Some(g.at.here.kids)
  {
    hide Dec32, PropOf, Lookup, Spells, PlainPath, Follow;
    ZeroCell();
    PathEnds(PropOf(frag, TARGET_PATH).value, p);
    LookupSpelled(TCursor(TTop, base), p, names);
  }

  /** The phandle of a node by its two properties. */
  function PhandleFrom(own: Option<seq<byte>>, linux: Option<seq<byte>>): u32 {
    if IsCell(own) then Dec32(own.value, 0) else if IsCell(linux) then Dec32(linux.value, 0) else 0
  }

  lemma PhandleGets(t: Tree, path: seq<seq<byte>>)
    ensures PhandleAt(t, path) == PhandleFrom(Get(t, path, PHANDLE), Get(t, path, LINUX_PHANDLE))
  {
    hide Dec32, Follow, Get;
    GetFollows(t, path, PHANDLE);
    GetFollows(t, path, LINUX_PHANDLE);
  }

  lemma CellStays(ov: Tree, delta: u32, q: seq<seq<byte>>, prop: seq<byte>)
    ensures var v, w := Get(ov, q, prop), Get(Adopted(ov, delta), q, prop);
      (v.Some? <==> w.Some?) && (IsCell(v) <==> IsCell(w))
  {
    hide Adopted, SameShape, Follow, Get;
    var adopted := Adopted(ov, delta);
    AdoptedSame(ov, delta);
    ShapeFollow(ov, adopted, q);
    GetFollows(ov, q, prop);
    GetFollows(adopted, q, prop);
    if Follow(ov, q).Some? {
      ShapeProp(Follow(ov, q).value, Follow(adopted, q).value, prop);
    }
  }

  /** The node has no "phandle" of its own, and the base has a node there that has one. */
  predicate HiddenPhandle(base: Tree, ov: Tree, fragment: seq<byte>, q: seq<seq<byte>>)
    requires base.TNode? && Landing(base, ov, fragment).Some?
  {
    Get(ov, Part(fragment) + q, PHANDLE).None?
      && IsCell(Get(Landing(base, ov, fragment).value.at.here.kids, q, PHANDLE))
  }

  /** Both properties that a phandle is read from arrive, and then the phandle does, unless it is hidden. */
  lemma PhandleArrives(base: Tree, ov: Tree, fragment: seq<byte>, q: seq<seq<byte>>)
    requires Arrives(base, ov, fragment, q, PHANDLE) && Arrives(base, ov, fragment, q, LINUX_PHANDLE)
    requires IsCell(Get(ov, Part(fragment) + q, PHANDLE)) || IsCell(Get(ov, Part(fragment) + q, LINUX_PHANDLE))
    ensures MergeFragments(base, ov).Merged?
    ensures PhandleAt(MergeFragments(base, ov).base, TargetPath(base, ov, fragment) + q)
         == if HiddenPhandle(base, ov, fragment, q)
            then Dec32(Get(Landing(base, ov, fragment).value.at.here.kids, q, PHANDLE).value, 0)
            else PhandleAt(ov, Part(fragment) + q)
  {
    hide Landing, Clean, Leads, LaterSpares, PlainKid, Get, MergeFragments, PhandleAt, Dec32, TargetPath;
    Arrived(base, ov, fragment, q, PHANDLE);
    Arrived(base, ov, fragment, q, LINUX_PHANDLE);
    PhandleGets(MergeFragments(base, ov).base, TargetPath(base, ov, fragment) + q);
    PhandleGets(ov, Part(fragment) + q);
  }

  /** A root with phandle 1, and a fragment for it with phandle 2 in "linux,phandle": the merged root has phandle 1. */
  lemma PhandleLost()
    ensures exists base: Tree, ov: Tree, fragment: seq<byte> ::
      && base.TNode? && PhandleAt(ov, Part(fragment)) == 2
      && MergeFragments(base, ov).Merged? && PhandleAt(MergeFragments(base, ov).base, [base.name]) == 1
  {
    hide Dec32, MergedAt;
    var one, two, name: seq<byte> := [0, 0, 0, 1], [0, 0, 0, 2], [0x66];
    var part := TProp(LINUX_PHANDLE, two, TNil);
    var frag := TProp(TARGET, one, TNode(OVERLAY, part, TNil));
    var base, ov := TNode([], TProp(PHANDLE, one, TNil), TNil), TNode(name, frag, TNil);
    OneTwo(one, two);
    TwoDown(ov, name, OVERLAY);
    LostGoal(base, frag, part, one);
    var merged := TNode([], TProp(LINUX_PHANDLE, two, TProp(PHANDLE, one, TNil)), TNil);
    assert MergeFragments(base, ov) == MergeFragments(merged, TNil) == Merged(merged);
    assert PropOf(part, PHANDLE) == None && PropOf(merged.kids, PHANDLE) == Some(one);
    assert PhandleOf(part) == 2 && PhandleOf(merged.kids) == 1;
    var root: seq<seq<byte>> := [[]];
    assert root[1..] == [] && Follow(merged, root) == Follow(merged.kids, []) == Some(merged.kids);
    assert PhandleAt(ov, Part(name)) == 2;
    assert PhandleAt(merged, root) == 1;
  }

  lemma OneTwo(one: seq<byte>, two: seq<byte>)
    requires one == [0, 0, 0, 1] && two == [0, 0, 0, 2]
    ensures Dec32(one, 0) == 1 && Dec32(two, 0) == 2
  {
  }

  lemma LostGoal(base: Tree, frag: Tree, part: Tree, one: seq<byte>)
    requires |one| == 4 && Dec32(one, 0) == 1 && part.TProp? && part.name == LINUX_PHANDLE && part.rest == TNil
    requires base == TNode([], TProp(PHANDLE, one, TNil), TNil)
    requires frag == TProp(TARGET, one, TNode(OVERLAY, part, TNil))
    ensures ChildOf(frag, OVERLAY) == Some(part) && GoalOf(base, frag) == Reach(TCursor(TTop, base))
    ensures MergedAt(TCursor(TTop, base), part) ==
      TNode([], TProp(LINUX_PHANDLE, part.val, TProp(PHANDLE, one, TNil)), TNil)
  {
    hide Dec32;
    assert NameMatch(OVERLAY, OVERLAY);
    assert PHANDLE != LINUX_PHANDLE by { assert |PHANDLE| != |LINUX_PHANDLE|; }
    assert PropOf(base.kids, LINUX_PHANDLE) == PropOf(TNil, LINUX_PHANDLE) == None;
    var now := ApplyProps(base.kids, part);
    assert now == ApplyProps(SetProp(base.kids, LINUX_PHANDLE, part.val), TNil);
    assert ApplyNodes(now, part) == ApplyNodes(now, TNil) == now;
    assert Merge(base.kids, part) == now;
  }

  /** The overlay can be adopted: its phandles can be renumbered and its lists of references worked off. */
  ghost predicate Adoptable(base: Tree, ov: Tree) {
    var delta := MaxPhandle(base);
    var mid := Renumbered(ov, delta);
    && RenumberError(ov, delta) == 0 && ChildOf(mid, LOCAL_FIXUPS).Some?
    && CleanList(mid, ChildOf(mid, LOCAL_FIXUPS).value) && Fixable(mid, ChildOf(mid, LOCAL_FIXUPS).value)
  }

  /**
   `fdt_overlay_apply` as a whole, by path: in the tree that the merge leaves, a reference cell of the overlay that is
   listed once, now below the target of its fragment, names a merged node, of the same or of another fragment, exactly
   when it named that node in the overlay.
   */
  lemma AppliedReferences(base: Tree, ov: Tree, fragment: seq<byte>, path: seq<seq<byte>>, prop: seq<byte>, o: nat,
      other: seq<byte>, q: seq<seq<byte>>)
    requires Adoptable(base, ov) && prop != PHANDLE && prop != LINUX_PHANDLE
    requires Arrives(base, Adopted(ov, MaxPhandle(base)), fragment, path, prop)
    requires var adopted := Adopted(ov, MaxPhandle(base));
      && Arrives(base, adopted, other, q, PHANDLE) && Arrives(base, adopted, other, q, LINUX_PHANDLE)
      && !HiddenPhandle(base, adopted, other, q)
    requires var cell, node := Part(fragment) + path, Part(other) + q;
      var fix := ChildOf(Renumbered(ov, MaxPhandle(base)), LOCAL_FIXUPS).value;
      && Get(ov, cell, prop).Some? && o + 4 <= |Get(ov, cell, prop).value|
      && Get(fix, cell, prop).Some? && ListedOnce(Get(fix, cell, prop).value, o)
      && PhandleAt(ov, node) != 0 && Get(fix, node, PHANDLE).None? && Get(fix, node, LINUX_PHANDLE).None?
    ensures MergeFragments(base, Adopted(ov, MaxPhandle(base))).Merged?
    ensures forall room: Room :: FragsCost(Adopted(ov, MaxPhandle(base))) <= room.free ==>
      ApplyError(base, ov, room) == 0
    ensures var adopted := Adopted(ov, MaxPhandle(base)); var r := MergeFragments(base, adopted).base;
      var value := Get(r, TargetPath(base, adopted, fragment) + path, prop);
      && value.Some? && o + 4 <= |value.value|
      && (Dec32(value.value, o) == PhandleAt(r, TargetPath(base, adopted, other) + q)
          <==> Dec32(Get(ov, Part(fragment) + path, prop).value, o) == PhandleAt(ov, Part(other) + q))
  {
    hide Renumbered, Bumped, RenumberError, Fixable, CleanList, Get, PhandleAt, MaxPhandle, Landing, HiddenPhandle,
      LaterSpares, Clean,
      ListedOnce, Dec32, MergedAt, Leads, MergeFragments, PlainKid, TargetPath;
    var delta := MaxPhandle(base);
    var adopted, fix := Adopted(ov, delta), ChildOf(Renumbered(ov, delta), LOCAL_FIXUPS).value;
    ReferencesKept(ov, fix, delta, Part(fragment) + path, prop, o, Part(other) + q);
    Arrived(base, adopted, fragment, path, prop);
    PhandleGets(ov, Part(other) + q);
    CellStays(ov, delta, Part(other) + q, PHANDLE);
    CellStays(ov, delta, Part(other) + q, LINUX_PHANDLE);
    PhandleArrives(base, adopted, other, q);
    forall room: Room | FragsCost(adopted) <= room.free ensures ApplyError(base, ov, room) == 0 {
      FragsEnough(base, adopted, room);
    }
  }
}
