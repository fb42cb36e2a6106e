/** Overlay merge on decoded trees, and what it means for lookups by path. */
module Merges {
  import opened Bytes
  import opened Trees

  /** The overlay's properties set one after the other. */
  function ApplyProps(base: Tree, ov: Tree): Tree
    decreases ov
  {
    match ov
    case TProp(n, v, r) => ApplyProps(SetProp(base, n, v), r)
    case _ => base
  }

  /** One overlay subnode: merged into the base subnode that answers to its name, or created. */
  function ApplyChild(base: Tree, name: seq<byte>, kids: Tree): Tree
    decreases kids, 2
  {
    match ChildOf(base, name)
    case Some(k) => SetChild(base, name, Merge(k, kids))
    case None => AddChild(base, name, Merge(TNil, kids))
  }

  function ApplyNodes(base: Tree, ov: Tree): Tree
    decreases ov, 0
  {
    match ov
    case TNil => base
    case TProp(_, _, r) => ApplyNodes(base, r)
    case TNode(n, k, r) => ApplyNodes(ApplyChild(base, n, k), r)
  }

  /** The items of a node after an overlay node has been applied to it. */
  function Merge(base: Tree, ov: Tree): Tree
    decreases ov, 1
  {
    ApplyNodes(ApplyProps(base, ov), ov)
  }

  // ---------------------------------------------------------------- room

  /** Bytes that setting an overlay's properties takes at most: each with a new cell and a new name. */
  function PropsCost(ov: Tree): nat {
    match ov
    case TProp(n, v, r) => 12 + Align4(|v|) + |n| + 1 + PropsCost(r)
    case _ => 0
  }

  /** And its subnodes: each created with its name, then filled. */
  function NodesCost(ov: Tree): nat {
    match ov
    case TNil => 0
    case TProp(_, _, r) => NodesCost(r)
    case TNode(n, k, r) => 8 + Align4(|n| + 1) + PropsCost(k) + NodesCost(k) + NodesCost(r)
  }

  /** Bytes a merge takes at most. */
  function Cost(ov: Tree): nat { PropsCost(ov) + NodesCost(ov) }

  // ---------------------------------------------------------------- lookup by path

  /** The subnode of exactly that name. */
  function KidOf(t: Tree, name: seq<byte>): Option<Tree> {
    match t
    case TNil => None
    case TProp(_, _, r) => KidOf(r, name)
    case TNode(n, k, r) => if n == name then Some(k) else KidOf(r, name)
  }

  function KidOrNil(t: Tree, name: seq<byte>): Tree {
    match KidOf(t, name) case Some(k) => k case None => TNil
  }

  /** The value of a property of the node reached by following `path`. */
  function Get(t: Tree, path: seq<seq<byte>>, prop: seq<byte>): Option<seq<byte>>
    decreases |path|
  {
    if path == [] then PropOf(t, prop)
    else match KidOf(t, path[0])
      case None => None
      case Some(k) => Get(k, path[1..], prop)
  }

  /** Whether following `path` reaches a node. */
  predicate Reaches(t: Tree, path: seq<seq<byte>>)
    decreases |path|
  {
    path == [] || (KidOf(t, path[0]).Some? && Reaches(KidOf(t, path[0]).value, path[1..]))
  }

  function KidNames(t: Tree): set<seq<byte>> {
    match t
    case TNil => {}
    case TProp(_, _, r) => KidNames(r)
    case TNode(n, _, r) => {n} + KidNames(r)
  }

  predicate DistinctProps(t: Tree) {
    match t
    case TProp(n, _, r) => PropOf(r, n).None? && DistinctProps(r)
    case _ => true
  }

  predicate DistinctKids(t: Tree) {
    match t
    case TNil => true
    case TProp(_, _, r) => DistinctKids(r)
    case TNode(n, _, r) => n !in KidNames(r) && DistinctKids(r)
  }

  /** No overlay name is short for a differently named sibling with a unit address. */
  ghost predicate NoShorthand(names: set<seq<byte>>, ov: set<seq<byte>>) {
    forall m, n :: m in names && n in ov && NameMatch(m, n) ==> m == n
  }

  /** Distinct overlay names and no unit-address shorthand, at every node the merge visits. */
  ghost predicate Clean(base: Tree, ov: Tree)
    decreases ov, 1
  {
    DistinctProps(ov) && DistinctKids(ov) && NoShorthand(KidNames(base) + KidNames(ov), KidNames(ov))
      && CleanKids(base, ov)
  }

  ghost predicate CleanKids(base: Tree, ov: Tree)
    decreases ov, 0
  {
    match ov
    case TNil => true
    case TProp(_, _, r) => CleanKids(base, r)
    case TNode(n, k, r) => Clean(KidOrNil(base, n), k) && CleanKids(base, r)
  }

  // Single edits, seen by the lookups.

  lemma {:induction false} SetPropKids(t: Tree, p: seq<byte>, v: seq<byte>, name: seq<byte>)
    ensures KidOf(SetProp(t, p, v), name) == KidOf(t, name) && KidNames(SetProp(t, p, v)) == KidNames(t)
  {
    if PropOf(t, p).Some? {
      ReplacePropKids(t, p, v, name);
    }
  }

  /** Subnodes are looked up behind the properties only. */
  lemma {:induction false} BehindKids(t: Tree, name: seq<byte>)
    ensures KidOf(t, name) == KidOf(Behind(t), name) && ChildOf(t, name) == ChildOf(Behind(t), name)
    ensures KidNames(t) == KidNames(Behind(t))
  {
    match t
    case TProp(_, _, r) => BehindKids(r, name);
    case _ =>
  }

  lemma {:induction false} ReplacePropKids(t: Tree, p: seq<byte>, v: seq<byte>, name: seq<byte>)
    ensures KidOf(ReplaceProp(t, p, v), name) == KidOf(t, name) && KidNames(ReplaceProp(t, p, v)) == KidNames(t)
  {
    match t
    case TProp(n, w, r) => ReplacePropKids(r, p, v, name);
    case _ =>
  }

  lemma {:induction false} ApplyPropsKids(base: Tree, ov: Tree, name: seq<byte>)
    ensures KidOf(ApplyProps(base, ov), name) == KidOf(base, name) && KidNames(ApplyProps(base, ov)) == KidNames(base)
    decreases ov
  {
    match ov
    case TProp(n, v, r) =>
      SetPropKids(base, n, v, name);
      ApplyPropsKids(SetProp(base, n, v), r, name);
    case _ =>
  }

  lemma {:induction false} ApplyPropsReads(base: Tree, ov: Tree, p: seq<byte>)
    requires DistinctProps(ov)
    ensures PropOf(ApplyProps(base, ov), p) == if PropOf(ov, p).Some? then PropOf(ov, p) else PropOf(base, p)
    decreases ov
  {
    match ov
    case TProp(n, v, r) =>
      SetPropReads(base, n, v, p);
      ApplyPropsReads(SetProp(base, n, v), r, p);
    case _ =>
  }

  lemma {:induction false} ChildOfExact(t: Tree, name: seq<byte>)
    requires NoShorthand(KidNames(t), {name})
    ensures ChildOf(t, name) == KidOf(t, name)
  {
    match t
    case TNil =>
    case TProp(_, _, r) => ChildOfExact(r, name);
    case TNode(n, k, r) =>
      assert NameMatch(name, name);
      assert n in KidNames(t) && KidNames(r) <= KidNames(t);
      if n != name {
        ChildOfExact(r, name);
      }
  }

  lemma {:induction false} SetChildReads(t: Tree, name: seq<byte>, kids: Tree, other: seq<byte>, p: seq<byte>)
    requires NoShorthand(KidNames(t), {name}) && KidOf(t, name).Some?
    ensures var u := SetChild(t, name, kids);
      && KidOf(u, other) == (if other == name then Some(kids) else KidOf(t, other))
      && KidNames(u) == KidNames(t) && PropOf(u, p) == PropOf(t, p)
  {
    match t
    case TProp(_, _, r) => SetChildReads(r, name, kids, other, p);
    case TNode(n, k, r) =>
      assert n in KidNames(t) && KidNames(r) <= KidNames(t);
      assert NameMatch(name, name);
      if n != name {
        SetChildReads(r, name, kids, other, p);
      }
    case TNil =>
  }

  lemma {:induction false} AddChildReads(t: Tree, name: seq<byte>, kids: Tree, other: seq<byte>, p: seq<byte>)
    ensures var u := AddChild(t, name, kids);
      && KidOf(u, other) == (if other == name then Some(kids) else KidOf(t, other))
      && KidNames(u) == KidNames(t) + {name} && PropOf(u, p) == PropOf(t, p)
  {
    match t
    case TProp(_, _, r) => AddChildReads(r, name, kids, other, p);
    case _ =>
  }

  lemma ApplyChildReads(t: Tree, name: seq<byte>, kids: Tree, other: seq<byte>, p: seq<byte>)
    requires NoShorthand(KidNames(t), {name})
    ensures var u := ApplyChild(t, name, kids);
      && KidOf(u, other) == (if other == name then Some(Merge(KidOrNil(t, name), kids)) else KidOf(t, other))
      && KidNames(u) == KidNames(t) + {name} && PropOf(u, p) == PropOf(t, p)
  {
    ChildOfExact(t, name);
    match ChildOf(t, name)
    case Some(k) =>
      SetChildReads(t, name, Merge(k, kids), other, p);
      KidNamed(t, name);
    case None => AddChildReads(t, name, Merge(TNil, kids), other, p);
  }

  lemma {:induction false} KidNamed(t: Tree, name: seq<byte>)
    ensures KidOf(t, name).Some? <==> name in KidNames(t)
  {
    match t
    case TNil =>
    case TProp(_, _, r) => KidNamed(r, name);
    case TNode(n, _, r) => KidNamed(r, name);
  }

  /** All the overlay's subnodes applied to `base`, seen by the lookups. */
  lemma {:induction false} ApplyNodesReads(base: Tree, ov: Tree, name: seq<byte>, p: seq<byte>)
    requires DistinctKids(ov) && NoShorthand(KidNames(base) + KidNames(ov), KidNames(ov))
    ensures var u := ApplyNodes(base, ov);
      && KidOf(u, name) == (match KidOf(ov, name)
                            case Some(k) => Some(Merge(KidOrNil(base, name), k))
                            case None => KidOf(base, name))
      && PropOf(u, p) == PropOf(base, p)
    decreases ov
  {
    match ov
    case TNil =>
    case TProp(_, _, r) => ApplyNodesReads(base, r, name, p);
    case TNode(n, k, r) =>
      assert NoShorthand(KidNames(base), {n}) by { assert n in KidNames(ov); }
      ApplyChildReads(base, n, k, name, p);
      var u := ApplyChild(base, n, k);
      assert KidNames(u) + KidNames(r) <= KidNames(base) + KidNames(ov) by {
        assert KidNames(u) == KidNames(base) + {n};
      }
      ApplyNodesReads(u, r, name, p);
      KidNamed(r, n);
  }

  /**
   The merge is a recursive tree merge: along every path an overlay value wins and everything else
   is as in the base; a node exists afterwards exactly when it existed on one of the sides.
   */
  lemma {:induction false} MergeLookup(base: Tree, ov: Tree, path: seq<seq<byte>>, prop: seq<byte>)
    requires Clean(base, ov)
    ensures Get(Merge(base, ov), path, prop) == if Get(ov, path, prop).Some? then Get(ov, path, prop)
      else Get(base, path, prop)
    ensures Reaches(Merge(base, ov), path) <==> Reaches(base, path) || Reaches(ov, path)
    decreases |path|
  {
    var b1 := ApplyProps(base, ov);
    var name := if path == [] then [] else path[0];
    ApplyPropsReads(base, ov, prop);
    ApplyPropsKids(base, ov, name);
    ApplyNodesReads(b1, ov, name, prop);
    if path != [] && KidOf(ov, name).Some? {
      var k := KidOf(ov, name).value;
      CleanKid(base, ov, name);
      assert KidOrNil(b1, name) == KidOrNil(base, name);
      MergeLookup(KidOrNil(base, name), k, path[1..], prop);
      NothingThere(path[1..], prop);
    }
  }

  lemma {:induction false} CleanKid(base: Tree, ov: Tree, name: seq<byte>)
    requires CleanKids(base, ov) && KidOf(ov, name).Some?
    ensures Clean(KidOrNil(base, name), KidOf(ov, name).value)
    decreases ov
  {
    match ov
    case TProp(_, _, r) => CleanKid(base, r, name);
    case TNode(n, k, r) =>
      if n != name {
        CleanKid(base, r, name);
      }
    case TNil =>
  }

  lemma NothingThere(path: seq<seq<byte>>, prop: seq<byte>)
    ensures Get(TNil, path, prop) == None && (path != [] ==> !Reaches(TNil, path))
  {
  }
}
