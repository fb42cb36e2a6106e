/** Local references of an overlay, on decoded trees: the cells that `__local_fixups__` lists. */
module References {
  import opened Bytes
  import opened Tokens
  import opened Trees
  import opened Merges
  import opened Phandles

  const LOCAL_FIXUPS: seq<byte> := // "__local_fixups__"
    [95, 95, 108, 111, 99, 97, 108, 95, 102, 105, 120, 117, 112, 115, 95, 95]

  // The list is a tree of the same shape as the overlay; its values are the byte offsets of cells that hold
  // phandles of overlay nodes. After renumbering and updating every listed cell still names the node it named.

  // ---------------------------------------------------------------- one property

  /** `delta` added, modulo 2^32, to the cell at `o`. */
  function Bump(v: seq<byte>, o: nat, delta: u32): (r: seq<byte>)
    requires o + 4 <= |v|
    ensures |r| == |v|
  {
    Put(v, o, Enc32(Wrap32(Dec32(v, o) + delta)))
  }

  /** The cells listed from index `i` on, one after the other. */
  function CellsBumped(v: seq<byte>, fix: seq<byte>, i: nat, delta: u32): (r: seq<byte>)
    requires i <= |fix| / 4
    ensures |r| == |v|
    decreases |fix| / 4 - i
  {
    if i == |fix| / 4 then v
    else
      var o: int := Dec32(fix, 4 * i);
      CellsBumped(if o + 4 <= |v| then Bump(v, o, delta) else v, fix, i + 1, delta)
  }

  /** A list of whole words, each the offset of a cell inside a value of `len` bytes. */
  predicate CellsFit(len: nat, fix: seq<byte>) {
    |fix| % 4 == 0 && forall i :: 0 <= i < |fix| / 4 ==> Dec32(fix, 4 * i) as int + 4 <= len
  }

  /** The cell at `o` shares no byte with the cells listed from `i` to `j`. */
  predicate Apart(fix: seq<byte>, o: int, i: nat, j: nat)
    requires j <= |fix| / 4
  {
    forall k :: i <= k < j ==> Dec32(fix, 4 * k) as int + 4 <= o || o + 4 <= Dec32(fix, 4 * k)
  }

  /** `o` is listed at one index and overlaps no other listed cell. */
  ghost predicate ListedOnce(fix: seq<byte>, o: nat) {
    exists j: nat :: j < |fix| / 4 && Dec32(fix, 4 * j) == o && Apart(fix, o, 0, j) && Apart(fix, o, j + 1, |fix| / 4)
  }

  lemma BumpReads(v: seq<byte>, p: nat, delta: u32, o: nat)
    requires p + 4 <= |v| && o + 4 <= |v|
    ensures p + 4 <= o || o + 4 <= p ==> Dec32(Bump(v, p, delta), o) == Dec32(v, o)
    ensures p == o ==> Dec32(Bump(v, p, delta), o) == Wrap32(Dec32(v, o) + delta)
  {
    hide Dec32, Enc32;
    var x := Enc32(Wrap32(Dec32(v, p) + delta));
    var w := Bump(v, p, delta);
    if p == o {
      assert w[o..o + 4] == x;
      DecEnc(w, o, Wrap32(Dec32(v, p) + delta));
    } else if p + 4 <= o || o + 4 <= p {
      assert w[o..o + 4] == v[o..o + 4];
      DecSlice(w, o, v, o);
    }
  }

  /** A cell no listed cell touches keeps its word. */
  lemma {:induction false} CellsElsewhere(v: seq<byte>, fix: seq<byte>, i: nat, delta: u32, o: nat)
    requires i <= |fix| / 4 && o + 4 <= |v| && Apart(fix, o, i, |fix| / 4)
    ensures Dec32(CellsBumped(v, fix, i, delta), o) == Dec32(v, o)
    decreases |fix| / 4 - i
  {
    hide Dec32, Bump;
    if i < |fix| / 4 {
      var p: int := Dec32(fix, 4 * i);
      if p + 4 <= |v| {
        BumpReads(v, p, delta, o);
        CellsElsewhere(Bump(v, p, delta), fix, i + 1, delta, o);
      } else {
        CellsElsewhere(v, fix, i + 1, delta, o);
      }
    }
  }

  /** A cell listed once moves by `delta`. */
  lemma {:induction false} CellAtIndex(v: seq<byte>, fix: seq<byte>, i: nat, delta: u32, o: nat, j: nat)
    requires i <= j < |fix| / 4 && o + 4 <= |v| && Dec32(fix, 4 * j) == o
    requires Apart(fix, o, i, j) && Apart(fix, o, j + 1, |fix| / 4)
    ensures Dec32(CellsBumped(v, fix, i, delta), o) == Wrap32(Dec32(v, o) + delta)
    decreases |fix| / 4 - i
  {
    hide Dec32, Bump;
    var p: int := Dec32(fix, 4 * i);
    if p + 4 <= |v| {
      BumpReads(v, p, delta, o);
    }
    var w := if p + 4 <= |v| then Bump(v, p, delta) else v;
    if i == j {
      CellsElsewhere(w, fix, i + 1, delta, o);
    } else {
      CellAtIndex(w, fix, i + 1, delta, o, j);
    }
  }

  lemma CellOnce(v: seq<byte>, fix: seq<byte>, delta: u32, o: nat)
    requires ListedOnce(fix, o) && o + 4 <= |v|
    ensures Dec32(CellsBumped(v, fix, 0, delta), o) == Wrap32(Dec32(v, o) + delta)
  {
    hide Dec32, CellsBumped, Apart;
    var j: nat :| j < |fix| / 4 && Dec32(fix, 4 * j) == o && Apart(fix, o, 0, j) && Apart(fix, o, j + 1, |fix| / 4);
    CellAtIndex(v, fix, 0, delta, o, j);
  }

  // ---------------------------------------------------------------- a node and the nodes below

  function PropBumped(t: Tree, name: seq<byte>, fix: seq<byte>, delta: u32): Tree {
    match PropOf(t, name)
    case Some(v) => ReplaceProp(t, name, CellsBumped(v, fix, 0, delta))
    case None => t
  }

  function PropsBumped(t: Tree, fix: Tree, delta: u32): Tree
    decreases fix
  {
    match fix
    case TProp(n, v, r) => PropsBumped(PropBumped(t, n, v, delta), r, delta)
    case _ => t
  }

  function ChildBumped(t: Tree, name: seq<byte>, fix: Tree, delta: u32): Tree
    decreases fix, 2
  {
    match ChildOf(t, name)
    case Some(k) => SetChild(t, name, Bumped(k, fix, delta))
    case None => t
  }

  function NodesBumped(t: Tree, fix: Tree, delta: u32): Tree
    decreases fix, 0
  {
    match fix
    case TNil => t
    case TProp(_, _, r) => NodesBumped(t, r, delta)
    case TNode(n, k, r) => NodesBumped(ChildBumped(t, n, k, delta), r, delta)
  }

  /** A node's items after the cells that `fix` lists for it and the nodes below have been updated. */
  function Bumped(t: Tree, fix: Tree, delta: u32): Tree
    decreases fix, 1
  {
    NodesBumped(PropsBumped(t, fix, delta), fix, delta)
  }

  predicate PropsFit(t: Tree, fix: Tree) {
    match fix
    case TProp(n, v, r) => PropOf(t, n).Some? && CellsFit(|PropOf(t, n).value|, v) && PropsFit(t, r)
    case _ => true
  }

  /** Every listed property and node exists and every listed cell fits. */
  predicate Fixable(t: Tree, fix: Tree)
    decreases fix, 1
  {
    PropsFit(t, fix) && NodesFixable(t, fix)
  }

  predicate NodesFixable(t: Tree, fix: Tree)
    decreases fix, 0
  {
    match fix
    case TNil => true
    case TProp(_, _, r) => NodesFixable(t, r)
    case TNode(n, k, r) => ChildOf(t, n).Some? && Fixable(ChildOf(t, n).value, k) && NodesFixable(t, r)
  }

  /** Every listed property is there, its list is whole words, and each names a cell inside the value. */
  lemma {:induction false} PropsFitMeans(t: Tree, fix: Tree)
    ensures PropsFit(t, fix) <==>
      forall p :: p in PropList(fix) ==>
        && PropOf(t, p.0).Some? && |p.1| % 4 == 0
        && forall i :: 0 <= i < |p.1| / 4 ==> Dec32(p.1, 4 * i) as int + 4 <= |PropOf(t, p.0).value|
    decreases fix
  {
    hide Dec32, PropOf;
    match fix
    case TProp(n, v, r) =>
      PropsFitMeans(t, r);
      assert PropList(fix)[0] == (n, v);
      assert forall p :: p in PropList(fix) <==> p == (n, v) || p in PropList(r);
    case _ =>
  }

  /** And so at every listed subnode. */
  lemma {:induction false} FixableMeans(t: Tree, fix: Tree)
    ensures Fixable(t, fix) <==>
      && PropsFit(t, fix)
      && forall k :: k in KidList(fix) ==> ChildOf(t, k.0).Some? && Fixable(ChildOf(t, k.0).value, k.1)
  {
    hide PropsFit;
    KidsFixable(t, fix);
  }

  lemma {:induction false} KidsFixable(t: Tree, fix: Tree)
    ensures NodesFixable(t, fix) <==>
      forall k :: k in KidList(fix) ==> ChildOf(t, k.0).Some? && Fixable(ChildOf(t, k.0).value, k.1)
    decreases fix
  {
    hide PropsFit, ChildOf, Fixable;
    match fix
    case TNil =>
    case TProp(_, _, r) => KidsFixable(t, r);
    case TNode(n, k, r) =>
      KidsFixable(t, r);
      assert KidList(fix)[0] == (n, k);
      assert forall x :: x in KidList(fix) <==> x == (n, k) || x in KidList(r);
  }

  // ---------------------------------------------------------------- updates keep the shape

  /** Equal up to the bytes of the values. */
  predicate SameShape(t: Tree, u: Tree) {
    match t
    case TNil => u.TNil?
    case TProp(n, v, r) => u.TProp? && n == u.name && |v| == |u.val| && SameShape(r, u.rest)
    case TNode(n, k, r) => u.TNode? && n == u.name && SameShape(k, u.kids) && SameShape(r, u.rest)
  }

  lemma {:induction false} ShapeRefl(t: Tree)
    ensures SameShape(t, t)
  {
    match t
    case TNil =>
    case TProp(_, _, r) => ShapeRefl(r);
    case TNode(_, k, r) => ShapeRefl(k); ShapeRefl(r);
  }

  lemma {:induction false} ShapeTrans(t: Tree, u: Tree, w: Tree)
    requires SameShape(t, u) && SameShape(u, w)
    ensures SameShape(t, w)
  {
    match t
    case TNil =>
    case TProp(_, _, r) => ShapeTrans(r, u.rest, w.rest);
    case TNode(_, k, r) => ShapeTrans(k, u.kids, w.kids); ShapeTrans(r, u.rest, w.rest);
  }

  lemma {:induction false} ShapeProp(t: Tree, u: Tree, name: seq<byte>)
    requires SameShape(t, u)
    ensures PropOf(t, name).Some? <==> PropOf(u, name).Some?
    ensures PropOf(t, name).Some? ==> |PropOf(t, name).value| == |PropOf(u, name).value|
  {
    match t
    case TProp(_, _, r) => ShapeProp(r, u.rest, name);
    case _ =>
  }

  lemma {:induction false} ShapeChild(t: Tree, u: Tree, name: seq<byte>)
    requires SameShape(t, u)
    ensures ChildOf(t, name).Some? <==> ChildOf(u, name).Some?
    ensures ChildOf(t, name).Some? ==> SameShape(ChildOf(t, name).value, ChildOf(u, name).value)
  {
    hide NameMatch;
    match t
    case TNil =>
    case TProp(_, _, r) => ShapeChild(r, u.rest, name);
    case TNode(_, _, r) => ShapeChild(r, u.rest, name);
  }

  lemma {:induction false} ReplaceShape(t: Tree, name: seq<byte>, v: seq<byte>)
    requires PropOf(t, name).Some? && |v| == |PropOf(t, name).value|
    ensures SameShape(t, ReplaceProp(t, name, v))
  {
    match t
    case TProp(n, _, r) =>
      ShapeRefl(r);
      if n != name {
        ReplaceShape(r, name, v);
      }
    case _ =>
  }

  lemma {:induction false} SetChildShape(t: Tree, name: seq<byte>, kids: Tree)
    requires ChildOf(t, name).Some? && SameShape(ChildOf(t, name).value, kids)
    ensures SameShape(t, SetChild(t, name, kids))
  {
    hide NameMatch;
    match t
    case TNil =>
    case TProp(_, _, r) => SetChildShape(r, name, kids);
    case TNode(n, k, r) =>
      ShapeRefl(r);
      ShapeRefl(k);
      if !NameMatch(n, name) {
        SetChildShape(r, name, kids);
      }
  }

  lemma PropBumpedShape(t: Tree, name: seq<byte>, fix: seq<byte>, delta: u32)
    ensures SameShape(t, PropBumped(t, name, fix, delta))
  {
    hide CellsBumped;
    ShapeRefl(t);
    if PropOf(t, name).Some? {
      ReplaceShape(t, name, CellsBumped(PropOf(t, name).value, fix, 0, delta));
    }
  }

  lemma {:induction false} PropsBumpedShape(t: Tree, fix: Tree, delta: u32)
    ensures SameShape(t, PropsBumped(t, fix, delta))
    decreases fix
  {
    hide PropBumped;
    match fix
    case TProp(n, v, r) =>
      PropBumpedShape(t, n, v, delta);
      PropsBumpedShape(PropBumped(t, n, v, delta), r, delta);
      ShapeTrans(t, PropBumped(t, n, v, delta), PropsBumped(t, fix, delta));
    case _ => ShapeRefl(t);
  }

  lemma {:induction false} BumpedShape(t: Tree, fix: Tree, delta: u32)
    ensures SameShape(t, Bumped(t, fix, delta))
    decreases fix, 1
  {
    hide PropsBumped, NodesBumped;
    var u := PropsBumped(t, fix, delta);
    PropsBumpedShape(t, fix, delta);
    NodesBumpedShape(u, fix, delta);
    ShapeTrans(t, u, NodesBumped(u, fix, delta));
  }

  lemma {:induction false} ChildBumpedShape(t: Tree, name: seq<byte>, fix: Tree, delta: u32)
    ensures SameShape(t, ChildBumped(t, name, fix, delta))
    decreases fix, 2
  {
    hide Bumped;
    ShapeRefl(t);
    if ChildOf(t, name).Some? {
      BumpedShape(ChildOf(t, name).value, fix, delta);
      SetChildShape(t, name, Bumped(ChildOf(t, name).value, fix, delta));
    }
  }

  lemma {:induction false} NodesBumpedShape(t: Tree, fix: Tree, delta: u32)
    ensures SameShape(t, NodesBumped(t, fix, delta))
    decreases fix, 0
  {
    hide ChildBumped;
    match fix
    case TNil => ShapeRefl(t);
    case TProp(_, _, r) => NodesBumpedShape(t, r, delta);
    case TNode(n, k, r) =>
      ChildBumpedShape(t, n, k, delta);
      NodesBumpedShape(ChildBumped(t, n, k, delta), r, delta);
      ShapeTrans(t, ChildBumped(t, n, k, delta), NodesBumped(t, fix, delta));
  }

  /** Whether the list can be worked off depends on the shape only. */
  lemma {:induction false} ShapePropsFit(t: Tree, u: Tree, fix: Tree)
    requires SameShape(t, u)
    ensures PropsFit(t, fix) <==> PropsFit(u, fix)
    decreases fix
  {
    hide CellsFit;
    match fix
    case TProp(n, v, r) =>
      ShapeProp(t, u, n);
      ShapePropsFit(t, u, r);
    case _ =>
  }

  lemma {:induction false} ShapeNodesFixable(t: Tree, u: Tree, fix: Tree)
    requires SameShape(t, u)
    ensures NodesFixable(t, fix) <==> NodesFixable(u, fix)
    decreases fix
  {
    hide PropsFit;
    match fix
    case TNil =>
    case TProp(_, _, r) => ShapeNodesFixable(t, u, r);
    case TNode(n, k, r) =>
      ShapeChild(t, u, n);
      if ChildOf(t, n).Some? {
        ShapePropsFit(ChildOf(t, n).value, ChildOf(u, n).value, k);
        ShapeNodesFixable(ChildOf(t, n).value, ChildOf(u, n).value, k);
      }
      ShapeNodesFixable(t, u, r);
  }

  // ---------------------------------------------------------------- looked up by path

  /** Distinct names in the list and no unit-address shorthand, at every node it visits. */
  ghost predicate CleanList(t: Tree, fix: Tree)
    decreases fix, 1
  {
    DistinctProps(fix) && DistinctKids(fix) && NoShorthand(KidNames(t), KidNames(fix)) && CleanBelow(t, fix)
  }

  ghost predicate CleanBelow(t: Tree, fix: Tree)
    decreases fix, 0
  {
    match fix
    case TNil => true
    case TProp(_, _, r) => CleanBelow(t, r)
    case TNode(n, k, r) => CleanList(KidOrNil(t, n), k) && CleanBelow(t, r)
  }

  lemma {:induction false} PropsBumpedReads(t: Tree, fix: Tree, delta: u32, p: seq<byte>, kid: seq<byte>)
    requires DistinctProps(fix) && PropsFit(t, fix)
    ensures var u := PropsBumped(t, fix, delta);
      && PropOf(u, p) == (match PropOf(fix, p)
                          case None => PropOf(t, p)
                          case Some(v) => if PropOf(t, p).Some? then Some(CellsBumped(PropOf(t, p).value, v, 0, delta))
                            else None)
      && KidOf(u, kid) == KidOf(t, kid) && KidNames(u) == KidNames(t)
    ensures PropOf(fix, p).Some? ==> PropOf(t, p).Some?
    decreases fix
  {
    hide CellsBumped, CellsFit;
    match fix
    case TProp(n, v, r) =>
      var w := CellsBumped(PropOf(t, n).value, v, 0, delta);
      var u := ReplaceProp(t, n, w);
      SetPropReads(t, n, w, p);
      ReplacePropKids(t, n, w, kid);
      PropBumpedShape(t, n, v, delta);
      ShapePropsFit(t, u, r);
      PropsBumpedReads(u, r, delta, p, kid);
    case _ =>
  }

  lemma {:induction false} NodesBumpedReads(t: Tree, fix: Tree, delta: u32, kid: seq<byte>, p: seq<byte>)
    requires DistinctKids(fix) && NoShorthand(KidNames(t), KidNames(fix)) && NodesFixable(t, fix)
    ensures var u := NodesBumped(t, fix, delta);
      && KidOf(u, kid) == (match KidOf(fix, kid)
                           case None => KidOf(t, kid)
                           case Some(k) => if KidOf(t, kid).Some? then Some(Bumped(KidOf(t, kid).value, k, delta))
                             else None)
      && PropOf(u, p) == PropOf(t, p)
    ensures KidOf(fix, kid).Some? ==> KidOf(t, kid).Some? && Fixable(KidOf(t, kid).value, KidOf(fix, kid).value)
    decreases fix
  {
    hide Bumped, PropsFit;
    match fix
    case TNil =>
    case TProp(_, _, r) => NodesBumpedReads(t, r, delta, kid, p);
    case TNode(n, k, r) =>
      assert NoShorthand(KidNames(t), {n}) by { assert n in KidNames(fix); }
      ChildOfExact(t, n);
      var u := SetChild(t, n, Bumped(ChildOf(t, n).value, k, delta));
      SetChildReads(t, n, Bumped(ChildOf(t, n).value, k, delta), kid, p);
      ChildBumpedShape(t, n, k, delta);
      ShapeNodesFixable(t, u, r);
      assert NoShorthand(KidNames(u), KidNames(r)) by { assert KidNames(r) <= KidNames(fix); }
      NodesBumpedReads(u, r, delta, kid, p);
      KidNamed(r, n);
  }

  /** Along every path: a listed value has its listed cells updated and every other value is as before. */
  lemma {:induction false} BumpedLookup(t: Tree, fix: Tree, delta: u32, path: seq<seq<byte>>, prop: seq<byte>)
    requires CleanList(t, fix) && Fixable(t, fix)
    ensures Get(Bumped(t, fix, delta), path, prop) ==
      match Get(fix, path, prop)
      case None => Get(t, path, prop)
      case Some(v) => if Get(t, path, prop).Some? then Some(CellsBumped(Get(t, path, prop).value, v, 0, delta))
        else None
    ensures Reaches(Bumped(t, fix, delta), path) <==> Reaches(t, path)
    decreases |path|
  {
    hide CellsBumped, PropsFit, NodesFixable, PropsBumped, NodesBumped;
    var u := PropsBumped(t, fix, delta);
    var kid := if path == [] then [] else path[0];
    PropsBumpedReads(t, fix, delta, prop, kid);
    PropsBumpedShape(t, fix, delta);
    ShapeNodesFixable(t, u, fix);
    NodesBumpedReads(u, fix, delta, kid, prop);
    if path != [] && KidOf(fix, kid).Some? {
      CleanListKid(t, fix, kid);
      BumpedLookup(KidOf(t, kid).value, KidOf(fix, kid).value, delta, path[1..], prop);
    }
  }

  lemma {:induction false} CleanListKid(t: Tree, fix: Tree, name: seq<byte>)
    requires CleanBelow(t, fix) && KidOf(fix, name).Some?
    ensures CleanList(KidOrNil(t, name), KidOf(fix, name).value)
    decreases fix
  {
    match fix
    case TProp(_, _, r) => CleanListKid(t, r, name);
    case TNode(n, k, r) =>
      if n != name {
        CleanListKid(t, r, name);
      }
    case TNil =>
  }

  // ---------------------------------------------------------------- references survive

  lemma {:induction false} GetFollows(t: Tree, path: seq<seq<byte>>, prop: seq<byte>)
    ensures Get(t, path, prop) == match Follow(t, path) case None => None case Some(k) => PropOf(k, prop)
    ensures Reaches(t, path) <==> Follow(t, path).Some?
    decreases |path|
  {
    if path != [] && KidOf(t, path[0]).Some? {
      GetFollows(KidOf(t, path[0]).value, path[1..], prop);
    }
  }

  /** Renumbering leaves every property that is not a phandle. */
  lemma RenumberedOthers(t: Tree, delta: u32, path: seq<seq<byte>>, prop: seq<byte>)
    requires prop != PHANDLE && prop != LINUX_PHANDLE
    ensures Get(Renumbered(t, delta), path, prop) == Get(t, path, prop)
  {
    hide Added, BelowRenumbered, Follow, Get;
    GetFollows(t, path, prop);
    GetFollows(Renumbered(t, delta), path, prop);
    RenumberedFollow(t, delta, path);
    if Follow(t, path).Some? {
      var k := Follow(t, path).value;
      BelowKeepsProps(k, delta, prop);
      AddedReads(BelowRenumbered(k, delta), PHANDLE, delta, prop);
      AddedReads(Added(BelowRenumbered(k, delta), PHANDLE, delta), LINUX_PHANDLE, delta, prop);
    }
  }

  /** A node none of whose phandle properties is listed keeps its phandle. */
  lemma UnlistedPhandle(t: Tree, fix: Tree, delta: u32, q: seq<seq<byte>>)
    requires CleanList(t, fix) && Fixable(t, fix)
    requires Get(fix, q, PHANDLE).None? && Get(fix, q, LINUX_PHANDLE).None?
    ensures PhandleAt(Bumped(t, fix, delta), q) == PhandleAt(t, q)
  {
    hide Bumped, Follow, Get, Fixable, CleanList, Dec32;
    var u := Bumped(t, fix, delta);
    BumpedLookup(t, fix, delta, q, PHANDLE);
    BumpedLookup(t, fix, delta, q, LINUX_PHANDLE);
    GetFollows(t, q, PHANDLE);
    GetFollows(t, q, LINUX_PHANDLE);
    GetFollows(u, q, PHANDLE);
    GetFollows(u, q, LINUX_PHANDLE);
  }

  /**
   The two steps of `fdt_overlay_apply` that make an overlay's phandles its own: after renumbering and
   after the update of the listed cells, a cell that is listed once names a node exactly when it did
   before, for every node whose own phandle properties are not themselves listed.
   */
  lemma ReferencesKept(ov: Tree, fix: Tree, delta: u32, path: seq<seq<byte>>, prop: seq<byte>, o: nat,
      q: seq<seq<byte>>)
    requires RenumberError(ov, delta) == 0
    requires CleanList(Renumbered(ov, delta), fix) && Fixable(Renumbered(ov, delta), fix)
    requires prop != PHANDLE && prop != LINUX_PHANDLE
    requires Get(ov, path, prop).Some? && o + 4 <= |Get(ov, path, prop).value|
    requires Get(fix, path, prop).Some? && ListedOnce(Get(fix, path, prop).value, o)
    requires PhandleAt(ov, q) != 0 && Get(fix, q, PHANDLE).None? && Get(fix, q, LINUX_PHANDLE).None?
    ensures var bumped := Bumped(Renumbered(ov, delta), fix, delta);
      && Get(bumped, path, prop).Some? && o + 4 <= |Get(bumped, path, prop).value|
      && (Dec32(Get(bumped, path, prop).value, o) == PhandleAt(bumped, q)
        <==> Dec32(Get(ov, path, prop).value, o) == PhandleAt(ov, q))
  {
    hide Bumped, Follow, Get, Fixable, CleanList, Dec32, Renumbered, ListedOnce, RenumberError, PhandleOf, CellsBumped;
    var mid := Renumbered(ov, delta);
    RenumberedOthers(ov, delta, path, prop);
    BumpedLookup(mid, fix, delta, path, prop);
    CellOnce(Get(ov, path, prop).value, Get(fix, path, prop).value, delta, o);
    RenumberedFollow(ov, delta, q);
    RenumberedNode(Follow(ov, q).value, delta);
    UnlistedPhandle(mid, fix, delta, q);
    WrapMeets(Dec32(Get(ov, path, prop).value, o), PhandleAt(ov, q), delta);
  }

  lemma WrapMeets(x: u32, y: u32, delta: u32)
    requires y + delta < 0x1_0000_0000
    ensures Wrap32(x + delta) == y + delta <==> x == y
  {
  }
}
