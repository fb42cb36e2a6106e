/**
 What a structure block means: names resolved through the strings block, NOPs and padding gone.
 Editing operations are specified here, on decoded trees.
 */
module Trees {
  import opened Bytes
  import opened Tokens
  import opened Forests

  datatype Tree =
    | TNil
    | TProp(name: seq<byte>, val: seq<byte>, rest: Tree)
    | TNode(name: seq<byte>, kids: Tree, rest: Tree)

  datatype Place =
    | TTop
    | TAfterProp(up: Place, name: seq<byte>, val: seq<byte>)
    | TAfterNode(up: Place, name: seq<byte>, kids: Tree)
    | TInside(up: Place, name: seq<byte>, rest: Tree)

  /** The tree obtained by putting `t` at `p`; nothing outside `p` depends on `t`. */
  function Graft(p: Place, t: Tree): Tree {
    match p
    case TTop => t
    case TAfterProp(u, n, v) => Graft(u, TProp(n, v, t))
    case TAfterNode(u, n, k) => Graft(u, TNode(n, k, t))
    case TInside(u, n, r) => Graft(u, TNode(n, t, r))
  }

  // ---------------------------------------------------------------- decoding

  /** Every property name offset resolves to a terminated string. */
  predicate NamesOk(f: Forest, strs: seq<byte>) {
    match f
    case Nil => true
    case PropCons(o, _, _, r) => StrAt(strs, o).Some? && NamesOk(r, strs)
    case NopCons(r) => NamesOk(r, strs)
    case NodeCons(_, _, k, r) => NamesOk(k, strs) && NamesOk(r, strs)
  }

  predicate NamesOkAround(s: Spot, strs: seq<byte>) {
    match s
    case Top => true
    case AfterProp(u, o, _, _) => StrAt(strs, o).Some? && NamesOkAround(u, strs)
    case AfterNop(u) => NamesOkAround(u, strs)
    case AfterNode(u, _, _, k) => NamesOk(k, strs) && NamesOkAround(u, strs)
    case Inside(u, _, _, r) => NamesOk(r, strs) && NamesOkAround(u, strs)
  }

  function Decode(f: Forest, strs: seq<byte>): Tree
    requires NamesOk(f, strs)
  {
    match f
    case Nil => TNil
    case PropCons(o, v, _, r) => TProp(StrAt(strs, o).value, v, Decode(r, strs))
    case NopCons(r) => Decode(r, strs)
    case NodeCons(n, _, k, r) => TNode(n, Decode(k, strs), Decode(r, strs))
  }

  function PlaceOf(s: Spot, strs: seq<byte>): Place
    requires NamesOkAround(s, strs)
  {
    match s
    case Top => TTop
    case AfterProp(u, o, v, _) => TAfterProp(PlaceOf(u, strs), StrAt(strs, o).value, v)
    case AfterNop(u) => PlaceOf(u, strs)
    case AfterNode(u, n, _, k) => TAfterNode(PlaceOf(u, strs), n, Decode(k, strs))
    case Inside(u, n, _, r) => TInside(PlaceOf(u, strs), n, Decode(r, strs))
  }

  /** Decoding a plugged forest is grafting the decoded parts. */
  lemma {:induction false} DecodePlug(s: Spot, f: Forest, strs: seq<byte>)
    ensures NamesOk(Plug(s, f), strs) <==> NamesOkAround(s, strs) && NamesOk(f, strs)
    ensures NamesOk(Plug(s, f), strs) ==> Decode(Plug(s, f), strs) == Graft(PlaceOf(s, strs), Decode(f, strs))
  {
    match s
    case Top =>
    case AfterProp(u, o, v, p) => DecodePlug(u, PropCons(o, v, p, f), strs);
    case AfterNop(u) => DecodePlug(u, NopCons(f), strs);
    case AfterNode(u, n, p, k) => DecodePlug(u, NodeCons(n, p, k, f), strs);
    case Inside(u, n, p, r) => DecodePlug(u, NodeCons(n, p, f, r), strs);
  }

  lemma DecodeNil(strs: seq<byte>)
    ensures NamesOk(Nil, strs) && Decode(Nil, strs) == TNil
  {
  }

  /** A longer strings block decodes every forest the same way. */
  lemma {:induction false} DecodeMoreStrings(f: Forest, strs: seq<byte>, more: seq<byte>)
    requires strs <= more && NamesOk(f, strs)
    ensures NamesOk(f, more) && Decode(f, more) == Decode(f, strs)
  {
    match f
    case Nil =>
    case PropCons(o, _, _, r) =>
      StrAtPrefix(strs, more, o);
      DecodeMoreStrings(r, strs, more);
    case NopCons(r) => DecodeMoreStrings(r, strs, more);
    case NodeCons(_, _, k, r) =>
      DecodeMoreStrings(k, strs, more);
      DecodeMoreStrings(r, strs, more);
  }

  lemma {:induction false} PlaceMoreStrings(s: Spot, strs: seq<byte>, more: seq<byte>)
    requires strs <= more && NamesOkAround(s, strs)
    ensures NamesOkAround(s, more) && PlaceOf(s, more) == PlaceOf(s, strs)
  {
    match s
    case Top =>
    case AfterProp(u, o, _, _) =>
      StrAtPrefix(strs, more, o);
      PlaceMoreStrings(u, strs, more);
    case AfterNop(u) => PlaceMoreStrings(u, strs, more);
    case AfterNode(u, _, _, k) =>
      DecodeMoreStrings(k, strs, more);
      PlaceMoreStrings(u, strs, more);
    case Inside(u, _, _, r) =>
      DecodeMoreStrings(r, strs, more);
      PlaceMoreStrings(u, strs, more);
  }

  // ---------------------------------------------------------------- properties of a node

  /** The value of the first property of that name among the properties that precede any subnode. */
  function PropOf(t: Tree, name: seq<byte>): Option<seq<byte>> {
    match t
    case TProp(n, v, r) => if n == name then Some(v) else PropOf(r, name)
    case _ => None
  }

  /** The first property of that name gets the value; the others keep theirs. */
  function ReplaceProp(t: Tree, name: seq<byte>, val: seq<byte>): Tree {
    match t
    case TProp(n, v, r) => if n == name then TProp(n, val, r) else TProp(n, v, ReplaceProp(r, name, val))
    case _ => t
  }

  /** Setting a property: replaced in place when the node has it, else added in front. */
  function SetProp(t: Tree, name: seq<byte>, val: seq<byte>): Tree {
    if PropOf(t, name).Some? then ReplaceProp(t, name, val) else TProp(name, val, t)
  }

  /** Appending to a property, or creating it. */
  function AppendProp(t: Tree, name: seq<byte>, val: seq<byte>): Tree {
    SetProp(t, name, (match PropOf(t, name) case Some(v) => v case None => []) + val)
  }

  function DropProp(t: Tree, name: seq<byte>): Tree {
    match t
    case TProp(n, v, r) => if n == name then r else TProp(n, v, DropProp(r, name))
    case _ => t
  }

  /** Setting a property makes it readable and leaves every other property as it was. */
  lemma {:induction false} SetPropReads(t: Tree, name: seq<byte>, val: seq<byte>, other: seq<byte>)
    ensures PropOf(SetProp(t, name, val), other) == if other == name then Some(val) else PropOf(t, other)
  {
    match t
    case TProp(n, v, r) =>
      if n != name {
        SetPropReads(r, name, val, other);
      }
    case _ =>
  }

  /** The properties that precede any subnode, in order. */
  function PropList(t: Tree): seq<(seq<byte>, seq<byte>)> {
    match t
    case TProp(n, v, r) => [(n, v)] + PropList(r)
    case _ => []
  }

  /** What follows them. */
  function Behind(t: Tree): Tree {
    match t
    case TProp(_, _, r) => Behind(r)
    case _ => t
  }

  /** Position `i` has the first property of that name. */
  predicate FirstNamed(ps: seq<(seq<byte>, seq<byte>)>, name: seq<byte>, i: nat) {
    i < |ps| && ps[i].0 == name && forall j :: 0 <= j < i ==> ps[j].0 != name
  }

  lemma FirstLater(p: (seq<byte>, seq<byte>), rest: seq<(seq<byte>, seq<byte>)>, name: seq<byte>, i: nat)
    requires p.0 != name
    ensures !FirstNamed([p] + rest, name, 0)
    ensures i > 0 ==> (FirstNamed([p] + rest, name, i) <==> FirstNamed(rest, name, i - 1))
  {
    var ps := [p] + rest;
    assert forall j :: 0 < j < |ps| ==> ps[j] == rest[j - 1];
    assert forall j :: 0 <= j < |rest| ==> rest[j] == ps[j + 1];
  }

  /** A lookup gives the first value of that name, and fails exactly when the name is not there. */
  lemma {:induction false} PropOfFirst(t: Tree, name: seq<byte>)
    ensures match PropOf(t, name)
      case None => forall p :: p in PropList(t) ==> p.0 != name
      case Some(v) => exists i: nat :: FirstNamed(PropList(t), name, i) && PropList(t)[i].1 == v
  {
    match t
    case TProp(n, v, r) =>
      var ps, rest := PropList(t), PropList(r);
      if n == name {
        assert FirstNamed(ps, name, 0);
      } else {
        PropOfFirst(r, name);
        if PropOf(r, name).Some? {
          var i: nat :| FirstNamed(rest, name, i) && rest[i].1 == PropOf(r, name).value;
          FirstLater((n, v), rest, name, i + 1);
          assert ps[i + 1] == rest[i];
        }
      }
    case _ =>
  }

  /** Setting a property exchanges the first value of that name, or puts the property in front. */
  lemma SetPropList(t: Tree, name: seq<byte>, val: seq<byte>)
    ensures var ps, u := PropList(t), SetProp(t, name, val);
      && Behind(u) == Behind(t)
      && (forall i: nat :: FirstNamed(ps, name, i) ==> PropList(u) == ps[i := (name, val)])
      && ((forall p :: p in ps ==> p.0 != name) ==> PropList(u) == [(name, val)] + ps)
  {
    var ps := PropList(t);
    PropOfFirst(t, name);
    forall i: nat | FirstNamed(ps, name, i) ensures PropList(SetProp(t, name, val)) == ps[i := (name, val)] {
      assert ps[i] in ps;
      ReplacePropList(t, name, val, i);
    }
    if PropOf(t, name).Some? {
      var i: nat :| FirstNamed(ps, name, i);
      assert ps[i] in ps;
      ReplacePropList(t, name, val, i);
    }
  }

  lemma {:induction false} ReplacePropList(t: Tree, name: seq<byte>, val: seq<byte>, i: nat)
    requires FirstNamed(PropList(t), name, i)
    ensures Behind(ReplaceProp(t, name, val)) == Behind(t)
    ensures PropList(ReplaceProp(t, name, val)) == PropList(t)[i := (name, val)]
  {
    var ps, rest := PropList(t), PropList(t.rest);
    if i == 0 {
      assert ps[0 := (name, val)] == [(name, val)] + rest;
    } else {
      assert ps[0].0 != name;
      FirstLater((t.name, t.val), rest, name, i);
      ReplacePropList(t.rest, name, val, i - 1);
      assert ps[i := (name, val)] == [ps[0]] + rest[i - 1 := (name, val)];
    }
  }

  /** Deleting a property takes the first one of that name out of the list. */
  lemma {:induction false} DropPropList(t: Tree, name: seq<byte>, i: nat)
    requires FirstNamed(PropList(t), name, i)
    ensures Behind(DropProp(t, name)) == Behind(t)
    ensures PropList(DropProp(t, name)) == PropList(t)[..i] + PropList(t)[i + 1..]
  {
    var ps, rest := PropList(t), PropList(t.rest);
    if i > 0 {
      assert ps[0].0 != name;
      FirstLater((t.name, t.val), rest, name, i);
      DropPropList(t.rest, name, i - 1);
      assert ps[..i] + ps[i + 1..] == [ps[0]] + (rest[..i - 1] + rest[i..]);
    }
  }

  /** An appended property has the new bytes behind the old ones; every other property and what follows is as before. */
  lemma AppendPropReads(t: Tree, name: seq<byte>, val: seq<byte>, other: seq<byte>)
    ensures var u := AppendProp(t, name, val);
      && Behind(u) == Behind(t)
      && PropOf(u, other) == (if other != name then PropOf(t, other)
                              else if PropOf(t, name).Some? then Some(PropOf(t, name).value + val) else Some(val))
  {
    var was := match PropOf(t, name) case Some(v) => v case None => [];
    SetPropReads(t, name, was + val, other);
    SetPropList(t, name, was + val);
    assert [] + val == val;
  }

  // ---------------------------------------------------------------- subnodes of a node

  const AT: byte := 64 // '@'

  /** `fdt_nodename_eq_`: equal names, or `s` is the node name without its unit address. */
  predicate NameMatch(node: seq<byte>, s: seq<byte>) {
    s <= node && (|node| == |s| || (AT !in s && node[|s|] == AT))
  }

  /** What the name is a name for: itself, and when it has no '@', itself with a unit address behind it. */
  ghost predicate Answers(node: seq<byte>, s: seq<byte>) {
    node == s || (AT !in s && exists u :: node == s + [AT] + u)
  }

  /** The byte comparison decides just that. */
  lemma NameMatchMeans(node: seq<byte>, s: seq<byte>)
    ensures NameMatch(node, s) <==> node == s || (64 !in s && exists u :: node == s + [64] + u)
    ensures NameMatch(node, s) <==> Answers(node, s)
  {
    if NameMatch(node, s) {
      if |node| == |s| {
        assert node == node[..|s|] == s;
      } else {
        assert node == s + [AT] + node[|s| + 1..];
      }
    }
  }

  /** The children of the first subnode whose name matches. */
  function ChildOf(t: Tree, name: seq<byte>): Option<Tree> {
    match t
    case TNil => None
    case TProp(_, _, r) => ChildOf(r, name)
    case TNode(n, k, r) => if NameMatch(n, name) then Some(k) else ChildOf(r, name)
  }

  function SetChild(t: Tree, name: seq<byte>, kids: Tree): Tree {
    match t
    case TNil => TNil
    case TProp(n, v, r) => TProp(n, v, SetChild(r, name, kids))
    case TNode(n, k, r) => if NameMatch(n, name) then TNode(n, kids, r) else TNode(n, k, SetChild(r, name, kids))
  }

  /** The subnodes, in order: names and items. */
  function KidList(t: Tree): seq<(seq<byte>, Tree)> {
    match t
    case TNil => []
    case TProp(_, _, r) => KidList(r)
    case TNode(n, k, r) => [(n, k)] + KidList(r)
  }

  /** Position `i` has the first subnode that answers to the name. */
  ghost predicate FirstAnswering(ks: seq<(seq<byte>, Tree)>, name: seq<byte>, i: nat) {
    i < |ks| && Answers(ks[i].0, name) && forall j :: 0 <= j < i ==> !Answers(ks[j].0, name)
  }

  lemma AnsweringLater(k: (seq<byte>, Tree), rest: seq<(seq<byte>, Tree)>, name: seq<byte>, i: nat)
    requires !Answers(k.0, name)
    ensures !FirstAnswering([k] + rest, name, 0)
    ensures i > 0 ==> (FirstAnswering([k] + rest, name, i) <==> FirstAnswering(rest, name, i - 1))
  {
    hide Answers;
    var ks := [k] + rest;
    assert forall j :: 0 < j < |ks| ==> ks[j] == rest[j - 1];
    assert forall j :: 0 <= j < |rest| ==> rest[j] == ks[j + 1];
  }

  /** A lookup gives the first subnode that answers, and fails exactly when none does. */
  lemma {:induction false} ChildOfFirst(t: Tree, name: seq<byte>)
    ensures match ChildOf(t, name)
      case None => forall k :: k in KidList(t) ==> !Answers(k.0, name)
      case Some(items) => exists i: nat :: FirstAnswering(KidList(t), name, i) && KidList(t)[i].1 == items
  {
    hide NameMatch, Answers;
    match t
    case TNil =>
    case TProp(_, _, r) =>
      ChildOfFirst(r, name);
      if ChildOf(t, name).Some? {
        var i: nat :| FirstAnswering(KidList(r), name, i) && KidList(r)[i].1 == ChildOf(r, name).value;
        assert FirstAnswering(KidList(t), name, i);
      }
    case TNode(n, k, r) =>
      var ks, rest := KidList(t), KidList(r);
      NameMatchMeans(n, name);
      if Answers(n, name) {
        assert FirstAnswering(ks, name, 0);
      } else {
        ChildOfFirst(r, name);
        if ChildOf(r, name).Some? {
          var i: nat :| FirstAnswering(rest, name, i) && rest[i].1 == ChildOf(r, name).value;
          AnsweringLater((n, k), rest, name, i + 1);
          assert ks[i + 1] == rest[i];
        }
      }
  }

  /** Only that subnode's items are exchanged; its name stays. */
  lemma {:induction false} SetChildList(t: Tree, name: seq<byte>, kids: Tree, i: nat)
    requires FirstAnswering(KidList(t), name, i)
    ensures KidList(SetChild(t, name, kids)) == KidList(t)[i := (KidList(t)[i].0, kids)]
    ensures PropList(SetChild(t, name, kids)) == PropList(t)
  {
    hide NameMatch, Answers;
    match t
    case TProp(_, _, r) => SetChildList(r, name, kids, i);
    case TNode(n, k, r) =>
      var ks, rest := KidList(t), KidList(r);
      NameMatchMeans(n, name);
      assert ks[0] == (n, k);
      if i == 0 {
        assert ks[0 := (n, kids)] == [(n, kids)] + rest;
      } else {
        AnsweringLater((n, k), rest, name, i);
        SetChildList(r, name, kids, i - 1);
        assert ks[i := (ks[i].0, kids)] == [ks[0]] + rest[i - 1 := (rest[i - 1].0, kids)];
      }
  }

  /** A new subnode stands behind the properties and in front of what follows them. */
  lemma {:induction false} AddChildList(t: Tree, name: seq<byte>, kids: Tree)
    ensures PropList(AddChild(t, name, kids)) == PropList(t)
    ensures Behind(AddChild(t, name, kids)) == TNode(name, kids, Behind(t))
  {
    match t
    case TProp(_, _, r) => AddChildList(r, name, kids);
    case _ =>
  }

  /** A new subnode goes after the properties and before the other subnodes. */
  function AddChild(t: Tree, name: seq<byte>, kids: Tree): Tree {
    match t
    case TProp(n, v, r) => TProp(n, v, AddChild(r, name, kids))
    case _ => TNode(name, kids, t)
  }
}
