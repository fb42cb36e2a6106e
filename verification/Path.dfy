/**
 Ancestors, paths and the order in which `fdt_next_node` visits nodes, as facts about cursors.
 */
module Paths {
  import opened Bytes
  import opened Tokens
  import opened Forests
  import opened Trees
  import opened Walks

  const SLASH: byte := 47 // '/'

  /** The spots of the enclosing nodes, outermost first. */
  function AncSpots(s: Spot): seq<Spot> {
    match s
    case Top => []
    case AfterProp(u, _, _, _) => AncSpots(u)
    case AfterNop(u) => AncSpots(u)
    case AfterNode(u, _, _, _) => AncSpots(u)
    case Inside(u, _, _, _) => AncSpots(u) + [u]
  }

  /** Their names. */
  function AncNames(s: Spot): (r: seq<seq<byte>>)
    ensures |r| == |AncSpots(s)|
  {
    match s
    case Top => []
    case AfterProp(u, _, _, _) => AncNames(u)
    case AfterNop(u) => AncNames(u)
    case AfterNode(u, _, _, _) => AncNames(u)
    case Inside(u, n, _, _) => AncNames(u) + [n]
  }

  /** The spot lies inside the first node of the block, the root. */
  predicate InRoot(s: Spot) {
    match s
    case Top => false
    case AfterProp(u, _, _, _) => InRoot(u)
    case AfterNop(u) => InRoot(u)
    case AfterNode(u, _, _, _) => InRoot(u)
    case Inside(u, _, _, _) => u == Top || InRoot(u)
  }

  lemma {:induction false} InRootFacts(s: Spot)
    ensures InRoot(s) ==> !AtTop(s) && AncSpots(s) != [] && AncSpots(s)[0] == Top
    ensures AtTop(s) <==> AncSpots(s) == []
  {
    match s
    case Top =>
    case AfterProp(u, _, _, _) => InRootFacts(u);
    case AfterNop(u) => InRootFacts(u);
    case AfterNode(u, _, _, _) => InRootFacts(u);
    case Inside(u, _, _, _) => InRootFacts(u);
  }

  // ---------------------------------------------------------------- cursors by token index

  /** The cursor `k` tokens further (staying at the end of the block). */
  function Iter(c: Cursor, k: nat): Cursor
    decreases k
  {
    if k == 0 || (AtTop(c.spot) && c.here.Nil?) then c else Iter(Next(c.spot, c.here), k - 1)
  }

  lemma {:induction false} IterAdd(c: Cursor, j: nat, k: nat)
    ensures Iter(c, j + k) == Iter(Iter(c, j), k)
    decreases j
  {
    if j > 0 && !(AtTop(c.spot) && c.here.Nil?) {
      IterAdd(Next(c.spot, c.here), j - 1, k);
    }
  }

  /** Walking over a forest and its END_NODE. */
  lemma {:induction false} IterCloses(s: Spot, f: Forest)
    requires !AtTop(s)
    ensures Iter(Cursor(s, f), |Flat(f)| + 1) == Close(s, f)
    decreases f
  {
    match f
    case Nil => assert Iter(Close(s, Nil), 0) == Close(s, Nil);
    case PropCons(o, v, p, r) => IterCloses(AfterProp(s, o, v, p), r);
    case NopCons(r) => IterCloses(AfterNop(s), r);
    case NodeCons(n, p, k, r) =>
      IterCloses(Inside(s, n, p, r), k);
      IterAdd(Cursor(Inside(s, n, p, r), k), |Flat(k)| + 1, |Flat(r)| + 1);
      IterCloses(AfterNode(s, n, p, k), r);
  }

  /** Every cursor is the one found by counting the tokens before it. */
  lemma {:induction false} CursorAt(s: Spot, f: Forest)
    ensures Iter(Cursor(Top, Plug(s, f)), |Pre(s)|) == Cursor(s, f)
  {
    var start := Cursor(Top, Plug(s, f));
    match s
    case Top =>
    case AfterProp(u, o, v, p) =>
      CursorAt(u, PropCons(o, v, p, f));
      IterAdd(start, |Pre(u)|, 1);
      assert Iter(Cursor(s, f), 0) == Cursor(s, f);
    case AfterNop(u) =>
      CursorAt(u, NopCons(f));
      IterAdd(start, |Pre(u)|, 1);
      assert Iter(Cursor(s, f), 0) == Cursor(s, f);
    case Inside(u, n, p, r) =>
      CursorAt(u, NodeCons(n, p, f, r));
      IterAdd(start, |Pre(u)|, 1);
      assert Iter(Cursor(s, f), 0) == Cursor(s, f);
    case AfterNode(u, n, p, k) =>
      CursorAt(u, NodeCons(n, p, k, f));
      IterAdd(start, |Pre(u)|, 1);
      assert Iter(Cursor(Inside(u, n, p, f), k), 0) == Cursor(Inside(u, n, p, f), k);
      IterCloses(Inside(u, n, p, f), k);
      IterAdd(start, |Pre(u)| + 1, |Flat(k)| + 1);
  }

  /** So cursors of one forest with equally many tokens before them are equal. */
  lemma CursorUnique(s: Spot, f: Forest, ts: Spot, tf: Forest)
    requires Plug(s, f) == Plug(ts, tf) && |Pre(s)| == |Pre(ts)|
    ensures s == ts && f == tf
  {
    CursorAt(s, f);
    CursorAt(ts, tf);
  }

  // ---------------------------------------------------------------- preorder

  lemma {:induction false} CloseAncestors(s: Spot, f: Forest)
    requires !AtTop(s)
    ensures var c := Close(s, f).spot; var n := |AncSpots(s)| - 1;
      && n >= 0 && AncSpots(c) == AncSpots(s)[..n] && AncNames(c) == AncNames(s)[..n]
      && (InRoot(c) ==> InRoot(s)) && c != Top
  {
    match s
    case AfterProp(u, o, v, p) => CloseAncestors(u, PropCons(o, v, p, f));
    case AfterNop(u) => CloseAncestors(u, NopCons(f));
    case AfterNode(u, n, p, k) => CloseAncestors(u, NodeCons(n, p, k, f));
    case Inside(u, n, p, r) =>
  }

  /** Once the walk has left the root it does not come back. */
  lemma {:induction false} StaysOut(c: Cursor, k: nat)
    requires !InRoot(c.spot) && c.spot != Top
    ensures !InRoot(Iter(c, k).spot)
    decreases k
  {
    if k > 0 && !(AtTop(c.spot) && c.here.Nil?) {
      if c.here.Nil? {
        CloseAncestors(c.spot, Nil);
      }
      StaysOut(Next(c.spot, c.here), k - 1);
    }
  }

  /**
   The next node on the way to a node inside the root: not beyond it, at a depth equal to its number
   of ancestors, its ancestors among those of the starting point.
   */
  lemma {:induction false} ScanToward(s: Spot, f: Forest, ts: Spot, tf: Forest)
    requires Plug(s, f) == Plug(ts, tf) && tf.NodeCons? && InRoot(ts) && InRoot(s) && |Pre(s)| <= |Pre(ts)|
    ensures var w := Scan(s, f, |AncSpots(s)| - 1, true);
      && w.Node? && |Pre(s)| <= |Pre(w.at.spot)| <= |Pre(ts)| && InRoot(w.at.spot)
      && w.depth == |AncSpots(w.at.spot)| && AncSpots(w.at.spot) <= AncSpots(s) && AncNames(w.at.spot) <= AncNames(s)
    decreases Left(s, f)
  {
    hide Plug, Flat, Pre, Post, Next, AtTop, AncSpots, AncNames, InRoot, Scan;
    InRootFacts(s);
    ScanStep(s, f, |AncSpots(s)| - 1);
    if |Pre(s)| == |Pre(ts)| {
      CursorUnique(s, f, ts, tf);
    } else if !f.NodeCons? {
      NextFacts(s, f);
      var n := Next(s, f);
      NotLeftYet(n.spot, n.here, ts, tf);
      InRootFacts(n.spot);
      NextAncestors(s, f);
      ScanToward(n.spot, n.here, ts, tf);
    }
  }

  /** One token of a scan. */
  lemma ScanStep(s: Spot, f: Forest, depth: int)
    requires !(AtTop(s) && f.Nil?)
    ensures f.NodeCons? ==> Scan(s, f, depth, true) == Node(Cursor(s, f), depth + 1)
    ensures !f.NodeCons? && (f.Nil? ==> depth > 0) ==>
      Scan(s, f, depth, true) == Scan(Next(s, f).spot, Next(s, f).here, if f.Nil? then depth - 1 else depth, true)
  {
    hide Plug, Flat, Pre, Post, AtTop;
  }

  /** Moving on keeps the ancestors, or closes the innermost one. */
  lemma NextAncestors(s: Spot, f: Forest)
    requires !(AtTop(s) && f.Nil?) && !f.NodeCons?
    ensures var n, a := Next(s, f).spot, |AncSpots(s)|;
      && AncSpots(n) <= AncSpots(s) && AncNames(n) <= AncNames(s) && |AncSpots(n)| == if f.Nil? then a - 1 else a
  {
    if f.Nil? {
      CloseAncestors(s, Nil);
    }
  }

  /** Before a node inside the root the walk is inside the root. */
  lemma NotLeftYet(s: Spot, f: Forest, ts: Spot, tf: Forest)
    requires Plug(s, f) == Plug(ts, tf) && InRoot(ts) && 0 < |Pre(s)| <= |Pre(ts)|
    ensures InRoot(s)
  {
    hide Plug;
    assert s != Top;
    CursorAt(s, f);
    CursorAt(ts, tf);
    IterAdd(Cursor(Top, Plug(s, f)), |Pre(s)|, |Pre(ts)| - |Pre(s)|);
    if !InRoot(s) {
      StaysOut(Cursor(s, f), |Pre(ts)| - |Pre(s)|);
    }
  }

  // ---------------------------------------------------------------- offsets along the walk

  lemma PreIsPrefix(s: Spot, f: Forest)
    ensures |Pre(s)| <= |Block(Plug(s, f))| && Pre(s) == Block(Plug(s, f))[..|Pre(s)|]
  {
    BlockPlug(s, f);
    assert Pre(s) + Flat(f) + Post(s) == Pre(s) + (Flat(f) + Post(s));
  }

  /** Byte offsets are ordered as the tokens are. */
  lemma OffOrder(s: Spot, f: Forest, ts: Spot, tf: Forest)
    requires Plug(s, f) == Plug(ts, tf) && AllValid(Pre(s)) && AllValid(Pre(ts))
    ensures Off(s) < Off(ts) <==> |Pre(s)| < |Pre(ts)|
    ensures Off(s) == Off(ts) <==> |Pre(s)| == |Pre(ts)|
  {
    hide Pre, Plug, Enc, Block;
    PreIsPrefix(s, f);
    PreIsPrefix(ts, tf);
    if |Pre(s)| <= |Pre(ts)| {
      EncLonger(Pre(s), Pre(ts));
    } else {
      EncLonger(Pre(ts), Pre(s));
    }
  }

  lemma EncLonger(a: seq<Token>, b: seq<Token>)
    requires AllValid(a) && AllValid(b) && a <= b
    ensures |Enc(a)| <= |Enc(b)| && (|Enc(a)| == |Enc(b)| <==> |a| == |b|)
  {
    var c := b[|a|..];
    assert b == a + c;
    EncConcat(a, c);
    if c != [] {
      assert c[0] in b;
      assert |c[0].Bytes()| >= 4;
    } else {
      assert Enc(c) == [];
    }
  }

  lemma {:induction false} AncPrefix(s: Spot, i: nat)
    requires i < |AncSpots(s)|
    ensures Pre(AncSpots(s)[i]) <= Pre(s)
  {
    match s
    case AfterProp(u, _, _, _) => AncPrefix(u, i);
    case AfterNop(u) => AncPrefix(u, i);
    case AfterNode(u, _, _, _) => AncPrefix(u, i);
    case Inside(u, _, _, _) =>
      if i < |AncSpots(u)| {
        AncPrefix(u, i);
      }
    case Top =>
  }

  /** The ancestor at depth `i` has `i` ancestors, those of the node. */
  lemma {:induction false} AncDepth(s: Spot, i: nat)
    requires i < |AncSpots(s)|
    ensures AncSpots(AncSpots(s)[i]) == AncSpots(s)[..i]
  {
    match s
    case AfterProp(u, _, _, _) => AncDepth(u, i);
    case AfterNop(u) => AncDepth(u, i);
    case AfterNode(u, _, _, _) => AncDepth(u, i);
    case Inside(u, _, _, _) =>
      if i < |AncSpots(u)| {
        AncDepth(u, i);
      }
    case Top =>
  }

  // ---------------------------------------------------------------- parents and siblings

  /** The first item of the list the cursor is in. */
  function Rewind(s: Spot, f: Forest): Cursor {
    match s
    case AfterProp(u, o, v, p) => Rewind(u, PropCons(o, v, p, f))
    case AfterNop(u) => Rewind(u, NopCons(f))
    case AfterNode(u, n, p, k) => Rewind(u, NodeCons(n, p, k, f))
    case _ => Cursor(s, f)
  }

  lemma {:induction false} RewindFacts(s: Spot, f: Forest)
    ensures var c := Rewind(s, f);
      && Plug(c.spot, c.here) == Plug(s, f) && AncSpots(c.spot) == AncSpots(s) && AncNames(c.spot) == AncNames(s)
      && (c.spot.Inside? || c.spot == Top) && (InRoot(s) <==> InRoot(c.spot))
  {
    match s
    case AfterProp(u, o, v, p) => RewindFacts(u, PropCons(o, v, p, f));
    case AfterNop(u) => RewindFacts(u, NopCons(f));
    case AfterNode(u, n, p, k) => RewindFacts(u, NodeCons(n, p, k, f));
    case _ =>
  }

  /** The enclosing node. */
  function Parent(s: Spot, f: Forest): Cursor
    requires InRoot(s)
  {
    var c := Rewind(s, f);
    RewindFacts(s, f);
    Cursor(c.spot.up, NodeCons(c.spot.name, c.spot.npad, c.here, c.spot.rest))
  }

  /** No earlier sibling answers to `name`. */
  predicate FirstToAnswer(s: Spot, name: seq<byte>) {
    match s
    case AfterProp(u, _, _, _) => FirstToAnswer(u, name)
    case AfterNop(u) => FirstToAnswer(u, name)
    case AfterNode(u, n, _, _) => !NameMatch(n, name) && FirstToAnswer(u, name)
    case _ => true
  }

  /** Then the lookup among the siblings finds this node. */
  lemma {:induction false} FindsItself(s: Spot, f: Forest, name: seq<byte>)
    requires FirstToAnswer(s, name)
    ensures FindChild(Rewind(s, f).spot, Rewind(s, f).here, name) == FindChild(s, f, name)
  {
    match s
    case AfterProp(u, o, v, p) => FindsItself(u, PropCons(o, v, p, f), name);
    case AfterNop(u) => FindsItself(u, NopCons(f), name);
    case AfterNode(u, n, p, k) => FindsItself(u, NodeCons(n, p, k, f), name);
    case _ =>
  }

  // ---------------------------------------------------------------- path strings

  /** Each name followed by a slash. */
  function Joined(names: seq<seq<byte>>): seq<byte> {
    if names == [] then [] else Joined(names[..|names| - 1]) + names[|names| - 1] + [SLASH]
  }

  lemma JoinedStep(names: seq<seq<byte>>, n: seq<byte>)
    ensures Joined(names + [n]) == Joined(names) + n + [SLASH]
  {
    assert (names + [n])[..|names|] == names;
  }

  lemma {:induction false} JoinedPrefix(names: seq<seq<byte>>, k: nat)
    requires k <= |names|
    ensures Joined(names[..k]) <= Joined(names)
    ensures k < |names| ==> |Joined(names[..k])| < |Joined(names)|
    decreases |names|
  {
    if k < |names| {
      var m := names[..|names| - 1];
      assert m[..k] == names[..k];
      JoinedPrefix(m, k);
      JoinedStep(m, names[|names| - 1]);
      assert names == m + [names[|names| - 1]];
    } else {
      assert names[..k] == names;
    }
  }

  /** The path of a node from the names of its ancestors and its own, the empty root name first. */
  function PathString(names: seq<seq<byte>>): seq<byte>
    requires names != []
  {
    if |names| == 1 then [SLASH] else Joined(names)[..|Joined(names)| - 1]
  }

  /** The path of the root is a slash; every other path is its parent's, a slash unless it ends in one, and the name. */
  lemma PathStringMeans(names: seq<seq<byte>>, n: seq<byte>)
    ensures PathString([n]) == [47]
    ensures names == [[]] ==> PathString(names + [n]) == [47] + n
    ensures |names| > 1 ==> PathString(names + [n]) == PathString(names) + [47] + n
  {
    if names != [] {
      var more := names + [n];
      JoinedStep(names, n);
      assert Joined(more)[..|Joined(more)| - 1] == Joined(names) + n;
    }
    if names == [[]] {
      assert Joined(names[..0]) == [];
      assert Joined(names) == [] + [] + [SLASH];
    } else if |names| > 1 {
      var j := Joined(names);
      assert j == j[..|j| - 1] + [SLASH];
    }
  }

  /** Names from the root to the node under the cursor. */
  function FullNames(s: Spot, f: Forest): seq<seq<byte>>
    requires f.NodeCons?
  {
    AncNames(s) + [f.name]
  }

  /** Names a path can be made of: an empty root name, then non-empty names without slashes. */
  predicate PathNames(names: seq<seq<byte>>) {
    names != [] && names[0] == [] && forall i :: 1 <= i < |names| ==> names[i] != [] && SLASH !in names[i]
  }
  /** Names without slashes, root included. */
  ghost predicate SlashFree(names: seq<seq<byte>>) { forall n :: n in names ==> SLASH !in n }

}
