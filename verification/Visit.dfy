/**
 The untracked walk: calling `fdt_next_node` from offset -1 and then from each node it returns visits
 every node of the block once, in document order, and then ends with NOTFOUND.
 */
module Visits {
  import opened Bytes
  import opened Tokens
  import opened Forests
  import opened Trees
  import opened Walks
  import opened Loops
  import opened Scans
  import opened Paths
  import opened Blobs
  import opened Fdt
  import opened Checks
  import opened RoundTrips

  /** The nodes of a forest in document order. */
  function Preorder(s: Spot, f: Forest): (cs: seq<Cursor>)
    ensures forall c :: c in cs ==> c.here.NodeCons? && Plug(c.spot, c.here) == Plug(s, f)
    decreases f
  {
    match f
    case Nil => []
    case PropCons(o, v, p, r) => Preorder(AfterProp(s, o, v, p), r)
    case NopCons(r) => Preorder(AfterNop(s), r)
    case NodeCons(n, p, k, r) => [Cursor(s, f)] + Preorder(Inside(s, n, p, r), k) + Preorder(AfterNode(s, n, p, k), r)
  }

  /** One call ended in `w`; going on from there visits exactly `cs` and then stops. */
  predicate Visiting(w: Walk, cs: seq<Cursor>)
    decreases |cs|
  {
    if cs == [] then w.Stop?
    else
      && w.Node? && w.at == cs[0] && cs[0].here.NodeCons?
      && var n := Next(cs[0].spot, cs[0].here);
         Visiting(Scan(n.spot, n.here, w.depth, false), cs[1..])
  }

  /** Visiting the nodes of a forest, then whatever `more` the walk visits after its END_NODE. */
  lemma {:induction false} VisitsThrough(s: Spot, f: Forest, depth: int, more: seq<Cursor>)
    requires if AtTop(s) then more == [] else
      var c := Close(s, f); Visiting(Scan(c.spot, c.here, depth - 1, false), more)
    ensures Visiting(Scan(s, f, depth, false), Preorder(s, f) + more)
    decreases f
  {
    hide Plug, Flat, Pre, Post, Visiting;
    match f
    case Nil =>
      assert Preorder(s, f) + more == more;
      if AtTop(s) {
        assert Visiting(Stop(depth), []) by { VisitingNone(depth); }
      }
    case PropCons(o, v, p, r) => VisitsThrough(AfterProp(s, o, v, p), r, depth, more);
    case NopCons(r) => VisitsThrough(AfterNop(s), r, depth, more);
    case NodeCons(n, p, k, r) =>
      var later := Preorder(AfterNode(s, n, p, k), r) + more;
      VisitsThrough(AfterNode(s, n, p, k), r, depth, more);
      VisitsThrough(Inside(s, n, p, r), k, depth + 1, later);
      VisitingNode(s, f, depth, Preorder(Inside(s, n, p, r), k) + later);
      PreorderOfNode(s, f, more);
  }

  lemma VisitingNone(depth: int)
    ensures Visiting(Stop(depth), [])
  {
  }

  lemma VisitingNode(s: Spot, f: Forest, depth: int, later: seq<Cursor>)
    requires f.NodeCons? && Visiting(Scan(Inside(s, f.name, f.npad, f.rest), f.kids, depth + 1, false), later)
    ensures Visiting(Scan(s, f, depth, false), [Cursor(s, f)] + later)
  {
    hide Plug, Flat, Pre, Post;
    assert ([Cursor(s, f)] + later)[1..] == later;
  }

  lemma PreorderOfNode(s: Spot, f: Forest, more: seq<Cursor>)
    requires f.NodeCons?
    ensures Preorder(s, f) + more ==
      [Cursor(s, f)]
        + (Preorder(Inside(s, f.name, f.npad, f.rest), f.kids)
        + (Preorder(AfterNode(s, f.name, f.npad, f.kids), f.rest) + more))
  {
    hide Plug, Flat, Pre, Post;
  }

  lemma VisitsAll(f: Forest, depth: int)
    ensures Visiting(Scan(Top, f, depth, false), Preorder(Top, f))
  {
    VisitsThrough(Top, f, depth, []);
    assert Preorder(Top, f) + [] == Preorder(Top, f);
  }

  /** Token positions strictly increasing, within `lo..hi`. */
  predicate InOrder(cs: seq<Cursor>, lo: nat, hi: nat) {
    && (forall i :: 0 <= i < |cs| ==> lo <= |Pre(cs[i].spot)| < hi)
    && (forall i, j :: 0 <= i < j < |cs| ==> |Pre(cs[i].spot)| < |Pre(cs[j].spot)|)
  }

  lemma InOrderConcat(a: seq<Cursor>, b: seq<Cursor>, lo: nat, mid: nat, hi: nat)
    requires InOrder(a, lo, mid) && InOrder(b, mid, hi) && lo <= mid <= hi
    ensures InOrder(a + b, lo, hi)
  {
    hide Pre;
  }

  /** The visited nodes lie inside the forest's tokens, in increasing order. */
  lemma {:induction false} VisitedInOrder(s: Spot, f: Forest)
    ensures InOrder(Preorder(s, f), |Pre(s)|, |Pre(s)| + |Flat(f)|)
    decreases f
  {
    hide Plug, Post, InOrder;
    var lo, hi := |Pre(s)|, |Pre(s)| + |Flat(f)|;
    match f
    case Nil => OneInOrder([], lo, hi);
    case PropCons(o, v, p, r) =>
      VisitedInOrder(AfterProp(s, o, v, p), r);
      Wider(Preorder(s, f), lo + 1, lo, hi);
    case NopCons(r) =>
      VisitedInOrder(AfterNop(s), r);
      Wider(Preorder(s, f), lo + 1, lo, hi);
    case NodeCons(n, p, k, r) =>
      VisitedInOrder(Inside(s, n, p, r), k);
      VisitedInOrder(AfterNode(s, n, p, k), r);
      var mid := lo + 1 + |Flat(k)|;
      OneInOrder([Cursor(s, f)], lo, lo + 1);
      InOrderConcat([Cursor(s, f)], Preorder(Inside(s, n, p, r), k), lo, lo + 1, mid);
      Wider(Preorder(AfterNode(s, n, p, k), r), mid + 1, mid, hi);
      InOrderConcat([Cursor(s, f)] + Preorder(Inside(s, n, p, r), k), Preorder(AfterNode(s, n, p, k), r), lo, mid, hi);
  }

  lemma OneInOrder(cs: seq<Cursor>, lo: nat, hi: nat)
    requires |cs| <= 1 && (cs != [] ==> lo <= |Pre(cs[0].spot)| < hi)
    ensures InOrder(cs, lo, hi)
  {
  }

  lemma Wider(cs: seq<Cursor>, mid: nat, lo: nat, hi: nat)
    requires InOrder(cs, mid, hi) && lo <= mid
    ensures InOrder(cs, lo, hi)
  {
  }

  /** And no BEGIN_NODE is missed. */
  lemma {:induction false} VisitedAll(s: Spot, f: Forest, k: nat)
    requires k < |Flat(f)| && Flat(f)[k].BeginNode?
    ensures exists c :: c in Preorder(s, f) && |Pre(c.spot)| == |Pre(s)| + k
    decreases f
  {
    hide Plug, Post;
    match f
    case PropCons(o, v, p, r) => VisitedAll(AfterProp(s, o, v, p), r, k - 1);
    case NopCons(r) => VisitedAll(AfterNop(s), r, k - 1);
    case NodeCons(n, p, g, r) =>
      if k == 0 {
        assert Cursor(s, f) in Preorder(s, f);
      } else if k <= |Flat(g)| {
        VisitedAll(Inside(s, n, p, r), g, k - 1);
      } else {
        VisitedAll(AfterNode(s, n, p, g), r, k - 2 - |Flat(g)|);
      }
    case Nil =>
  }

  /** Strictly increasing byte offsets. */
  ghost predicate OffsetsIncrease(cs: seq<Cursor>) {
    && (forall c :: c in cs ==> AllValid(Pre(c.spot)))
    && forall i, j :: 0 <= i < j < |cs| ==> Off(cs[i].spot) < Off(cs[j].spot)
  }

  lemma PreorderOffsets(f: Forest)
    requires AllValid(Block(f))
    ensures OffsetsIncrease(Preorder(Top, f))
  {
    hide Block, Flat;
    VisitedInOrder(Top, f);
    var cs := Preorder(Top, f);
    forall c | c in cs ensures AllValid(Pre(c.spot)) {
      ValidParts(c.spot, c.here);
    }
    forall i, j | 0 <= i < j < |cs| ensures Off(cs[i].spot) < Off(cs[j].spot) {
      assert cs[i] in cs && cs[j] in cs;
      OffOrder(cs[i].spot, cs[i].here, cs[j].spot, cs[j].here);
    }
  }

  /** The walk from offset -1 visits each BEGIN_NODE of the block, at increasing offsets, and then stops. */
  ghost predicate FullWalk(f: Forest) {
    var cs := Preorder(Top, f);
    && Visiting(Scan(Top, f, 0, false), cs) && OffsetsIncrease(cs)
    && (forall k :: 0 <= k < |Flat(f)| && Flat(f)[k].BeginNode? ==> exists c :: c in cs && |Pre(c.spot)| == k)
  }

  /**
   A blob that `fdt_check_full` accepts: the `fdt_next_node` walk from offset -1 visits every BEGIN_NODE
   of the structure block, at increasing offsets, and then returns NOTFOUND.
   */
  lemma WalkOfValidBlob(b: seq<byte>)
    requires FullyValid(b)
    ensures exists f :: Carries(b, f) && NamesOk(f, StringsOf(b)) && FullWalk(f)
  {
    hide Hdr, StructOf, StringsOf, Enc, Preorder, Visiting, Scan, Flat, NamesOk;
    var w :| Reading(StructOf(b), StringsOf(b), w) && Balanced(w);
    BalancedIsForest(w);
    var f :| Flat(f) == w;
    NamedForest(f, StringsOf(b));
    VisitsAll(f, 0);
    PreorderOffsets(f);
    forall k | 0 <= k < |Flat(f)| && Flat(f)[k].BeginNode?
      ensures exists c :: c in Preorder(Top, f) && |Pre(c.spot)| == k {
      VisitedAll(Top, f, k);
    }
  }

  // ---------------------------------------------------------------- every accepted blob

  /** One untracked call ended in `r`; going on from there visits exactly the offsets `os` and then stops. */
  predicate VisitsOn(area: seq<byte>, r: NodeStep, os: seq<nat>)
    decreases |os|
  {
    if os == [] then r.Stopped? && r.err == -NOTFOUND
    else r.AtNode? && r.offset == os[0] && VisitsOn(area, NodeFrom(area, os[0], r.depth, false), os[1..])
  }

  lemma {:induction false} AcceptedVisits(b: seq<byte>, s: nat, nested: nat, depth: int)
    requires Sound(b) && s % 4 == 0 && VerdictFrom(b, s, nested) == Returns(0)
    ensures VisitsOn(StructOf(b), NodeScan(StructOf(b), s, depth, false), Begins(StructOf(b), s))
    decreases |StructOf(b)| + 4 - s
  {
    hide NextTagAt, StructOf, CheckTurn, Hdr;
    var area := StructOf(b);
    NextTagMoves(area, s);
    TurnNext(b, s, nested);
    var (tag, next) := NextTagAt(area, s);
    if tag != FDT_END {
      var d := if tag == FDT_END_NODE then depth - 1 else if tag == FDT_BEGIN_NODE then depth + 1 else depth;
      AcceptedVisits(b, next, CheckTurn(b, s, nested).state.1, d);
      if tag == FDT_BEGIN_NODE {
        var os := Begins(area, s);
        assert os[0] == s && os[1..] == Begins(area, next);
        assert NodeFrom(area, s, depth + 1, false) == NodeScan(area, next, depth + 1, false);
        assert VisitsOn(area, AtNode(s, depth + 1), os);
      } else {
        assert [] + Begins(area, next) == Begins(area, next);
        assert NodeScan(area, s, depth, false) == NodeScan(area, next, d, false);
      }
    }
  }

  /**
   On every blob that `fdt_check_full` accepts, well-formed or not, the `fdt_next_node` walk from offset -1
   visits exactly the BEGIN_NODE tags that the tokenizer meets, at increasing offsets, and then returns NOTFOUND.
   */
  lemma WalkOfAccepted(b: seq<byte>, bufsize: nat)
    requires Declared(b, bufsize) && FullVerdict(b, bufsize) == Returns(0)
    ensures Sound(b)
    ensures var area := StructOf(b); VisitsOn(area, NodeFrom(area, -1, 0, false), Begins(area, 0))
  {
    hide Hdr, StructOf, RsvCount, VerdictFrom, CheckHeader, NodeScan, Begins;
    CheckHeaderExact(Hdr(b), bufsize);
    AcceptedVisits(b, 0, 0, 0);
  }
}
