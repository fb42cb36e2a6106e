/** The scans of fdt/fdt.c and fdt/fdt_ro.c on an arbitrary structure block, well nested or not. */
module Scans {
  import opened Bytes
  import opened Tokens
  import opened Loops

  /** The tokenizer stands on a property that seems to occupy no bytes: it answers the offset it was asked at. */
  predicate StandsStill(area: seq<byte>, s: nat) {
    s % 4 == 0 && s + 8 <= |area| && Dec32(area, s) == FDT_PROP && Dec32(area, s + 4) == LEN_WRAPS_TO_ZERO
  }

  /** From an aligned offset the tokenizer fails, stands still, or reaches a later aligned offset. */
  lemma NextTagMoves(area: seq<byte>, s: nat)
    requires s % 4 == 0
    ensures var (tag, next) := NextTagAt(area, s);
      && (next < 0 ==> tag == FDT_END)
      && (StandsStill(area, s) ==> tag == FDT_PROP && next == s)
      && (next >= 0 && !StandsStill(area, s) ==> s + 4 <= next <= |area| + 3 && next % 4 == 0)
  {
    hide Dec32, Align4;
    NextTagAdvances(area, s);
    AlignShift(s, 0);
    AlignShift(0, 0);
  }

  // ---------------------------------------------------------------- fdt_next_node

  /** How one call of `fdt_next_node` ends; `Spinning` stands for a call that never returns. */
  datatype NodeStep =
    | AtNode(offset: nat, depth: int)
    | Beyond(offset: nat, depth: int)  // past the END_NODE that made the tracked depth negative
    | Stopped(err: int, depth: int)
    | Spinning

  /** Its loop from the token at `s`. */
  function NodeScan(area: seq<byte>, s: nat, depth: int, tracked: bool): (r: NodeStep)
    requires s % 4 == 0
    ensures r.AtNode? || r.Beyond? ==> s <= r.offset
    ensures r.Stopped? ==> r.err < 0
    decreases |area| + 4 - s
  {
    NextTagMoves(area, s);
    var (tag, next) := NextTagAt(area, s);
    if tag == FDT_BEGIN_NODE then AtNode(s, depth + 1)
    else if tag == FDT_END then
      Stopped(if next >= 0 || (next == -TRUNCATED && !tracked) then -NOTFOUND else next, depth)
    else if tag == FDT_END_NODE && tracked && depth - 1 < 0 then Beyond(next, depth - 1)
    else if next == s then Spinning
    else NodeScan(area, next, if tag == FDT_END_NODE then depth - 1 else depth, tracked)
  }

  /** One turn of that loop. */
  function NodeTurn(area: seq<byte>, tracked: bool, s: nat, depth: int): Turn<(nat, int), NodeStep> {
    var (tag, next) := NextTagAt(area, s);
    if tag == FDT_BEGIN_NODE then Done(AtNode(s, depth + 1))
    else if tag == FDT_END then
      Done(Stopped(if next >= 0 || (next == -TRUNCATED && !tracked) then -NOTFOUND else next, depth))
    else if next < 0 then Done(Stopped(next, depth))
    else if tag == FDT_END_NODE then
      if tracked && depth - 1 < 0 then Done(Beyond(next, depth - 1)) else Again((next, depth - 1))
    else Again((next, depth))
  }

  function NodeLoop(area: seq<byte>, tracked: bool): ((nat, int)) -> Turn<(nat, int), NodeStep> {
    (p: (nat, int)) => NodeTurn(area, tracked, p.0, p.1)
  }

  /** `fdt_next_node` returns exactly unless its scan meets a property on which the tokenizer stands still. */
  lemma {:induction false} NodeScanEnds(area: seq<byte>, s: nat, depth: int, tracked: bool)
    requires s % 4 == 0
    ensures Ends(NodeLoop(area, tracked), (s, depth)) <==> !NodeScan(area, s, depth, tracked).Spinning?
    decreases |area| + 4 - s
  {
    hide NextTagAt, Ends;
    NextTagMoves(area, s);
    var (tag, next) := NextTagAt(area, s);
    var turn := NodeLoop(area, tracked);
    EndsTurn(turn, (s, depth));
    match turn((s, depth))
    case Done(_) =>
    case Again(t) =>
      if next == s {
        Loops.Spins(turn, (s, depth));
      } else {
        NodeScanEnds(area, next, t.1, tracked);
      }
  }

  /** The scan comes to such a property after some turns. */
  ghost predicate MeetsStill(area: seq<byte>, s: nat, depth: int, tracked: bool) {
    exists n: nat, o: nat, d: int ::
      After(NodeLoop(area, tracked), (s, depth), n) == Again((o, d)) && StandsStill(area, o)
  }

  lemma NodeScanSpins(area: seq<byte>, s: nat, depth: int, tracked: bool)
    requires s % 4 == 0
    ensures NodeScan(area, s, depth, tracked).Spinning? <==> MeetsStill(area, s, depth, tracked)
  {
    hide NextTagAt, NodeScan, StandsStill, Ends, After;
    if NodeScan(area, s, depth, tracked).Spinning? {
      SpinningMeets(area, s, depth, tracked);
    }
    if MeetsStill(area, s, depth, tracked) {
      var n: nat, o: nat, d: int :| After(NodeLoop(area, tracked), (s, depth), n) == Again((o, d))
        && StandsStill(area, o);
      StillTurn(area, tracked, o, d);
      NeverEnds(NodeLoop(area, tracked), (s, depth), (o, d), n);
      NodeScanEnds(area, s, depth, tracked);
    }
  }

  lemma {:induction false} SpinningMeets(area: seq<byte>, s: nat, depth: int, tracked: bool)
    requires s % 4 == 0 && NodeScan(area, s, depth, tracked).Spinning?
    ensures MeetsStill(area, s, depth, tracked)
    decreases |area| + 4 - s
  {
    hide NextTagAt, StandsStill;
    var turn := NodeLoop(area, tracked);
    NextTagMoves(area, s);
    var (tag, next) := NextTagAt(area, s);
    if next == s {
      assert After(turn, (s, depth), 0) == Again((s, depth));
    } else {
      var t := turn((s, depth)).state;
      SpinningMeets(area, next, t.1, tracked);
      var n: nat, o: nat, d: int :| After(turn, t, n) == Again((o, d)) && StandsStill(area, o);
      assert After(turn, (s, depth), n + 1) == Again((o, d));
    }
  }

  lemma StillTurn(area: seq<byte>, tracked: bool, o: nat, d: int)
    requires StandsStill(area, o)
    ensures NodeTurn(area, tracked, o, d) == Again((o, d))
  {
    NextTagMoves(area, o);
  }

  // ---------------------------------------------------------------- nextprop_

  /** `nextprop_` from the token at `s`: it skips NOPs only, and each of them takes it further. */
  function PropScan(area: seq<byte>, s: int): int
    decreases |area| + 4 - s
  {
    var (tag, next) := NextTagAt(area, s);
    if tag == FDT_END then if next >= 0 then -BADSTRUCTURE else next
    else if tag == FDT_PROP then s
    else if tag == FDT_NOP then PropScan(area, next)
    else -NOTFOUND
  }

  // ---------------------------------------------------------------- the whole block

  /** The offsets of the BEGIN_NODE tags that the tokenizer meets from `s` on, up to an END tag or an error. */
  function Begins(area: seq<byte>, s: nat): (os: seq<nat>)
    requires s % 4 == 0
    ensures forall i :: 0 <= i < |os| ==> s <= os[i] && os[i] % 4 == 0
    ensures forall i, j :: 0 <= i < j < |os| ==> os[i] < os[j]
    decreases |area| + 4 - s
  {
    NextTagMoves(area, s);
    var (tag, next) := NextTagAt(area, s);
    if tag == FDT_END || next == s then []
    else (if tag == FDT_BEGIN_NODE then [s] else []) + Begins(area, next)
  }
}
