/** Phandles of a decoded tree: the largest one, and renumbering. */
module Phandles {
  import opened Bytes
  import opened Tokens
  import opened Trees
  import opened Merges

  const PHANDLE: seq<byte> := [112, 104, 97, 110, 100, 108, 101] // "phandle"
  const LINUX_PHANDLE: seq<byte> := [108, 105, 110, 117, 120, 44] + PHANDLE // "linux,phandle"
  const MAX_PHANDLE: u32 := 0xffff_fffe

  lemma TwoNames()
    ensures PHANDLE != LINUX_PHANDLE && NoNul(PHANDLE) && NoNul(LINUX_PHANDLE)
  {
  }

  predicate IsCell(v: Option<seq<byte>>) { v.Some? && |v.value| == 4 }

  /** `fdt_get_phandle` of the node with these items; 0 stands for none. */
  function PhandleOf(t: Tree): u32 {
    if IsCell(PropOf(t, PHANDLE)) then Dec32(PropOf(t, PHANDLE).value, 0)
    else if IsCell(PropOf(t, LINUX_PHANDLE)) then Dec32(PropOf(t, LINUX_PHANDLE).value, 0)
    else 0
  }

  /** "phandle" goes before "linux,phandle"; a value that is not a cell counts as none. */
  lemma PhandleMeans(t: Tree)
    ensures var p, l := PropOf(t, PHANDLE), PropOf(t, LINUX_PHANDLE);
      && (p.Some? && |p.value| == 4 ==> p.value == Enc32(PhandleOf(t)))
      && (!(p.Some? && |p.value| == 4) && l.Some? && |l.value| == 4 ==> l.value == Enc32(PhandleOf(t)))
      && (!(p.Some? && |p.value| == 4) && !(l.Some? && |l.value| == 4) ==> PhandleOf(t) == 0)
  {
    hide Dec32, Enc32, PropOf;
    var p, l := PropOf(t, PHANDLE), PropOf(t, LINUX_PHANDLE);
    if IsCell(p) {
      EncDec(p.value, 0);
      assert p.value == p.value[0..4];
    } else if IsCell(l) {
      EncDec(l.value, 0);
      assert l.value == l.value[0..4];
    }
  }

  function Max(a: u32, b: u32): u32 { if a < b then b else a }

  /** The largest phandle of any node in the list and below. */
  function MaxPhandle(t: Tree): u32 {
    match t
    case TNil => 0
    case TProp(_, _, r) => MaxPhandle(r)
    case TNode(_, k, r) => Max(PhandleOf(k), Max(MaxPhandle(k), MaxPhandle(r)))
  }

  /** The phandles of all those nodes. */
  function PhandleSet(t: Tree): set<u32> {
    match t
    case TNil => {}
    case TProp(_, _, r) => PhandleSet(r)
    case TNode(_, k, r) => {PhandleOf(k)} + PhandleSet(k) + PhandleSet(r)
  }

  lemma {:induction false} MaxIsLargest(t: Tree)
    ensures forall x :: x in PhandleSet(t) ==> x <= MaxPhandle(t)
    ensures MaxPhandle(t) == 0 || MaxPhandle(t) in PhandleSet(t)
  {
    hide PhandleOf;
    match t
    case TNil =>
    case TProp(_, _, r) => MaxIsLargest(r);
    case TNode(_, k, r) =>
      MaxIsLargest(k);
      MaxIsLargest(r);
  }

  /** A tree whose only node has the reserved phandle: its largest phandle is not the largest valid one. */
  lemma ReservedPhandle()
    ensures var t := TNode([], TProp(PHANDLE, Enc32(0xffff_ffff), TNil), TNil);
      PhandleSet(t) == {0xffff_ffff} && MaxPhandle(t) == 0xffff_ffff != MAX_PHANDLE
        && Wrap32(MaxPhandle(t) as int + 1) == 0
  {
    hide Dec32, Enc32;
    var v := Enc32(0xffff_ffff);
    var k := TProp(PHANDLE, v, TNil);
    assert v[0..4] == v;
    DecEnc(v, 0, 0xffff_ffff);
    assert PropOf(k, PHANDLE) == Some(v);
    assert PhandleOf(k) == 0xffff_ffff && PhandleSet(k) == {} && MaxPhandle(k) == 0;
  }

  // ---------------------------------------------------------------- renumbering

  /** `overlay_phandle_add_offset`: what it returns. */
  function AddError(v: Option<seq<byte>>, delta: u32): int {
    if v.None? then -NOTFOUND
    else if |v.value| != 4 then -BADPHANDLE
    else
      var was := Dec32(v.value, 0);
      if Wrap32(was + delta) < was || Wrap32(was + delta) == 0xffff_ffff then -NOPHANDLES else 0
  }

  /** It fails when there is no such cell, and when the sum would be 0xffffffff or not fit the cell. */
  lemma AddErrorMeans(v: Option<seq<byte>>, delta: u32)
    ensures AddError(v, delta) ==
      if v.None? then -1 else if |v.value| != 4 then -6
      else if Dec32(v.value, 0) as int + delta >= 0xffff_ffff then -17 else 0
  {
    hide Dec32;
  }

  function Added(t: Tree, name: seq<byte>, delta: u32): Tree {
    match PropOf(t, name)
    case Some(v) => if |v| == 4 then ReplaceProp(t, name, Enc32(Wrap32(Dec32(v, 0) + delta))) else t
    case None => t
  }

  /** A node's items with `delta` added to its own phandles and to those of all nodes below. */
  function Renumbered(t: Tree, delta: u32): Tree
    decreases t, 1
  {
    Added(Added(BelowRenumbered(t, delta), PHANDLE, delta), LINUX_PHANDLE, delta)
  }

  function BelowRenumbered(t: Tree, delta: u32): Tree
    decreases t, 0
  {
    match t
    case TNil => TNil
    case TProp(n, v, r) => TProp(n, v, BelowRenumbered(r, delta))
    case TNode(n, k, r) => TNode(n, Renumbered(k, delta), BelowRenumbered(r, delta))
  }

  /** The first error met, a missing phandle being none. */
  function RenumberError(t: Tree, delta: u32): int
    decreases t, 1
  {
    var e := AddError(PropOf(t, PHANDLE), delta);
    var g := AddError(PropOf(t, LINUX_PHANDLE), delta);
    if e != 0 && e != -NOTFOUND then e else if g != 0 && g != -NOTFOUND then g else BelowError(t, delta)
  }

  function BelowError(t: Tree, delta: u32): int
    decreases t, 0
  {
    match t
    case TNil => 0
    case TProp(_, _, r) => BelowError(r, delta)
    case TNode(_, k, r) => var e := RenumberError(k, delta); if e != 0 then e else BelowError(r, delta)
  }

  // Changes to the properties and to the nodes below do not interfere.

  lemma {:induction false} BelowKeepsProps(t: Tree, delta: u32, name: seq<byte>)
    ensures PropOf(BelowRenumbered(t, delta), name) == PropOf(t, name)
  {
    match t
    case TProp(_, _, r) => BelowKeepsProps(r, delta, name);
    case _ =>
  }

  lemma {:induction false} BelowAfterReplace(t: Tree, delta: u32, name: seq<byte>, v: seq<byte>)
    ensures BelowRenumbered(ReplaceProp(t, name, v), delta) == ReplaceProp(BelowRenumbered(t, delta), name, v)
    ensures BelowError(ReplaceProp(t, name, v), delta) == BelowError(t, delta)
  {
    match t
    case TProp(_, _, r) => BelowAfterReplace(r, delta, name, v);
    case _ =>
  }

  /** The order of the source: the node's own cells first, then the subnodes. */
  lemma OwnFirst(t: Tree, delta: u32)
    ensures var u := Added(Added(t, PHANDLE, delta), LINUX_PHANDLE, delta);
      BelowRenumbered(u, delta) == Renumbered(t, delta) && BelowError(u, delta) == BelowError(t, delta)
  {
    hide BelowRenumbered, ReplaceProp, Enc32, Dec32, BelowError;
    AddedBelow(t, PHANDLE, delta);
    AddedBelow(Added(t, PHANDLE, delta), LINUX_PHANDLE, delta);
  }

  lemma AddedBelow(t: Tree, name: seq<byte>, delta: u32)
    ensures BelowRenumbered(Added(t, name, delta), delta) == Added(BelowRenumbered(t, delta), name, delta)
    ensures BelowError(Added(t, name, delta), delta) == BelowError(t, delta)
  {
    hide BelowRenumbered, ReplaceProp, Enc32, Dec32, BelowError;
    BelowKeepsProps(t, delta, name);
    if IsCell(PropOf(t, name)) {
      BelowAfterReplace(t, delta, name, Enc32(Wrap32(Dec32(PropOf(t, name).value, 0) + delta)));
    }
  }

  /** Adding to one property leaves the others. */
  lemma AddedReads(t: Tree, name: seq<byte>, delta: u32, other: seq<byte>)
    ensures PropOf(Added(t, name, delta), other) ==
      if other == name && IsCell(PropOf(t, name)) then Some(Enc32(Wrap32(Dec32(PropOf(t, name).value, 0) + delta)))
      else PropOf(t, other)
  {
    hide ReplaceProp, Enc32, Dec32;
    if IsCell(PropOf(t, name)) {
      SetPropReads(t, name, Enc32(Wrap32(Dec32(PropOf(t, name).value, 0) + delta)), other);
    }
  }

  // ---------------------------------------------------------------- what renumbering achieves

  /** The items of the node reached by following `path`. */
  function Follow(t: Tree, path: seq<seq<byte>>): Option<Tree>
    decreases |path|
  {
    if path == [] then Some(t)
    else match KidOf(t, path[0]) case None => None case Some(k) => Follow(k, path[1..])
  }

  /** The phandle of that node, 0 when there is no such node. */
  function PhandleAt(t: Tree, path: seq<seq<byte>>): u32 {
    match Follow(t, path) case Some(k) => PhandleOf(k) case None => 0
  }

  lemma {:induction false} AddedKids(t: Tree, name: seq<byte>, delta: u32, kid: seq<byte>)
    ensures KidOf(Added(t, name, delta), kid) == KidOf(t, kid)
  {
    hide Enc32, Dec32;
    if IsCell(PropOf(t, name)) {
      ReplacePropKids(t, name, Enc32(Wrap32(Dec32(PropOf(t, name).value, 0) + delta)), kid);
    }
  }

  lemma {:induction false} BelowKids(t: Tree, delta: u32, kid: seq<byte>)
    ensures KidOf(BelowRenumbered(t, delta), kid) ==
      match KidOf(t, kid) case Some(k) => Some(Renumbered(k, delta)) case None => None
    ensures BelowError(t, delta) == 0 && KidOf(t, kid).Some? ==> RenumberError(KidOf(t, kid).value, delta) == 0
  {
    hide Renumbered, RenumberError;
    match t
    case TNil =>
    case TProp(_, _, r) => BelowKids(r, delta, kid);
    case TNode(_, _, r) => BelowKids(r, delta, kid);
  }

  lemma RenumberedKids(t: Tree, delta: u32, kid: seq<byte>)
    ensures KidOf(Renumbered(t, delta), kid) ==
      match KidOf(t, kid) case Some(k) => Some(Renumbered(k, delta)) case None => None
  {
    hide Added, KidOf, BelowRenumbered;
    AddedKids(BelowRenumbered(t, delta), PHANDLE, delta, kid);
    AddedKids(Added(BelowRenumbered(t, delta), PHANDLE, delta), LINUX_PHANDLE, delta, kid);
    BelowKids(t, delta, kid);
  }

  /** Renumbering commutes with following a path. */
  lemma {:induction false} RenumberedFollow(t: Tree, delta: u32, path: seq<seq<byte>>)
    ensures Follow(Renumbered(t, delta), path) ==
      match Follow(t, path) case Some(k) => Some(Renumbered(k, delta)) case None => None
    ensures RenumberError(t, delta) == 0 && Follow(t, path).Some? ==> RenumberError(Follow(t, path).value, delta) == 0
    decreases |path|
  {
    hide Renumbered, KidOf, AddError;
    if path != [] {
      RenumberedKids(t, delta, path[0]);
      BelowKids(t, delta, path[0]);
      if KidOf(t, path[0]).Some? {
        RenumberedFollow(KidOf(t, path[0]).value, delta, path[1..]);
      }
    }
  }

  /** One node: a phandle that was there grows by `delta`. */
  lemma RenumberedNode(t: Tree, delta: u32)
    requires RenumberError(t, delta) == 0 && PhandleOf(t) != 0
    ensures PhandleOf(Renumbered(t, delta)) == PhandleOf(t) + delta < 0xffff_ffff
  {
    hide Enc32, Dec32, ReplaceProp, BelowRenumbered, PropOf, Added, BelowError;
    TwoNames();
    var b := BelowRenumbered(t, delta);
    BelowKeepsProps(t, delta, PHANDLE);
    BelowKeepsProps(t, delta, LINUX_PHANDLE);
    AddedReads(b, PHANDLE, delta, PHANDLE);
    AddedReads(b, PHANDLE, delta, LINUX_PHANDLE);
    AddedReads(Added(b, PHANDLE, delta), LINUX_PHANDLE, delta, PHANDLE);
    AddedReads(Added(b, PHANDLE, delta), LINUX_PHANDLE, delta, LINUX_PHANDLE);
    CellRead(Wrap32(PhandleOf(t) + delta));
    NoWrap(PhandleOf(t), delta);
  }

  lemma CellRead(v: u32)
    ensures Dec32(Enc32(v), 0) == v
  {
    DecEnc(Enc32(v), 0, v);
  }

  lemma NoWrap(a: u32, delta: u32)
    requires !(Wrap32(a + delta) < a)
    ensures Wrap32(a + delta) == a + delta
  {
  }

  /**
   With the base maximum as `delta`, after a successful adjustment every phandle an overlay node had is
   beyond all base phandles, and different phandles stay different.
   */
  lemma RenumberedApart(base: Tree, ov: Tree, p: seq<seq<byte>>, q: seq<seq<byte>>)
    requires RenumberError(ov, MaxPhandle(base)) == 0 && PhandleAt(ov, p) != 0 && PhandleAt(ov, q) != 0
    ensures var renumbered := Renumbered(ov, MaxPhandle(base));
      && PhandleAt(renumbered, p) == PhandleAt(ov, p) + MaxPhandle(base)
      && (forall x :: x in PhandleSet(base) ==> x < PhandleAt(renumbered, p))
      && (PhandleAt(renumbered, p) == PhandleAt(renumbered, q) <==> PhandleAt(ov, p) == PhandleAt(ov, q))
  {
    hide Renumbered, MaxPhandle, PhandleSet, PhandleOf, RenumberError, Follow;
    var delta := MaxPhandle(base);
    MaxIsLargest(base);
    RenumberedFollow(ov, delta, p);
    RenumberedFollow(ov, delta, q);
    RenumberedNode(Follow(ov, p).value, delta);
    RenumberedNode(Follow(ov, q).value, delta);
  }
}
