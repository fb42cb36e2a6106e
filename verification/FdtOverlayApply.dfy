/** fdt/fdt_overlay.c: targets of fragments, merging all fragments, and `fdt_overlay_apply`. */
module FdtOverlayApply {
  import opened Bytes
  import opened Tokens
  import opened Forests
  import opened Trees
  import opened Walks
  import opened Blobs
  import opened Layouts
  import opened Edits
  import opened Merges
  import opened MergeRooms
  import opened Paths
  import opened Visits
  import opened Phandles
  import opened References
  import opened Fragments
  import opened Fdt
  import opened FdtRo
  import opened FdtRw
  import opened FdtPath
  import opened FdtPhandle
  import opened FdtReferences
  import opened FdtOverlay

  /** A "target-path" is an absolute, terminated path. */
  predicate PathReady(frag: Tree) {
    match PropOf(frag, TARGET_PATH)
    case None => true
    case Some(v) => v != [] && v[0] == SLASH && NulFrom(v, 0) < |v|
  }

  /** So it is in every fragment that will be merged. */
  predicate PathsReady(frags: Tree) {
    match frags
    case TNil => true
    case TProp(_, _, r) => PathsReady(r)
    case TNode(_, k, r) => (ChildOf(k, OVERLAY).Some? ==> PathReady(k)) && PathsReady(r)
  }

  /** `overlay_get_target_phandle`: 0 for no phandle, 0xffffffff for a malformed one. */
  method GetTargetPhandle(ob: seq<byte>, fragment: int, ghost c: Cursor) returns (phandle: u32)
    requires c.here.NodeCons? && At(ob, c.spot, c.here, fragment) && NamesOk(c.here.kids, StringsOf(ob))
    ensures phandle == match PropOf(Decode(c.here.kids, StringsOf(ob)), TARGET)
      case None => 0
      case Some(v) => if |v| != 4 || Dec32(v, 0) == 0xffff_ffff then 0xffff_ffff else Dec32(v, 0)
  {
    hide Hdr, Plug, Pre, Block, Enc, StructOf, StringsOf, NamesOk, Decode, Dec32, PropOf;
    var val, len := Getprop(ob, fragment, TARGET, c.spot, c.here);
    if val.None? {
      return 0;
    }
    if len != 4 || Dec32(val.value, 0) == 0xffff_ffff {
      return 0xffff_ffff;
    }
    return Dec32(val.value, 0);
  }

  /** The fragment has no target phandle, or 0, and its target path is `p`. */
  predicate ByPath(frag: Tree, p: seq<byte>) {
    && (PropOf(frag, TARGET) == None || PropOf(frag, TARGET) == Some([0, 0, 0, 0]))
    && PropOf(frag, TARGET_PATH).Some? && 0 !in p && p + [0] <= PropOf(frag, TARGET_PATH).value
  }

  lemma PathEnds(v: seq<byte>, p: seq<byte>)
    requires 0 !in p && p + [0] <= v
    ensures v[..NulFrom(v, 0)] == p
  {
    var n, x := NulFrom(v, 0), p + [0];
    assert forall i :: 0 <= i < |x| ==> v[i] == x[i];
    assert v[|p|] == x[|p|] == 0;
    assert v[..n] == x[..n];
  }

  lemma {:induction false} AncestorsNoNul(s: Spot)
    requires AllValid(Pre(s))
    ensures forall n :: n in AncNames(s) ==> NoNul(n)
  {
    match s
    case Top =>
    case AfterProp(u, o, v, p) => AncestorsNoNul(u);
    case AfterNop(u) => AncestorsNoNul(u);
    case AfterNode(u, n, p, k) => AncestorsNoNul(u);
    case Inside(u, n, p, r) =>
      var t := BeginNode(n, p);
      assert t in Pre(s) && t.Valid();
      AncestorsNoNul(u);
  }

  lemma {:induction false} JoinedNoNul(names: seq<seq<byte>>)
    requires forall n :: n in names ==> NoNul(n)
    ensures NoNul(Joined(names))
  {
    if names != [] {
      JoinedNoNul(names[..|names| - 1]);
      assert NoNul(names[|names| - 1]);
    }
  }

  /** The path of a node contains no NUL, and resolving it gives the node. */
  lemma PathOfNode(b: seq<byte>, f: Forest, s: Spot, g: Forest)
    requires Carries(b, f) && f == Plug(s, g) && f.NodeCons? && g.NodeCons? && (s == Top || InRoot(s))
    requires PathNames(FullNames(s, g)) && Unambiguous(s, g)
    ensures 0 !in PathString(FullNames(s, g))
    ensures Resolve(Cursor(Top, f), PathString(FullNames(s, g))) == Some(Cursor(s, g))
  {
    hide Hdr, Block, Enc, StructOf, Joined, PathString, Plug, Resolve;
    PathsAreInverse(s, g);
    NamesNoNul(b, f, s, g);
    JoinedNoNul(FullNames(s, g));
    PartOfJoined(FullNames(s, g));
  }

  lemma PartOfJoined(names: seq<seq<byte>>)
    requires names != [] && NoNul(Joined(names))
    ensures 0 !in PathString(names)
  {
  }

  lemma NamesNoNul(b: seq<byte>, f: Forest, s: Spot, g: Forest)
    requires Carries(b, f) && f == Plug(s, g) && g.NodeCons?
    ensures forall n :: n in FullNames(s, g) ==> NoNul(n)
  {
    hide Hdr, Enc, StructOf, Plug;
    BlockPlug(s, g);
    AncestorsNoNul(s);
    var t := BeginNode(g.name, g.npad);
    assert t in Flat(g);
    assert t.Valid();
  }

  lemma TargetSpelled(v: seq<byte>, p: seq<byte>, f: Forest)
    requires f.NodeCons? && p == v[..NulFrom(v, 0)]
    ensures forall q, names :: 0 !in q && q + [0] <= v && Spells(q, names) ==>
      Steps(Cursor(Top, f), names, Resolve(Cursor(Top, f), p))
  {
    hide Plug, Steps, Spells, Resolve;
    forall q, names | 0 !in q && q + [0] <= v && Spells(q, names)
      ensures Steps(Cursor(Top, f), names, Resolve(Cursor(Top, f), p))
    {
      PathEnds(v, q);
      ResolveSteps(Cursor(Top, f), q, names);
    }
  }

  lemma TargetNamed(b: seq<byte>, v: seq<byte>, p: seq<byte>, f: Forest)
    requires Carries(b, f) && f.NodeCons? && p == v[..NulFrom(v, 0)]
    ensures forall s, g ::
      && Plug(s, g) == f && g.NodeCons? && (s == Top || InRoot(s)) && PathNames(FullNames(s, g)) && Unambiguous(s, g)
      && 0 !in PathString(FullNames(s, g)) && PathString(FullNames(s, g)) + [0] <= v
      ==> Resolve(Cursor(Top, f), p) == Some(Cursor(s, g))
  {
    hide Hdr, Block, Enc, StructOf, PathString, Plug, Resolve, Unambiguous, InRoot;
    forall s, g |
      && Plug(s, g) == f && g.NodeCons? && (s == Top || InRoot(s)) && PathNames(FullNames(s, g)) && Unambiguous(s, g)
      && 0 !in PathString(FullNames(s, g)) && PathString(FullNames(s, g)) + [0] <= v
      ensures Resolve(Cursor(Top, f), p) == Some(Cursor(s, g))
    {
      PathOfNode(b, f, s, g);
      PathEnds(v, PathString(FullNames(s, g)));
    }
  }

  lemma ZeroCell()
    ensures Dec32([0, 0, 0, 0], 0) == 0 && Dec32([255, 255, 255, 255], 0) == 0xffff_ffff
  {
  }

  /** The phandle that the cell holds, 0 for none, 0xffffffff for what is no phandle. */
  lemma TargetCells(v: Option<seq<byte>>, phandle: u32)
    requires phandle == match v
      case None => 0
      case Some(x) => if |x| != 4 || Dec32(x, 0) == 0xffff_ffff then 0xffff_ffff else Dec32(x, 0)
    ensures forall p: u32 :: 0 < p < 0xffff_ffff && v == Some(Enc32(p)) ==> phandle == p
    ensures v.Some? && (|v.value| != 4 || v.value == [255, 255, 255, 255]) ==> phandle == 0xffff_ffff
    ensures v.None? || v.value == [0, 0, 0, 0] ==> phandle == 0
  {
    hide Dec32, Enc32;
    ZeroCell();
    forall p: u32 | 0 < p < 0xffff_ffff && v == Some(Enc32(p)) ensures phandle == p {
      assert Enc32(p)[0..4] == Enc32(p);
      DecEnc(Enc32(p), 0, p);
    }
  }

  /** `overlay_get_target`: the offset of the base node that the fragment targets. */
  method GetTarget(b: seq<byte>, ob: seq<byte>, fragment: int, ghost f: Forest, ghost c: Cursor)
    returns (ret: int, ghost found: Option<Cursor>)
    requires Carries(b, f) && f.NodeCons? && NamesOk(f, StringsOf(b))
    requires c.here.NodeCons? && At(ob, c.spot, c.here, fragment) && NamesOk(c.here.kids, StringsOf(ob))
    requires PathReady(Decode(c.here.kids, StringsOf(ob)))
    ensures match GoalOf(Decode(f, StringsOf(b)), Decode(c.here.kids, StringsOf(ob)))
      case Fails(e) => ret == e
      case Reach(t) =>
        && ret >= 0 && found.Some? && found.value.here.NodeCons? && At(b, found.value.spot, found.value.here, ret)
        && Plug(found.value.spot, found.value.here) == f && SameFind(found, Some(t), StringsOf(b))
    ensures forall p, names :: ByPath(Decode(c.here.kids, StringsOf(ob)), p) && Spells(p, names) ==>
      Steps(Cursor(Top, f), names, found) && (if found.Some? then ret >= 0 else ret == -NOTFOUND)
    ensures forall s, g ::
      && Plug(s, g) == f && g.NodeCons? && (s == Top || InRoot(s)) && PathNames(FullNames(s, g)) && Unambiguous(s, g)
      && ByPath(Decode(c.here.kids, StringsOf(ob)), PathString(FullNames(s, g)))
      ==> ret >= 0 && found == Some(Cursor(s, g))
    ensures forall p: u32 ::
      0 < p < 0xffff_ffff && PropOf(Decode(c.here.kids, StringsOf(ob)), TARGET) == Some(Enc32(p)) ==>
        && Ahead(b, f, Preorder(Top, f)) && found == FirstWith(Preorder(Top, f), StringsOf(b), p)
        && (if found.Some? then ret >= 0 else ret == -NOTFOUND)
    ensures var v, w := PropOf(Decode(c.here.kids, StringsOf(ob)), TARGET),
          PropOf(Decode(c.here.kids, StringsOf(ob)), TARGET_PATH);
      && (v.Some? && (|v.value| != 4 || v.value == [255, 255, 255, 255]) ==> ret == -6)
      && ((v.None? || v.value == [0, 0, 0, 0]) && w.None? ==> ret == -16)
  {
    hide Hdr, Plug, Pre, Block, Enc, StructOf, StringsOf, NamesOk, Dec32, Enc32, PropOf, Resolve, Lookup, FirstWith,
      WithPhandle, Preorder, NamesOkAround, PlaceOf, Graft, Steps, Spells, PathNames, Unambiguous, PathString,
      FullNames;
    ghost var strs, frag := StringsOf(b), Decode(c.here.kids, StringsOf(ob));
    TopPlace(strs);
    TopIsAll(f);
    found := None;
    ZeroCell();
    var phandle := GetTargetPhandle(ob, fragment, c);
    TargetCells(PropOf(frag, TARGET), phandle);
    if phandle == 0xffff_ffff {
      return -BADPHANDLE, None;
    }
    var path_len := 0;
    if phandle == 0 {
      var path;
      path, path_len := Getprop(ob, fragment, TARGET_PATH, c.spot, c.here);
      if path.Some? {
        var p := path.value[..NulFrom(path.value, 0)];
        LookupSame(Cursor(Top, f), strs, p);
        TargetSpelled(path.value, p, f);
        TargetNamed(b, path.value, p, f);
        ret := PathOffset(b, p, f);
        found := Resolve(Cursor(Top, f), p);
      } else {
        ret := path_len;
      }
    } else {
      WithPhandleSame(Top, f, strs, phandle);
      ret := NodeOffsetByPhandle(b, phandle, f);
      found := FirstWith(Preorder(Top, f), strs, phandle);
    }
    if ret < 0 && path_len == -NOTFOUND {
      ret := -BADOVERLAY;
    }
  }

  lemma TopPlace(strs: seq<byte>)
    ensures NamesOkAround(Top, strs) && PlaceOf(Top, strs) == TTop
  {
  }

  lemma {:induction false} PlugKeepsRoot(s: Spot, f: Forest, g: Forest)
    requires (f.NodeCons? && g.NodeCons?) || (f.PropCons? && g.PropCons?) || (f.NopCons? && g.NopCons?)
    requires Plug(s, f).NodeCons?
    ensures Plug(s, g).NodeCons?
  {
    match s
    case Top =>
    case AfterProp(u, o, v, p) => PlugKeepsRoot(u, PropCons(o, v, p, f), PropCons(o, v, p, g));
    case AfterNop(u) => PlugKeepsRoot(u, NopCons(f), NopCons(g));
    case AfterNode(u, n, p, k) => PlugKeepsRoot(u, NodeCons(n, p, k, f), NodeCons(n, p, k, g));
    case Inside(u, n, p, r) => PlugKeepsRoot(u, NodeCons(n, p, f, r), NodeCons(n, p, g, r));
  }

  /** The fragment loop stands at `cf` of the overlay's root with the base meaning `base`. */
  ghost predicate FragsLeft(base: Tree, cf: Forest, ostrs: seq<byte>, goal: Outcome) {
    base.TNode? && NamesOk(cf, ostrs) && PathsReady(Decode(cf, ostrs))
      && MergeFragments(base, Decode(cf, ostrs)) == goal
  }

  lemma {:induction false} FragsNext(base: Tree, s: Spot, cf: Forest, ostrs: seq<byte>, goal: Outcome)
    requires FragsLeft(base, cf, ostrs, goal)
    ensures match FirstNode(s, cf)
      case None => goal == Merged(base)
      case Some(c) =>
        && FragsLeft(base, c.here, ostrs, goal) && (c.here == cf || c.here < cf)
    decreases cf
  {
    hide Plug, GoalOf, PathReady, MergedAt;
    match cf
    case PropCons(o, v, p, r) => FragsNext(base, AfterProp(s, o, v, p), r, ostrs, goal);
    case NopCons(r) => FragsNext(base, AfterNop(s), r, ostrs, goal);
    case _ =>
  }

  /** What the loop does with the fragment at its front. */
  lemma FragsStep(base: Tree, cf: Forest, ostrs: seq<byte>, goal: Outcome)
    requires FragsLeft(base, cf, ostrs, goal) && cf.NodeCons?
    ensures NamesOk(cf.kids, ostrs)
    ensures var k := Decode(cf.kids, ostrs);
      match ChildOf(k, OVERLAY)
      case None => FragsLeft(base, cf.rest, ostrs, goal)
      case Some(ov) =>
        && PathReady(k)
        && match GoalOf(base, k)
           case Fails(e) => goal == Failed(e)
           case Reach(t) => FragsLeft(MergedAt(t, ov), cf.rest, ostrs, goal)
  {
    hide GoalOf, PathReady, Graft;
    var k := Decode(cf.kids, ostrs);
    if ChildOf(k, OVERLAY).Some? && GoalOf(base, k).Reach? {
      var t, ov := GoalOf(base, k).at, ChildOf(k, OVERLAY).value;
      GraftKeepsRoot(t.place, t.here, TNode(t.here.name, Merge(t.here.kids, ov), t.here.rest));
    }
  }

  /** And what the merge will return. */
  lemma {:induction false} ErrorNext(base: Tree, s: Spot, cf: Forest, ostrs: seq<byte>, r: Room)
    requires base.TNode? && NamesOk(cf, ostrs)
    ensures match FirstNode(s, cf)
      case None => MergeError(base, Decode(cf, ostrs), r) == 0
      case Some(c) =>
        NamesOk(c.here, ostrs) && MergeError(base, Decode(c.here, ostrs), r) == MergeError(base, Decode(cf, ostrs), r)
    decreases cf
  {
    hide GoalOf, MergedAt, MergeRoom;
    match cf
    case PropCons(o, v, p, rest) => ErrorNext(base, AfterProp(s, o, v, p), rest, ostrs, r);
    case NopCons(rest) => ErrorNext(base, AfterNop(s), rest, ostrs, r);
    case _ =>
  }

  lemma ErrorStep(base: Tree, cf: Forest, ostrs: seq<byte>, r: Room)
    requires base.TNode? && cf.NodeCons? && NamesOk(cf, ostrs)
    ensures var k, now := Decode(cf.kids, ostrs), MergeError(base, Decode(cf, ostrs), r);
      match ChildOf(k, OVERLAY)
      case None => now == MergeError(base, Decode(cf.rest, ostrs), r)
      case Some(ov) =>
        match GoalOf(base, k)
        case Fails(e) => now == e
        case Reach(c) =>
          MergedAt(c, ov).TNode?
          && match MergeRoom(c.here.kids, ov, r)
             case None => now == -NOSPACE
             case Some(q) => now == MergeError(MergedAt(c, ov), Decode(cf.rest, ostrs), q)
  {
    hide GoalOf, MergedAt, MergeRoom, ChildOf;
    var k := Decode(cf.kids, ostrs);
    if ChildOf(k, OVERLAY).Some? && GoalOf(base, k).Reach? {
      RootStays(GoalOf(base, k).at, ChildOf(k, OVERLAY).value, base);
    }
  }

  /** One fragment with an overlay node: find its target and apply it. */
  method MergeFragment(d: Dtb, ob: seq<byte>, fragment: int, overlay: int, ghost c: Cursor,
      ghost oc: Cursor) returns (err: int)
    requires d.Valid() && d.tree.NodeCons?
    requires c.here.NodeCons? && At(ob, c.spot, c.here, fragment) && NamesOk(c.here.kids, StringsOf(ob))
    requires oc.here.NodeCons? && At(ob, oc.spot, oc.here, overlay) && NamesOk(oc.here.kids, StringsOf(ob))
    requires PathReady(Decode(c.here.kids, StringsOf(ob)))
    modifies d, d.buf
    ensures d.Valid() && SameFrame(old(d.buf[..]), d.buf[..]) && (err == 0 ==> d.tree.NodeCons?)
    ensures old(d.Meaning()).TNode?
    ensures match GoalOf(old(d.Meaning()), Decode(c.here.kids, StringsOf(ob)))
      case Fails(e) => err == e
      case Reach(t) =>
        && Leaves(err, d.buf[..], MergeRoom(t.here.kids, Decode(oc.here.kids, StringsOf(ob)), old(RoomOf(d.buf[..]))))
        && (err == 0 ==> d.Meaning() == MergedAt(t, Decode(oc.here.kids, StringsOf(ob))))
  {
    hide Hdr, Pre, Block, Enc, StructOf, StringsOf, NamesOk, RsvOf, GoalOf, Graft, Plug, PathReady, Merge;
    ghost var b, f, strs := d.buf[..], d.tree, StringsOf(d.buf[..]);
    CarriesTree(b, f);
    SameFrameRefl(b, f);
    var target; ghost var found;
    target, found := GetTarget(d.buf[..], ob, fragment, f, c);
    if target < 0 {
      return target;
    }
    ghost var at := found.value;
    ItemsDecode(at.spot, at.here, strs);
    ghost var kids;
    err, kids := ApplyNode(d, target, ob, overlay, at.spot, at.here, oc.spot, oc.here);
    if err != 0 {
      return;
    }
    PlugKeepsRoot(at.spot, at.here, Renewed(at.here, kids));
    DecodePlug(at.spot, at.here, strs);
  }

  lemma SameFrameRefl(b: seq<byte>, t: Forest)
    requires Editable(b, t)
    ensures SameFrame(b, b)
  {
    hide Hdr, Block, Enc;
  }

  /** `overlay_merge`: every fragment that has an overlay node, in order. */
  method OverlayMerge(d: Dtb, ob: seq<byte>, ghost of: Forest) returns (err: int)
    requires d.Valid() && d.tree.NodeCons?
    requires Carries(ob, of) && of.NodeCons? && NamesOk(of.kids, StringsOf(ob))
      && PathsReady(Decode(of.kids, StringsOf(ob)))
    modifies d, d.buf
    ensures d.Valid() && SameFrame(old(d.buf[..]), d.buf[..]) && old(d.Meaning()).TNode?
    ensures err == MergeError(old(d.Meaning()), Decode(of.kids, StringsOf(ob)), old(RoomOf(d.buf[..])))
    ensures err == 0 ==> MergeFragments(old(d.Meaning()), Decode(of.kids, StringsOf(ob))) == Merged(d.Meaning())
  {
    hide Hdr, Pre, Block, Enc, StructOf, StringsOf, NamesOk, RsvOf, GoalOf, Plug, PathReady, PathsReady, Merge,
      MergeFragments, FragsLeft, FindChild, FirstNode, MergedAt, ChildOf, Holds, MergeRoom, MergeError;
    ghost var ostrs, b := StringsOf(ob), d.buf[..];
    ghost var inner := Inside(Top, of.name, of.npad, of.rest);
    ghost var cs, cf := inner, of.kids;
    ghost var goal := MergeFragments(d.Meaning(), Decode(of.kids, ostrs));
    ghost var verdict := MergeError(d.Meaning(), Decode(of.kids, ostrs), RoomOf(b));
    TopIsAll(of);
    AtStart(ob, of);
    SameFrameRefl(b, d.tree);
    FragsStart(d.Meaning(), of.kids, ostrs);
    err := 0;
    var fragment := FirstSubnode(ob, 0, Top, of);
    while fragment >= 0
      invariant d.Valid() && d.tree.NodeCons? && SameFrame(b, d.buf[..])
      invariant Located(ob, FirstNode(cs, cf), fragment)
      invariant FragsLeft(d.Meaning(), cf, ostrs, goal) && NamesOk(cf, ostrs)
      invariant MergeError(d.Meaning(), Decode(cf, ostrs), RoomOf(d.buf[..])) == verdict
      decreases cf
    {
      FragsNext(d.Meaning(), cs, cf, ostrs, goal);
      ErrorNext(d.Meaning(), cs, cf, ostrs, RoomOf(d.buf[..]));
      ghost var c := FirstNode(cs, cf).value;
      FragsNames(d.Meaning(), c.here, ostrs, goal);
      FragsStep(d.Meaning(), c.here, ostrs, goal);
      ErrorStep(d.Meaning(), c.here, ostrs, RoomOf(d.buf[..]));
      ghost var found := FindChild(Inside(c.spot, c.here.name, c.here.npad, c.here.rest), c.here.kids, OVERLAY);
      FindChildReads(Inside(c.spot, c.here.name, c.here.npad, c.here.rest), c.here.kids, ostrs, OVERLAY);
      var overlay := SubnodeOffset(ob, fragment, OVERLAY, c.spot, c.here);
      if overlay == -NOTFOUND {
      } else if overlay < 0 {
        assert false;
        return overlay;
      } else {
        err := MergeFragment(d, ob, fragment, overlay, c, found.value);
        if err != 0 {
          return;
        }
      }
      fragment := NextSubnode(ob, fragment, c.spot, c.here);
      cs, cf := AfterNode(c.spot, c.here.name, c.here.npad, c.here.kids), c.here.rest;
    }
    FragsNext(d.Meaning(), cs, cf, ostrs, goal);
    ErrorNext(d.Meaning(), cs, cf, ostrs, RoomOf(d.buf[..]));
    err := 0;
  }

  lemma FragsNames(base: Tree, cf: Forest, ostrs: seq<byte>, goal: Outcome)
    requires FragsLeft(base, cf, ostrs, goal)
    ensures NamesOk(cf, ostrs)
  {
  }

  lemma FragsStart(base: Tree, cf: Forest, ostrs: seq<byte>)
    requires base.TNode? && NamesOk(cf, ostrs) && PathsReady(Decode(cf, ostrs))
    ensures FragsLeft(base, cf, ostrs, MergeFragments(base, Decode(cf, ostrs)))
  {
  }

  // ---------------------------------------------------------------- fdt_overlay_apply

  const FIXUPS: seq<byte> := [95, 95, 102, 105, 120, 117, 112, 115, 95, 95] // "__fixups__"
  const SYMBOLS: seq<byte> := [95, 95, 115, 121, 109, 98, 111, 108, 115, 95, 95] // "__symbols__"
  const NO_MAGIC: u32 := 0xffff_ffff

  /** The overlay's root items as they are merged: phandles renumbered and local references updated. */
  function Adopted(ov: Tree, delta: u32): Tree {
    var mid := Renumbered(ov, delta);
    match ChildOf(mid, LOCAL_FIXUPS) case None => mid case Some(fix) => Bumped(mid, fix, delta)
  }

  /** An overlay without references to base labels and without symbols, whose lists and paths are well formed. */
  ghost predicate Appliable(ov: Tree, delta: u32) {
    var mid := Renumbered(ov, delta);
    && ChildOf(ov, FIXUPS).None? && ChildOf(ov, SYMBOLS).None? && PathsReady(Adopted(ov, delta))
    && (ChildOf(mid, LOCAL_FIXUPS).Some? ==>
          && ListFits(ChildOf(mid, LOCAL_FIXUPS).value)
          && forall n :: n in KidNames(ChildOf(mid, LOCAL_FIXUPS).value) ==> NotSameKid(mid, n, LOCAL_FIXUPS))
  }

  /** The bytes of an ASCII string. */
  function Ascii(s: string): seq<byte>
    requires forall i :: 0 <= i < |s| ==> s[i] < 256 as char
  {
    seq(|s|, i requires 0 <= i < |s| => s[i] as int)
  }

  lemma NamesSpelled()
    ensures PHANDLE == Ascii("phandle") && LINUX_PHANDLE == Ascii("linux,phandle")
    ensures OVERLAY == Ascii("__overlay__") && TARGET == Ascii("target") && TARGET_PATH == Ascii("target-path")
    ensures LOCAL_FIXUPS == Ascii("__local_fixups__")
    ensures FIXUPS == Ascii("__fixups__") && SYMBOLS == Ascii("__symbols__")
  {
  }

  /** The first step that fails, in the order of the source; 0 when all can succeed. */
  ghost function ApplyError(base: Tree, ov: Tree, room: Room): int
    requires base.TNode?
  {
    var delta := MaxPhandle(base);
    var mid := Renumbered(ov, delta);
    if RenumberError(ov, delta) != 0 then RenumberError(ov, delta)
    else if ChildOf(mid, LOCAL_FIXUPS).Some? && !Fixable(mid, ChildOf(mid, LOCAL_FIXUPS).value) then -BADOVERLAY
    else MergeError(base, Adopted(ov, delta), room)
  }

  lemma AddedShape(t: Tree, name: seq<byte>, delta: u32)
    ensures SameShape(t, Added(t, name, delta))
  {
    hide Enc32, Dec32;
    ShapeRefl(t);
    if IsCell(PropOf(t, name)) {
      ReplaceShape(t, name, Enc32(Wrap32(Dec32(PropOf(t, name).value, 0) + delta)));
    }
  }

  lemma {:induction false} RenumberedShape(t: Tree, delta: u32)
    ensures SameShape(t, Renumbered(t, delta))
    decreases t, 1
  {
    hide Added, BelowRenumbered;
    var b := BelowRenumbered(t, delta);
    BelowShape(t, delta);
    AddedShape(b, PHANDLE, delta);
    AddedShape(Added(b, PHANDLE, delta), LINUX_PHANDLE, delta);
    ShapeTrans(t, b, Added(b, PHANDLE, delta));
    ShapeTrans(t, Added(b, PHANDLE, delta), Renumbered(t, delta));
  }

  lemma {:induction false} BelowShape(t: Tree, delta: u32)
    ensures SameShape(t, BelowRenumbered(t, delta))
    decreases t, 0
  {
    hide Renumbered;
    match t
    case TNil =>
    case TProp(_, _, r) => BelowShape(r, delta);
    case TNode(_, k, r) => RenumberedShape(k, delta); BelowShape(r, delta);
  }

  /** Adopting an overlay makes no node appear. */
  lemma AdoptedShape(ov: Tree, delta: u32, name: seq<byte>)
    ensures ChildOf(ov, name).None? ==> ChildOf(Adopted(ov, delta), name).None?
  {
    hide Renumbered, Bumped, ChildOf, SameShape;
    var mid := Renumbered(ov, delta);
    RenumberedShape(ov, delta);
    ShapeChild(ov, mid, name);
    if ChildOf(mid, LOCAL_FIXUPS).Some? {
      BumpedShape(mid, ChildOf(mid, LOCAL_FIXUPS).value, delta);
      ShapeChild(mid, Adopted(ov, delta), name);
    }
  }

  lemma FixupsNamePath()
    ensures FIXUPS != [] && SLASH !in FIXUPS
  {
  }

  /** The overlay blob after its phandles have been adopted. */
  ghost predicate AdoptedBlob(o: Dtb, t: Tree)
    reads o, o.buf
  {
    o.Valid() && o.tree.NodeCons? && NamesOk(o.tree.kids, StringsOf(o.buf[..]))
      && Decode(o.tree.kids, StringsOf(o.buf[..])) == t
  }

  /** The two steps of `fdt_overlay_apply` that change the overlay. */
  method AdoptOverlay(o: Dtb, delta: u32, ghost ov: Tree) returns (ret: int)
    requires AdoptedBlob(o, ov) && Appliable(ov, delta)
    modifies o, o.buf
    ensures o.Valid()
    ensures var mid := Renumbered(ov, delta);
      ret == if RenumberError(ov, delta) != 0 then RenumberError(ov, delta)
             else if ChildOf(mid, LOCAL_FIXUPS).Some? && !Fixable(mid, ChildOf(mid, LOCAL_FIXUPS).value)
             then -BADOVERLAY else 0
    ensures ret == 0 ==> AdoptedBlob(o, Adopted(ov, delta))
  {
    hide Hdr, Block, Enc, StructOf, StringsOf, NamesOk, Decode, Flat, Renumbered, RenumberError, Fixable, Bumped,
      ListFits, NotSameKid, ChildOf, KidNames, PathsReady;
    ghost var kids;
    ret, kids := AdjustLocalPhandles(o, delta, o.tree);
    if ret != 0 {
      return;
    }
    ret, kids := UpdateLocalReferences(o, delta, o.tree);
  }

  /** `overlay_fixup_phandles` and `overlay_symbol_update` find nothing to do. */
  method NothingToFix(o: Dtb, ghost t: Tree) returns (fixups_off: int, ov_sym: int)
    requires AdoptedBlob(o, t) && ChildOf(t, FIXUPS).None? && ChildOf(t, SYMBOLS).None?
    ensures fixups_off == -NOTFOUND && ov_sym == -NOTFOUND
  {
    hide Hdr, Block, Enc, StructOf, StringsOf, NamesOk, Decode, Flat, ChildOf, FindChild, Resolve;
    ghost var f := o.tree;
    ghost var inner := Inside(Top, f.name, f.npad, f.rest);
    FixupsNamePath();
    OneName(f, FIXUPS);
    CarriesTree(o.buf[..], f);
    RootAt(o.buf[..], f);
    FindChildReads(inner, f.kids, StringsOf(o.buf[..]), FIXUPS);
    FindChildReads(inner, f.kids, StringsOf(o.buf[..]), SYMBOLS);
    fixups_off := PathOffset(o.buf[..], [SLASH] + FIXUPS, f);
    ov_sym := SubnodeOffset(o.buf[..], 0, SYMBOLS, Top, f);
  }

  /**
   `fdt_overlay_apply` for an overlay without "__fixups__" and "__symbols__": on success the base means its
   old tree with the overlay's fragments merged in, the overlay's phandles renumbered beyond those of the
   base and its own references following them. The overlay's magic is erased, on failure the base's too.
   */
  method OverlayApply(d: Dtb, o: Dtb) returns (ret: int)
    requires d != o && d.buf != o.buf && d.Valid() && d.tree.NodeCons? && o.Valid() && o.tree.NodeCons?
    requires NamesOk(o.tree.kids, StringsOf(o.buf[..]))
    requires Appliable(Decode(o.tree.kids, StringsOf(o.buf[..])), MaxPhandle(d.Meaning()))
    modifies d, d.buf, o, o.buf
    ensures old(d.Meaning()).TNode?
    ensures var base, ov := old(d.Meaning()), Decode(old(o.tree).kids, StringsOf(old(o.buf[..])));
      && ret == ApplyError(base, ov, old(RoomOf(d.buf[..])))
      && (ret == 0 ==> d.Valid() && MergeFragments(base, Adopted(ov, MaxPhandle(base))) == Merged(d.Meaning()))
    ensures |o.buf[..]| >= HEADER_SIZE && Hdr(o.buf[..]).magic == NO_MAGIC
    ensures ret != 0 ==> |d.buf[..]| >= HEADER_SIZE && Hdr(d.buf[..]).magic == NO_MAGIC
  {
    hide Block, Enc, StructOf, StringsOf, NamesOk, Decode, Renumbered, RenumberError, Fixable, Bumped, ChildOf,
      MaxPhandle, MergeFragments, PathsReady, ListFits, NotSameKid, KidNames, Hdr, RsvOf, Adopted, Put, Enc32,
        MergeError;
    ghost var base, ov := d.Meaning(), Decode(o.tree.kids, StringsOf(o.buf[..]));
    CarriesTree(d.buf[..], d.tree);
    BaseRoot(d);
    var delta;
    ret, delta := FindMaxPhandle(d.buf[..], d.tree);
    if ret == 0 {
      ret := AdoptOverlay(o, delta, ov);
      if ret == 0 {
        AdoptedShape(ov, delta, FIXUPS);
        AdoptedShape(ov, delta, SYMBOLS);
        var fixups_off, ov_sym := NothingToFix(o, Adopted(ov, delta));
        CarriesTree(o.buf[..], o.tree);
        if fixups_off < 0 && fixups_off != -NOTFOUND {
          ret := fixups_off;
        }
        if ret == 0 {
          ret := OverlayMerge(d, o.buf[..], o.tree);
        }
      }
    }
    LongEnough(o.buf[..], o.tree);
    HdrWord(o.buf[..], 0, NO_MAGIC);
    o.SetWord(0, NO_MAGIC);
    if ret != 0 {
      LongEnough(d.buf[..], d.tree);
      HdrWord(d.buf[..], 0, NO_MAGIC);
      d.SetWord(0, NO_MAGIC);
    }
  }

  lemma LongEnough(b: seq<byte>, t: Forest)
    requires Editable(b, t)
    ensures |b| >= HEADER_SIZE
  {
  }

  lemma BaseRoot(d: Dtb)
    requires d.Valid() && d.tree.NodeCons?
    ensures d.Meaning().TNode? && NamesOk(d.tree, StringsOf(d.buf[..]))
      && d.Meaning() == Decode(d.tree, StringsOf(d.buf[..]))
  {
    hide Hdr, Block, Enc;
  }
}
