/** The room a merge takes. */
module MergeRooms {
  import opened Bytes
  import opened Tokens
  import opened Trees
  import opened Blobs
  import opened Layouts
  import opened Merges
  import opened Fragments
  import opened FdtRw

  // Followed step by step: a value that replaces another one takes the difference, a new property its cell and its
  // name when that is not in the strings block yet, a new node its name and two tags.

  /** What an edit may use: the bytes free behind the strings, and the strings block. */
  datatype Room = Room(free: int, strs: seq<byte>)

  function RoomOf(b: seq<byte>): Room
    requires Sound(b)
  {
    Room(Free(Hdr(b)), StringsOf(b))
  }

  /** Bytes taken by setting a property. */
  ghost function SetTakes(t: Tree, name: seq<byte>, len: nat, strs: seq<byte>): int {
    match PropOf(t, name)
    case Some(v) => Align4(len) - Align4(|v|)
    case None => AddNeeds(strs, name, len)
  }

  /** The room left by setting a property, None when there is not enough. */
  ghost function SetRoom(t: Tree, name: seq<byte>, len: nat, r: Room): Option<Room> {
    var takes := SetTakes(t, name, len, r.strs);
    if takes > r.free then None
    else Some(Room(r.free - takes, if PropOf(t, name).Some? then r.strs else AddStrings(r.strs, name)))
  }

  /** Bytes taken by a new node. */
  function NodeTakes(name: seq<byte>): nat { 8 + Align4(|name| + 1) }

  ghost function PropsRoom(t: Tree, ov: Tree, r: Room): Option<Room>
    decreases ov
  {
    match ov
    case TProp(n, v, rest) =>
      (match SetRoom(t, n, |v|, r)
       case None => None
       case Some(q) => PropsRoom(SetProp(t, n, v), rest, q))
    case _ => Some(r)
  }

  ghost function ChildRoom(t: Tree, name: seq<byte>, kids: Tree, r: Room): Option<Room>
    decreases kids, 2
  {
    match ChildOf(t, name)
    case Some(k) => MergeRoom(k, kids, r)
    case None => if NodeTakes(name) > r.free then None else MergeRoom(TNil, kids, r.(free := r.free - NodeTakes(name)))
  }

  ghost function NodesRoom(t: Tree, ov: Tree, r: Room): Option<Room>
    decreases ov, 0
  {
    match ov
    case TNil => Some(r)
    case TProp(_, _, rest) => NodesRoom(t, rest, r)
    case TNode(n, k, rest) =>
      match ChildRoom(t, n, k, r)
      case None => None
      case Some(q) => NodesRoom(ApplyChild(t, n, k), rest, q)
  }

  /** The room left by `overlay_apply_node`, None when it stops for want of room. */
  ghost function MergeRoom(t: Tree, ov: Tree, r: Room): Option<Room>
    decreases ov, 1
  {
    match PropsRoom(t, ov, r)
    case None => None
    case Some(q) => NodesRoom(ApplyProps(t, ov), ov, q)
  }

  /** What `overlay_merge` returns: the first fragment without a target or without room decides. */
  ghost function MergeError(base: Tree, frags: Tree, r: Room): int
    requires base.TNode?
    decreases frags
  {
    match frags
    case TNil => 0
    case TProp(_, _, rest) => MergeError(base, rest, r)
    case TNode(_, k, rest) =>
      match ChildOf(k, OVERLAY)
      case None => MergeError(base, rest, r)
      case Some(ov) =>
        match GoalOf(base, k)
        case Fails(e) => e
        case Reach(c) =>
          GraftKeepsRoot(c.place, c.here, TNode(c.here.name, Merge(c.here.kids, ov), c.here.rest));
          match MergeRoom(c.here.kids, ov, r)
          case None => -NOSPACE
          case Some(q) => MergeError(MergedAt(c, ov), rest, q)
  }

  // ---------------------------------------------------------------- a bound that does not depend on the base

  lemma {:induction false} PropsEnough(t: Tree, ov: Tree, r: Room)
    requires PropsCost(ov) <= r.free
    ensures PropsRoom(t, ov, r).Some? && PropsRoom(t, ov, r).value.free >= r.free - PropsCost(ov)
    decreases ov
  {
    match ov
    case TProp(n, v, rest) => PropsEnough(SetProp(t, n, v), rest, SetRoom(t, n, |v|, r).value);
    case _ =>
  }

  lemma {:induction false} NodesEnough(t: Tree, ov: Tree, r: Room)
    requires NodesCost(ov) <= r.free
    ensures NodesRoom(t, ov, r).Some? && NodesRoom(t, ov, r).value.free >= r.free - NodesCost(ov)
    decreases ov, 0
  {
    match ov
    case TNil =>
    case TProp(_, _, rest) => NodesEnough(t, rest, r);
    case TNode(n, k, rest) =>
      ChildEnough(t, n, k, r);
      NodesEnough(ApplyChild(t, n, k), rest, ChildRoom(t, n, k, r).value);
  }

  lemma {:induction false} ChildEnough(t: Tree, name: seq<byte>, kids: Tree, r: Room)
    requires NodeTakes(name) + Cost(kids) <= r.free
    ensures ChildRoom(t, name, kids, r).Some?
      && ChildRoom(t, name, kids, r).value.free >= r.free - NodeTakes(name) - Cost(kids)
    decreases kids, 2
  {
    match ChildOf(t, name)
    case Some(k) => MergeEnough(k, kids, r);
    case None => MergeEnough(TNil, kids, r.(free := r.free - NodeTakes(name)));
  }

  /** The cost with every property and node taken for a new one is always enough. */
  lemma {:induction false} MergeEnough(t: Tree, ov: Tree, r: Room)
    requires Cost(ov) <= r.free
    ensures MergeRoom(t, ov, r).Some? && MergeRoom(t, ov, r).value.free >= r.free - Cost(ov)
    decreases ov, 1
  {
    PropsEnough(t, ov, r);
    NodesEnough(ApplyProps(t, ov), ov, PropsRoom(t, ov, r).value);
  }

  /** With that much room the merge fails only for want of a target, exactly when the merge of the trees does. */
  lemma {:induction false} FragsEnough(base: Tree, frags: Tree, r: Room)
    requires base.TNode? && FragsCost(frags) <= r.free
    ensures MergeError(base, frags, r) == match MergeFragments(base, frags) case Merged(_) => 0 case Failed(e) => e
    decreases frags
  {
    hide Cost, MergeRoom, ChildOf, GoalOf, MergedAt;
    match frags
    case TNil =>
    case TProp(_, _, rest) => FragsEnough(base, rest, r);
    case TNode(_, k, rest) =>
      if ChildOf(k, OVERLAY).None? {
        FragsEnough(base, rest, r);
      } else if GoalOf(base, k).Reach? {
        var c, ov := GoalOf(base, k).at, ChildOf(k, OVERLAY).value;
        MergeEnough(c.here.kids, ov, r);
        RootStays(c, ov, base);
        FragsEnough(MergedAt(c, ov), rest, MergeRoom(c.here.kids, ov, r).value);
      }
  }

  lemma RootStays(c: TCursor, ov: Tree, base: Tree)
    requires c.here.TNode? && base.TNode? && Graft(c.place, c.here) == base
    ensures MergedAt(c, ov).TNode?
  {
    hide Merge;
    GraftKeepsRoot(c.place, c.here, TNode(c.here.name, Merge(c.here.kids, ov), c.here.rest));
  }

  /** Whatever the room: success is the merge of the trees, and without success a target or room was missing. */
  lemma {:induction false} MergeErrorIs(base: Tree, frags: Tree, r: Room)
    requires base.TNode?
    ensures MergeError(base, frags, r) == 0 ==> MergeFragments(base, frags).Merged?
    ensures MergeError(base, frags, r) != 0 ==>
      MergeError(base, frags, r) == -NOSPACE || MergeFragments(base, frags) == Failed(MergeError(base, frags, r))
    decreases frags
  {
    hide Cost, MergeRoom, ChildOf, GoalOf, MergedAt;
    match frags
    case TNil =>
    case TProp(_, _, rest) => MergeErrorIs(base, rest, r);
    case TNode(_, k, rest) =>
      if ChildOf(k, OVERLAY).None? {
        MergeErrorIs(base, rest, r);
      } else if GoalOf(base, k).Reach? {
        var c, ov := GoalOf(base, k).at, ChildOf(k, OVERLAY).value;
        if MergeRoom(c.here.kids, ov, r).Some? {
          RootStays(c, ov, base);
          MergeErrorIs(MergedAt(c, ov), rest, MergeRoom(c.here.kids, ov, r).value);
        }
      }
  }
}
