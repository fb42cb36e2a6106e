/** fdt/fdt_ro.c and fdt/fdt_overlay.c: paths, ancestors and path lengths. */
module FdtPath {
  import opened Bytes
  import opened Tokens
  import opened Forests
  import opened Trees
  import opened Walks
  import opened Blobs
  import opened Paths
  import opened Fdt
  import opened FdtRo

  /** The blob's root is at offset 0 and the cursor is the root or a node below it. */
  ghost predicate NodeInTree(b: seq<byte>, s: Spot, f: Forest, offset: int)
  {
    At(b, s, f, offset) && f.NodeCons? && Plug(s, f).NodeCons? && (s == Top || InRoot(s))
  }

  /** A walk from the root toward `(ts, tf)` that stands on `c`. */
  ghost predicate OnTheWay(b: seq<byte>, c: Cursor, offset: int, depth: int, ts: Spot, tf: Forest)
  {
    && c.here.NodeCons? && At(b, c.spot, c.here, offset) && Plug(c.spot, c.here) == Plug(ts, tf)
    && (c.spot == Top || InRoot(c.spot)) && |Pre(c.spot)| <= |Pre(ts)| && depth == |AncSpots(c.spot)|
  }

  lemma StartOfWay(b: seq<byte>, ts: Spot, tf: Forest, nodeoffset: int)
    requires NodeInTree(b, ts, tf, nodeoffset)
    ensures OnTheWay(b, Cursor(Top, Plug(ts, tf)), 0, 0, ts, tf)
  {
    AtStart(b, Plug(ts, tf));
  }

  /** The loop test `offset == nodeoffset` recognizes the target and `offset <= nodeoffset` never fails. */
  lemma Arrived(b: seq<byte>, c: Cursor, offset: int, depth: int, ts: Spot, tf: Forest, nodeoffset: int)
    requires NodeInTree(b, ts, tf, nodeoffset) && OnTheWay(b, c, offset, depth, ts, tf)
    ensures offset <= nodeoffset && (offset == nodeoffset <==> c == Cursor(ts, tf))
  {
    hide Hdr, Pre, Plug, Enc, InRoot, AncSpots, StructOf;
    OffOrder(c.spot, c.here, ts, tf);
    if offset == nodeoffset {
      CursorUnique(c.spot, c.here, ts, tf);
    }
  }

  /** One step of the walk: `fdt_next_node` from `c`. */
  method WayStep(b: seq<byte>, offset0: int, depth0: int, nodeoffset: int, ghost c: Cursor, ghost ts: Spot,
      ghost tf: Forest)
    returns (offset: int, depth: int, ghost d: Cursor)
    requires NodeInTree(b, ts, tf, nodeoffset) && OnTheWay(b, c, offset0, depth0, ts, tf) && offset0 != nodeoffset
    ensures OnTheWay(b, d, offset, depth, ts, tf) && |Pre(c.spot)| < |Pre(d.spot)| && InRoot(d.spot) && 1 <= depth
    ensures AncSpots(d.spot) <= AncSpots(c.spot) + [c.spot]
    ensures AncNames(d.spot) <= FullNames(c.spot, c.here)
  {
    hide Hdr, Plug, Enc, StructOf, Pre, Block, Off;
    Arrived(b, c, offset0, depth0, ts, tf, nodeoffset);
    ghost var inner := Inside(c.spot, c.here.name, c.here.npad, c.here.rest);
    ghost var w;
    BeforeTarget(c, ts, tf);
    NextFacts(c.spot, c.here);
    ScanToward(inner, c.here.kids, ts, tf);
    offset, depth, w := NextNodeAt(b, offset0, depth0, true, c.spot, c.here);
    d := w.at;
    InRootFacts(d.spot);
  }

  lemma BeforeTarget(c: Cursor, ts: Spot, tf: Forest)
    requires Plug(c.spot, c.here) == Plug(ts, tf) && |Pre(c.spot)| <= |Pre(ts)| && c != Cursor(ts, tf)
    ensures |Pre(c.spot)| < |Pre(ts)| && ts != Top
  {
    hide Plug;
    if |Pre(c.spot)| == |Pre(ts)| {
      CursorUnique(c.spot, c.here, ts, tf);
    }
  }

  // ---------------------------------------------------------------- ancestors

  /** Byte offset of the ancestor at a depth; the node itself is at its own depth. */
  ghost function AncOffset(s: Spot, depth: nat): nat
    requires AllValid(Pre(s)) && depth <= |AncSpots(s)|
  {
    if depth == |AncSpots(s)| then Off(s) else (AncPrefix(s, depth); Off(AncSpots(s)[depth]))
  }

  /** `fdt_supernode_atdepth_offset`: the node's ancestor at that depth, and the node's own depth. */
  method SupernodeAtDepth(b: seq<byte>, nodeoffset: int, superdepth: int, ghost ts: Spot, ghost tf: Forest)
    returns (r: int, nodedepth: int)
    requires NodeInTree(b, ts, tf, nodeoffset)
    ensures superdepth >= 0 ==> nodedepth == |AncSpots(ts)|
    ensures r == if superdepth < 0 || superdepth > |AncSpots(ts)| then -NOTFOUND else AncOffset(ts, superdepth)
  {
    hide Hdr, Plug, Enc, StructOf, Pre, Block, Off;
    nodedepth := 0;
    if superdepth < 0 {
      return -NOTFOUND, 0;
    }
    var super := -INTERNAL;
    var offset, depth := 0, 0;
    ghost var c := Cursor(Top, Plug(ts, tf));
    StartOfWay(b, ts, tf, nodeoffset);
    while true
      invariant OnTheWay(b, c, offset, depth, ts, tf)
      invariant superdepth < depth ==> super == AncOffset(c.spot, superdepth)
      decreases |Pre(ts)| - |Pre(c.spot)|
    {
      Arrived(b, c, offset, depth, ts, tf, nodeoffset);
      if depth == superdepth {
        super := offset;
      }
      if offset == nodeoffset {
        nodedepth := depth;
        if superdepth > depth {
          return -NOTFOUND, nodedepth;
        } else {
          return super, nodedepth;
        }
      }
      ghost var d;
      offset, depth, d := WayStep(b, offset, depth, nodeoffset, c, ts, tf);
      c := d;
    }
  }

  /** `fdt_node_depth`. */
  method NodeDepth(b: seq<byte>, nodeoffset: int, ghost ts: Spot, ghost tf: Forest) returns (r: int)
    requires NodeInTree(b, ts, tf, nodeoffset)
    ensures r == |AncSpots(ts)|
  {
    hide Hdr, Plug, Enc, StructOf, Block, Off;
    var err, nodedepth := SupernodeAtDepth(b, nodeoffset, 0, ts, tf);
    RootOffset(ts);
    if err != 0 {
      assert false;
      return if err < 0 then err else -INTERNAL;
    }
    return nodedepth;
  }

  lemma RootOffset(s: Spot)
    requires AllValid(Pre(s)) && (s == Top || InRoot(s))
    ensures AncOffset(s, 0) == 0
  {
    InRootFacts(s);
    assert Enc(Pre(Top)) == [];
  }

  /** `fdt_parent_offset`: the enclosing node; the root has none. */
  method ParentOffset(b: seq<byte>, nodeoffset: int, ghost ts: Spot, ghost tf: Forest) returns (r: int)
    requires NodeInTree(b, ts, tf, nodeoffset)
    ensures ts == Top ==> r == -NOTFOUND
    ensures ts != Top ==> var p := Parent(ts, tf); NodeInTree(b, p.spot, p.here, r)
  {
    hide Hdr, Plug, Enc, StructOf, Block, Off;
    var nodedepth := NodeDepth(b, nodeoffset, ts, tf);
    var depth;
    r, depth := SupernodeAtDepth(b, nodeoffset, nodedepth - 1, ts, tf);
    InRootFacts(ts);
    if ts != Top {
      ParentIsLast(b, ts, tf);
    }
  }

  lemma ParentIsLast(b: seq<byte>, s: Spot, f: Forest)
    requires InRoot(s) && f.NodeCons? && Plug(s, f).NodeCons? && AllValid(Pre(s)) && At(b, s, f, Off(s))
    ensures |AncSpots(s)| >= 1
    ensures var p := Parent(s, f); NodeInTree(b, p.spot, p.here, AncOffset(s, |AncSpots(s)| - 1))
    ensures var p := Parent(s, f); FullNames(p.spot, p.here) == AncNames(s)
  {
    hide Hdr, Enc, StructOf, Block;
    RewindFacts(s, f);
    InRootFacts(s);
    var c := Rewind(s, f);
    assert c.spot.Inside?;
    var p := Parent(s, f);
    assert AncSpots(s) == AncSpots(c.spot) == AncSpots(p.spot) + [p.spot];
    AncPrefix(s, |AncSpots(s)| - 1);
    assert Plug(p.spot, p.here) == Plug(s, f);
  }

  // ---------------------------------------------------------------- fdt_get_path

  /** `buf` begins with the first `k` names, each with its slash; the next one did not fit. */
  ghost predicate Pushed(buf: seq<byte>, buflen: nat, p: nat, k: nat, names: seq<seq<byte>>)
  {
    && k <= |names| && p == |Joined(names[..k])| <= buflen <= |buf| && buf[..p] == Joined(names[..k])
    && (k < |names| ==> |Joined(names[..k + 1])| > buflen)
  }

  /** The same pushed names, seen from the next node on the way. */
  lemma PushedNext(buf: seq<byte>, buflen: nat, p: nat, k: nat, names: seq<seq<byte>>, anc: seq<seq<byte>>,
      name: seq<byte>)
    requires Pushed(buf, buflen, p, k, names) && anc <= names && k < |anc|
    ensures Pushed(buf, buflen, p, k, anc + [name])
  {
    assert names[..k] == (anc + [name])[..k];
    assert names[..k + 1] == (anc + [name])[..k + 1];
  }

  /** Back to the slash in front of the last pushed name. */
  method PopName(buf: array<byte>, p0: nat, ghost names: seq<seq<byte>>, ghost k: nat) returns (p: nat)
    requires 2 <= k <= |names| && p0 == |Joined(names[..k])| <= buf.Length && buf[..p0] == Joined(names[..k])
    requires SLASH !in names[k - 1]
    ensures p == |Joined(names[..k - 1])| <= p0 && buf[..p] == Joined(names[..k - 1])
  {
    hide Joined;
    ghost var a, n := names[..k - 1], names[k - 1];
    ghost var q := |Joined(a)|;
    assert names[..k] == a + [n];
    JoinedStep(a, n);
    EndsWithSlash(a);
    ghost var j := Joined(names[..k]);
    assert forall i :: 0 <= i < p0 ==> buf[i] == j[i];
    p := p0 - 1;
    while buf[p - 1] != SLASH
      invariant q <= p <= p0 - 1
      decreases p
    {
      p := p - 1;
    }
    assert buf[..p] == j[..q];
  }

  lemma EndsWithSlash(names: seq<seq<byte>>)
    requires names != []
    ensures Joined(names) != [] && Joined(names)[|Joined(names)| - 1] == SLASH
  {
  }

  /** Every node name in the forest is free of slashes. */
  predicate SlashFreeTree(f: Forest) {
    match f
    case Nil => true
    case PropCons(_, _, _, r) => SlashFreeTree(r)
    case NopCons(r) => SlashFreeTree(r)
    case NodeCons(n, _, k, r) => SLASH !in n && SlashFreeTree(k) && SlashFreeTree(r)
  }

  lemma {:induction false} SlashFreeNames(s: Spot, f: Forest)
    requires SlashFreeTree(Plug(s, f))
    ensures SlashFree(AncNames(s)) && SlashFreeTree(f)
  {
    match s
    case Top =>
    case AfterProp(u, o, v, p) => SlashFreeNames(u, PropCons(o, v, p, f));
    case AfterNop(u) => SlashFreeNames(u, NopCons(f));
    case AfterNode(u, n, p, k) => SlashFreeNames(u, NodeCons(n, p, k, f));
    case Inside(u, n, p, r) => SlashFreeNames(u, NodeCons(n, p, f, r));
  }

  /** Loop body of `fdt_get_path` at one node: pop back to its depth, then push its name if it fits. */
  method PushName(buf: array<byte>, buflen: nat, p0: nat, pdepth0: nat, depth: nat, name: seq<byte>,
                  ghost prev: seq<seq<byte>>, ghost anc: seq<seq<byte>>)
    returns (p: nat, pdepth: nat)
    requires buflen <= buf.Length && Pushed(buf[..], buflen, p0, pdepth0, prev)
    requires anc <= prev && depth == |anc| && SlashFree(prev) && (depth == 0 ==> pdepth0 == 0)
    modifies buf
    ensures Pushed(buf[..], buflen, p, pdepth, anc + [name])
  {
    hide Joined;
    p, pdepth := p0, pdepth0;
    while pdepth > depth
      invariant depth <= pdepth || pdepth == pdepth0
      invariant pdepth <= pdepth0 && p == |Joined(prev[..pdepth])| <= buflen && buf[..p] == Joined(prev[..pdepth])
      invariant buf[..] == old(buf[..])
    {
      assert prev[pdepth - 1] in prev;
      p := PopName(buf, p, prev, pdepth);
      pdepth := pdepth - 1;
    }
    if pdepth >= depth {
      assert prev[..depth] == anc;
      JoinedStep(anc, name);
      assert (anc + [name])[..depth + 1] == anc + [name];
      assert (anc + [name])[..depth] == anc;
      if p + |name| + 1 <= buflen {
        ghost var j := Joined(anc);
        Memcpy(buf, p, name);
        p := p + |name|;
        buf[p] := SLASH;
        p := p + 1;
        pdepth := pdepth + 1;
        assert buf[..p] == j + name + [SLASH];
      }
    } else {
      PushedNext(buf[..], buflen, p, pdepth, prev, anc, name);
    }
  }

  /** The path with its NUL fits exactly when the joined names fit. */
  lemma PathFits(names: seq<seq<byte>>, buflen: nat, k: nat)
    requires names != [] && names[0] == [] && k < |names|
    ensures |PathString(names)| + 1 == (if |names| == 1 then 2 else |Joined(names)|)
    ensures |names| > 1 ==> |Joined(names)| >= 2
    ensures |Joined(names[..k + 1])| > buflen >= 2 ==> |PathString(names)| + 1 > buflen
  {
    var one := names[..1];
    assert one == [] + [[]];
    JoinedStep([], []);
    JoinedPrefix(names, 1);
    JoinedPrefix(names, k + 1);
    if |names| == 1 {
      assert names == one && names[..k + 1] == one;
    }
  }

  lemma FirstName(s: Spot, f: Forest)
    requires Plug(s, f).NodeCons? && f.NodeCons? && (s == Top || InRoot(s))
    ensures FullNames(s, f)[0] == Plug(s, f).name
  {
    if s != Top {
      InRootFacts(s);
      FirstAncestor(s, f);
    }
  }

  lemma {:induction false} FirstAncestor(s: Spot, f: Forest)
    requires InRoot(s)
    ensures |AncNames(s)| >= 1 && Plug(s, f).NodeCons? && AncNames(s)[0] == Plug(s, f).name
  {
    match s
    case AfterProp(u, o, v, p) => FirstAncestor(u, PropCons(o, v, p, f));
    case AfterNop(u) => FirstAncestor(u, NopCons(f));
    case AfterNode(u, n, p, k) => FirstAncestor(u, NodeCons(n, p, k, f));
    case Inside(u, n, p, r) =>
      if u != Top {
        FirstAncestor(u, NodeCons(n, p, f, r));
      }
  }

  /**
   `fdt_get_path`: the node's path and a NUL in the buffer, or NOSPACE exactly when they do not fit.
   */
  method GetPath(b: seq<byte>, nodeoffset: int, buf: array<byte>, buflen: nat, ghost ts: Spot,
      ghost tf: Forest) returns (err: int)
    requires NodeInTree(b, ts, tf, nodeoffset) && buflen <= buf.Length
    requires Plug(ts, tf).name == [] && SlashFreeTree(Plug(ts, tf))
    modifies buf
    ensures var path := PathString(FullNames(ts, tf));
      && err == (if buflen < 2 || |path| + 1 > buflen then -NOSPACE else 0)
      && (err == 0 ==> |path| + 1 <= buf.Length && buf[..|path| + 1] == path + [0])
  {
    hide Hdr, Plug, Enc, StructOf, Block, Off, Pre, Joined, PathString, SlashFreeTree, AncNames;
    if buflen < 2 {
      return -NOSPACE;
    }
    var pdepth: nat, p: nat := 0, 0;
    var offset, depth := 0, 0;
    ghost var c := Cursor(Top, Plug(ts, tf));
    ghost var prev: seq<seq<byte>> := [];
    StartOfWay(b, ts, tf, nodeoffset);
    NoNames();
    FirstName(ts, tf);
    while true
      invariant OnTheWay(b, c, offset, depth, ts, tf) && depth >= 0 && (depth == 0 ==> pdepth == 0)
      invariant Pushed(buf[..], buflen, p, pdepth, prev) && AncNames(c.spot) <= prev && SlashFree(prev)
      decreases |Pre(ts)| - |Pre(c.spot)|
    {
      Arrived(b, c, offset, depth, ts, tf, nodeoffset);
      var name := GetName(b, offset, c.spot, c.here);
      p, pdepth := PushName(buf, buflen, p, pdepth, depth, name, prev, AncNames(c.spot));
      prev := FullNames(c.spot, c.here);
      NodeSlashFree(c.spot, c.here);
      if offset == nodeoffset {
        if pdepth < depth + 1 {
          PathFits(prev, buflen, pdepth);
          return -NOSPACE;
        }
        PathFits(prev, buflen, 0);
        assert prev[..pdepth] == prev;
        FinishPath(buf[..], p, prev);
        if p > 1 {
          p := p - 1;
        }
        buf[p] := 0;
        return 0;
      }
      ghost var d;
      offset, depth, d := WayStep(b, offset, depth, nodeoffset, c, ts, tf);
      c := d;
    }
  }

  lemma NoNames()
    ensures Joined([]) == [] && AncNames(Top) == []
  {
  }

  lemma NodeSlashFree(s: Spot, f: Forest)
    requires f.NodeCons? && SlashFreeTree(Plug(s, f))
    ensures SlashFree(FullNames(s, f))
  {
    hide Plug;
    SlashFreeNames(s, f);
  }

  /** The last slash gives way to the NUL, except that the root's path keeps it. */
  lemma FinishPath(buf: seq<byte>, p: nat, names: seq<seq<byte>>)
    requires names != [] && names[0] == [] && p <= |buf| && buf[..p] == Joined(names) && p == |Joined(names)|
    ensures |names| == 1 ==> p == 1 && PathString(names) == buf[..1]
    ensures |names| > 1 ==> p > 1 && PathString(names) == buf[..p - 1]
  {
    hide Joined;
    RootJoined();
    JoinedPrefix(names, 1);
    assert names[..1] == [[]];
    if |names| == 1 {
      assert names == names[..1];
      EndsWithSlash(names);
    } else {
      assert Joined(names)[..p - 1] == buf[..p][..p - 1] == buf[..p - 1];
    }
  }

  // ---------------------------------------------------------------- fdt_path_offset

  /** Length of the path component at the front: up to the next slash. */
  function ComponentLen(path: seq<byte>): (n: nat)
    ensures n <= |path| && SLASH !in path[..n] && (n < |path| ==> path[n] == SLASH)
  {
    if path == [] || path[0] == SLASH then 0 else 1 + ComponentLen(path[1..])
  }

  /** Following the components of a path downwards from a node. */
  function Resolve(c: Cursor, path: seq<byte>): (r: Option<Cursor>)
    requires c.here.NodeCons?
    ensures r.Some? ==> r.value.here.NodeCons? && Plug(r.value.spot, r.value.here) == Plug(c.spot, c.here)
    decreases |path|
  {
    if path == [] then Some(c)
    else if path[0] == SLASH then Resolve(c, path[1..])
    else
      var n := ComponentLen(path);
      match FindChild(Inside(c.spot, c.here.name, c.here.npad, c.here.rest), c.here.kids, path[..n])
      case None => None
      case Some(d) => Resolve(d, path[n..])
  }

  /** The path is these names, each behind one slash or more, and perhaps slashes at the end. */
  predicate Spells(path: seq<byte>, names: seq<seq<byte>>)
    decreases |names|
  {
    if names == [] then forall i :: 0 <= i < |path| ==> path[i] == 47
    else exists k :: 0 < k <= |path| && SpellsFirst(path, k, names[0]) && Spells(path[k + |names[0]|..], names[1..])
  }

  /** `k` slashes, the name, and then the end or another slash. */
  predicate SpellsFirst(path: seq<byte>, k: nat, name: seq<byte>) {
    && (forall i :: 0 <= i < k && i < |path| ==> path[i] == 47) && name != [] && 47 !in name
    && k + |name| <= |path| && path[k..k + |name|] == name && (k + |name| < |path| ==> path[k + |name|] == 47)
  }

  lemma ComponentSpelled(path: seq<byte>, k: nat)
    requires 0 < k < |path| && path[k] != 47 && forall i :: 0 <= i < k ==> path[i] == 47
    ensures var name := path[k..][..ComponentLen(path[k..])];
      SpellsFirst(path, k, name) && k + |name| <= |path| && (k + |name| < |path| ==> path[k + |name|] == 47)
  {
    var rest := path[k..];
    var n := ComponentLen(rest);
    assert rest[0] == path[k];
    assert path[k..k + n] == rest[..n];
    assert n < |rest| ==> rest[n] == path[k + n];
  }

  lemma SpelledMore(path: seq<byte>, k: nat, name: seq<byte>, names: seq<seq<byte>>)
    requires 0 < k <= |path| && SpellsFirst(path, k, name) && Spells(path[k + |name|..], names)
    ensures Spells(path, [name] + names)
  {
    var all := [name] + names;
    assert all[1..] == names && SpellsFirst(path, k, all[0]);
    assert Spells(path[k + |all[0]|..], all[1..]);
  }

  /** Every absolute path is spelled that way. */
  lemma {:induction false} EverySpelled(path: seq<byte>, k: nat)
    requires k <= |path| && (path == [] || k > 0) && forall i :: 0 <= i < k ==> path[i] == 47
    ensures exists names :: Spells(path, names)
    decreases |path|, |path| - k
  {
    hide SpellsFirst, ComponentLen;
    if k == |path| {
      assert Spells(path, []);
    } else if path[k] == 47 {
      EverySpelled(path, k + 1);
    } else {
      var name := path[k..][..ComponentLen(path[k..])];
      var rest := path[k + |name|..];
      ComponentSpelled(path, k);
      EverySpelled(rest, if rest == [] then 0 else 1);
      var names :| Spells(rest, names);
      SpelledMore(path, k, name, names);
    }
  }

  /** From node to node: each name leads to the first subnode that answers to it. */
  ghost predicate Steps(c: Cursor, names: seq<seq<byte>>, found: Option<Cursor>)
    requires c.here.NodeCons?
    decreases |names|
  {
    if names == [] then found == Some(c)
    else
      var cs := Subnodes(Inside(c.spot, c.here.name, c.here.npad, c.here.rest), c.here.kids);
      if exists i :: 0 <= i < |cs| && Answers(cs[i].here.name, names[0]) then
        exists i ::
          && 0 <= i < |cs| && Answers(cs[i].here.name, names[0])
          && (forall j :: 0 <= j < i ==> !Answers(cs[j].here.name, names[0]))
          && Steps(cs[i], names[1..], found)
      else found.None?
  }

  lemma {:induction false} ResolveSteps(c: Cursor, path: seq<byte>, names: seq<seq<byte>>)
    requires c.here.NodeCons? && Spells(path, names)
    ensures Steps(c, names, Resolve(c, path))
    decreases |names|
  {
    hide Plug, Answers, ComponentLen;
    if names == [] {
      ResolveSlashes(c, path, |path|);
    } else {
      var k :| 0 < k <= |path| && SpellsFirst(path, k, names[0]) && Spells(path[k + |names[0]|..], names[1..]);
      var name, rest := names[0], path[k + |names[0]|..];
      var inner := Inside(c.spot, c.here.name, c.here.npad, c.here.rest);
      ResolveSlashes(c, path, k);
      assert path[k..] == name + rest;
      ComponentOf(name, rest);
      assert (name + rest)[..|name|] == name && (name + rest)[|name|..] == rest;
      ResolveComponent(c, path[k..]);
      FindChildFirst(inner, c.here.kids, name);
      if FindChild(inner, c.here.kids, name).Some? {
        ResolveSteps(FindChild(inner, c.here.kids, name).value, rest, names[1..]);
      }
    }
  }

  lemma {:induction false} ResolveSlashes(c: Cursor, path: seq<byte>, k: nat)
    requires c.here.NodeCons? && k <= |path| && forall i :: 0 <= i < k ==> path[i] == SLASH
    ensures Resolve(c, path) == Resolve(c, path[k..])
    decreases k
  {
    hide Plug, FindChild, ComponentLen;
    if k == 0 {
      assert path[0..] == path;
    } else {
      ResolveSlashes(c, path[1..], k - 1);
      assert path[1..][k - 1..] == path[k..];
    }
  }

  /** `fdt_path_offset` of an absolute path. */
  method PathOffset(b: seq<byte>, path: seq<byte>, ghost f: Forest) returns (offset: int)
    requires Carries(b, f) && f.NodeCons? && path != [] && path[0] == SLASH
    ensures Located(b, Resolve(Cursor(Top, f), path), offset)
    ensures forall names :: Spells(path, names) ==>
      exists found :: Steps(Cursor(Top, f), names, found) && Located(b, found, offset)
  {
    hide Hdr, Plug, Enc, StructOf, Block, Off, Pre, ComponentLen, Steps, Spells;
    forall names | Spells(path, names) ensures Steps(Cursor(Top, f), names, Resolve(Cursor(Top, f), path)) {
      ResolveSteps(Cursor(Top, f), path, names);
    }
    AtStart(b, f);
    offset := 0;
    ghost var c := Cursor(Top, f);
    var p, end := 0, |path|;
    while p < end
      invariant 0 <= p <= end && c.here.NodeCons? && offset >= 0 && At(b, c.spot, c.here, offset)
      invariant Resolve(c, path[p..]) == Resolve(Cursor(Top, f), path)
    {
      while path[p] == SLASH
        invariant 0 <= p < end
        invariant Resolve(c, path[p..]) == Resolve(Cursor(Top, f), path)
        decreases end - p
      {
        ResolveSlash(c, path[p..]);
        assert path[p..][1..] == path[p + 1..];
        p := p + 1;
        if p == end {
          return;
        }
      }
      var q := p + ComponentLen(path[p..]);
      ResolveComponent(c, path[p..]);
      assert path[p..][..q - p] == path[p..q] && path[p..][q - p..] == path[q..];
      ghost var found := FindChild(Inside(c.spot, c.here.name, c.here.npad, c.here.rest), c.here.kids, path[p..q]);
      offset := SubnodeOffset(b, offset, path[p..q], c.spot, c.here);
      if offset < 0 {
        return;
      }
      c := found.value;
      p := q;
    }
  }

  lemma ResolveSlash(c: Cursor, path: seq<byte>)
    requires c.here.NodeCons? && path != [] && path[0] == SLASH
    ensures Resolve(c, path) == Resolve(c, path[1..])
  {
  }

  lemma ResolveComponent(c: Cursor, path: seq<byte>)
    requires c.here.NodeCons? && path != [] && path[0] != SLASH
    ensures var n := ComponentLen(path); var inner := Inside(c.spot, c.here.name, c.here.npad, c.here.rest);
      n > 0 && Resolve(c, path) == match FindChild(inner, c.here.kids, path[..n])
                                   case None => None
                                   case Some(d) => Resolve(d, path[n..])
    ensures var inner := Inside(c.spot, c.here.name, c.here.npad, c.here.rest);
      match FindChild(inner, c.here.kids, path[..ComponentLen(path)]) case Some(d) => d.here.NodeCons? case None => true
  {
    hide Plug;
  }

  /** At every step of the node's path no earlier sibling answers to the name. */
  predicate Unambiguous(s: Spot, f: Forest)
    requires f.NodeCons? && (s == Top || InRoot(s))
    decreases |AncSpots(s)|
  {
    s == Top || (FirstToAnswer(s, f.name) && (
      ParentAbove(s, f);
      var p := Parent(s, f);
      Unambiguous(p.spot, p.here)))
  }

  lemma ParentAbove(s: Spot, f: Forest)
    requires InRoot(s)
    ensures var p := Parent(s, f);
      && p.here.NodeCons? && (p.spot == Top || InRoot(p.spot)) && |AncSpots(p.spot)| == |AncSpots(s)| - 1
      && Plug(p.spot, p.here) == Plug(s, f) && FullNames(p.spot, p.here) == AncNames(s)
      && Rewind(s, f) == Cursor(Inside(p.spot, p.here.name, p.here.npad, p.here.rest), p.here.kids)
  {
    RewindFacts(s, f);
    var c := Rewind(s, f);
    assert c.spot.Inside?;
    var p := Parent(s, f);
    assert AncSpots(c.spot) == AncSpots(p.spot) + [p.spot];
    assert Plug(p.spot, p.here) == Plug(c.spot, c.here);
  }

  /** Following the joined names arrives at the node and goes on from there. */
  lemma {:induction false} ResolveJoined(s: Spot, f: Forest, rest: seq<byte>)
    requires f.NodeCons? && (s == Top || InRoot(s)) && Plug(s, f).NodeCons?
    requires PathNames(FullNames(s, f)) && Unambiguous(s, f)
    ensures Resolve(Cursor(Top, Plug(s, f)), Joined(FullNames(s, f)) + rest) == Resolve(Cursor(s, f), rest)
    decreases |AncSpots(s)|
  {
    hide Plug, Joined;
    var root := Cursor(Top, Plug(s, f));
    if s == Top {
      RootJoined();
      TopIsAll(f);
      TopNames(f);
      EndsWithSlash([[]]);
      assert Joined([[]]) == [SLASH];
      ResolveSlash(root, [SLASH] + rest);
      assert ([SLASH] + rest)[1..] == rest;
    } else {
      InnerName(s, f);
      StepDown(s, f, [SLASH] + rest);
      ResolveSlash(Cursor(s, f), [SLASH] + rest);
      assert ([SLASH] + rest)[1..] == rest;
      JoinedStep(AncNames(s), f.name);
      assert Joined(FullNames(s, f)) + rest == Joined(AncNames(s)) + (f.name + ([SLASH] + rest));
      ParentAbove(s, f);
      var p := Parent(s, f);
      OuterNames(s, f);
      ResolveJoined(p.spot, p.here, f.name + ([SLASH] + rest));
    }
  }

  lemma OuterNames(s: Spot, f: Forest)
    requires InRoot(s) && f.NodeCons? && PathNames(FullNames(s, f))
    ensures PathNames(AncNames(s))
  {
    InRootFacts(s);
    assert forall i :: 0 <= i < |AncNames(s)| ==> AncNames(s)[i] == FullNames(s, f)[i];
  }

  lemma InnerName(s: Spot, f: Forest)
    requires InRoot(s) && f.NodeCons? && PathNames(FullNames(s, f))
    ensures f.name != [] && SLASH !in f.name && AncNames(s) != []
  {
    InRootFacts(s);
    assert FullNames(s, f)[|AncNames(s)|] == f.name;
  }

  /** One component: from the parent to the node. */
  lemma StepDown(s: Spot, f: Forest, rest: seq<byte>)
    requires InRoot(s) && f.NodeCons? && FirstToAnswer(s, f.name) && f.name != [] && SLASH !in f.name
    requires rest == [] || rest[0] == SLASH
    ensures Parent(s, f).here.NodeCons?
    ensures Resolve(Parent(s, f), f.name + rest) == Resolve(Cursor(s, f), rest)
  {
    hide Plug;
    ParentAbove(s, f);
    FindsItself(s, f, f.name);
    ComponentOf(f.name, rest);
    assert (f.name + rest)[..|f.name|] == f.name && (f.name + rest)[|f.name|..] == rest;
    ResolveComponent(Parent(s, f), f.name + rest);
  }

  lemma {:induction false} ComponentOf(name: seq<byte>, rest: seq<byte>)
    requires SLASH !in name && (rest == [] || rest[0] == SLASH)
    ensures ComponentLen(name + rest) == |name|
  {
    if name == [] {
      assert name + rest == rest;
    } else {
      assert (name + rest)[1..] == name[1..] + rest;
      ComponentOf(name[1..], rest);
    }
  }

  /** `fdt_path_offset` of the string `fdt_get_path` returns for a node is that node. */
  lemma PathsAreInverse(s: Spot, f: Forest)
    requires f.NodeCons? && (s == Top || InRoot(s)) && Plug(s, f).NodeCons?
    requires PathNames(FullNames(s, f)) && Unambiguous(s, f)
    ensures var path := PathString(FullNames(s, f)); path != [] && path[0] == SLASH
    ensures Resolve(Cursor(Top, Plug(s, f)), PathString(FullNames(s, f))) == Some(Cursor(s, f))
  {
    hide Plug, Joined;
    var names, root := FullNames(s, f), Cursor(Top, Plug(s, f));
    RootJoined();
    JoinedPrefix(names, 1);
    assert names[..1] == [[]];
    EndsWithSlash([[]]);
    if s == Top {
      TopIsAll(f);
      TopNames(f);
      ResolveSlash(root, [SLASH]);
    } else {
      InnerName(s, f);
      ParentAbove(s, f);
      var p := Parent(s, f);
      assert PathNames(AncNames(s)) by {
        assert forall i :: 0 <= i < |AncNames(s)| ==> AncNames(s)[i] == names[i];
      }
      ResolveJoined(p.spot, p.here, f.name);
      StepDown(s, f, []);
      JoinedStep(AncNames(s), f.name);
      assert f.name + [] == f.name;
      assert PathString(names) == Joined(AncNames(s)) + f.name;
    }
  }

  // ---------------------------------------------------------------- get_path_len

  /** `get_path_len` (fdt/fdt_overlay.c): the length of the path, walking up to the nameless root. */
  method GetPathLen(b: seq<byte>, nodeoffset0: int, ghost ts: Spot, ghost tf: Forest) returns (len: int)
    requires NodeInTree(b, ts, tf, nodeoffset0) && PathNames(FullNames(ts, tf))
    ensures len == |PathString(FullNames(ts, tf))|
  {
    hide Hdr, Plug, Enc, StructOf, Block, Off, Pre, Joined, PathString, AncNames, InRoot;
    ghost var names := FullNames(ts, tf);
    ghost var s, f := ts, tf;
    var nodeoffset := nodeoffset0;
    len := 0;
    PathFits(names, 2, 0);
    RootJoined();
    while true
      invariant NodeInTree(b, s, f, nodeoffset)
      invariant FullNames(s, f) <= names && len == |Joined(names)| - |Joined(FullNames(s, f))|
      decreases |FullNames(s, f)|
    {
      var name := GetName(b, nodeoffset, s, f);
      if |name| == 0 {
        OnlyRootNameless(names, FullNames(s, f));
        break;
      }
      FirstName(s, f);
      TopNames(f);
      nodeoffset := ParentOffset(b, nodeoffset, s, f);
      JoinedStep(AncNames(s), f.name);
      ParentNames(b, s, f);
      len := len + |name| + 1;
      ghost var p := Parent(s, f);
      s, f := p.spot, p.here;
      OffsetsAreInts(b, s, f, nodeoffset);
    }
    if len == 0 {
      len := len + 1;
    }
  }

  lemma RootJoined()
    ensures |Joined([[]])| == 1
  {
    var none: seq<seq<byte>> := [];
    JoinedStep(none, []);
    assert none + [[]] == [[]];
  }

  lemma TopNames(f: Forest)
    requires f.NodeCons?
    ensures FullNames(Top, f) == [f.name]
  {
  }

  lemma OnlyRootNameless(names: seq<seq<byte>>, front: seq<seq<byte>>)
    requires PathNames(names) && front != [] && front <= names && front[|front| - 1] == []
    ensures front == [[]]
  {
    assert names[|front| - 1] == [];
  }

  lemma ParentNames(b: seq<byte>, s: Spot, f: Forest)
    requires s != Top && NodeInTree(b, s, f, if AllValid(Pre(s)) then Off(s) else 0)
    ensures InRoot(s) && Parent(s, f).here.NodeCons? && FullNames(Parent(s, f).spot, Parent(s, f).here) == AncNames(s)
  {
    ParentIsLast(b, s, f);
  }
}
