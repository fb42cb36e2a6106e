/**
 A part of the tree that edits elsewhere leave alone. While property values outside it are overwritten
 with values of the same length, its tokens keep their positions and every cursor into it can be
 re-based. This is what lets one node of a blob be read while other nodes of it are being written.
 */
module Regions {
  import opened Bytes
  import opened Tokens
  import opened Forests
  import opened Trees
  import opened Walks
  import opened Edits

  // ---------------------------------------------------------------- overwriting one value

  function SetToken(toks: seq<Token>, i: nat, v: seq<byte>): (r: seq<Token>)
    requires i < |toks|
    ensures |r| == |toks|
  {
    if toks[i].Prop? then toks[i := Prop(toks[i].nameoff, v, toks[i].pad)] else toks
  }

  /** The value of the property that is the `i`-th token, replaced. */
  function SetVal(f: Forest, i: nat, v: seq<byte>): Forest
    requires i < |Flat(f)|
  {
    match f
    case PropCons(o, w, p, r) => if i == 0 then PropCons(o, v, p, r) else PropCons(o, w, p, SetVal(r, i - 1, v))
    case NopCons(r) => if i == 0 then f else NopCons(SetVal(r, i - 1, v))
    case NodeCons(n, p, k, r) =>
      if i == 0 || i == |Flat(k)| + 1 then f
      else if i <= |Flat(k)| then NodeCons(n, p, SetVal(k, i - 1, v), r)
      else NodeCons(n, p, k, SetVal(r, i - |Flat(k)| - 2, v))
  }

  /** The same for a token before the hole. */
  function SetBefore(s: Spot, i: nat, v: seq<byte>): Spot
    requires i < |Pre(s)|
  {
    match s
    case AfterProp(u, o, w, p) => if i < |Pre(u)| then AfterProp(SetBefore(u, i, v), o, w, p) else AfterProp(u, o, v, p)
    case AfterNop(u) => if i < |Pre(u)| then AfterNop(SetBefore(u, i, v)) else s
    case AfterNode(u, n, p, k) =>
      if i < |Pre(u)| then AfterNode(SetBefore(u, i, v), n, p, k)
      else if |Pre(u)| < i <= |Pre(u)| + |Flat(k)| then AfterNode(u, n, p, SetVal(k, i - |Pre(u)| - 1, v))
      else s
    case Inside(u, n, p, r) => if i < |Pre(u)| then Inside(SetBefore(u, i, v), n, p, r) else s
  }

  /** And for the `j`-th token after the hole. */
  function SetAfter(s: Spot, j: nat, v: seq<byte>): Spot
    requires j < |Post(s)|
  {
    match s
    case Top => s
    case AfterProp(u, o, w, p) => AfterProp(SetAfter(u, j, v), o, w, p)
    case AfterNop(u) => AfterNop(SetAfter(u, j, v))
    case AfterNode(u, n, p, k) => AfterNode(SetAfter(u, j, v), n, p, k)
    case Inside(u, n, p, r) =>
      if j == 0 then s
      else if j <= |Flat(r)| then Inside(u, n, p, SetVal(r, j - 1, v))
      else Inside(SetAfter(u, j - 1 - |Flat(r)|, v), n, p, r)
  }

  lemma {:induction false} SetValHere(s: Spot, f: Forest, i: nat, v: seq<byte>)
    requires i < |Flat(f)|
    ensures |Pre(s)| + i < |Flat(Plug(s, f))| && SetVal(Plug(s, f), |Pre(s)| + i, v) == Plug(s, SetVal(f, i, v))
  {
    hide Post;
    match s
    case Top =>
    case AfterProp(u, o, w, p) => SetValHere(u, PropCons(o, w, p, f), i + 1, v);
    case AfterNop(u) => SetValHere(u, NopCons(f), i + 1, v);
    case AfterNode(u, n, p, k) => SetValHere(u, NodeCons(n, p, k, f), i + |Flat(k)| + 2, v);
    case Inside(u, n, p, r) => SetValHere(u, NodeCons(n, p, f, r), i + 1, v);
  }

  lemma {:induction false} SetValBefore(s: Spot, f: Forest, i: nat, v: seq<byte>)
    requires i < |Pre(s)|
    ensures i < |Flat(Plug(s, f))| && SetVal(Plug(s, f), i, v) == Plug(SetBefore(s, i, v), f)
  {
    hide Post;
    match s
    case AfterProp(u, o, w, p) =>
      var g := PropCons(o, w, p, f);
      if i < |Pre(u)| { SetValBefore(u, g, i, v); } else { SetValHere(u, g, 0, v); }
    case AfterNop(u) =>
      if i < |Pre(u)| { SetValBefore(u, NopCons(f), i, v); } else { SetValHere(u, NopCons(f), 0, v); }
    case AfterNode(u, n, p, k) =>
      var g := NodeCons(n, p, k, f);
      if i < |Pre(u)| { SetValBefore(u, g, i, v); } else { SetValHere(u, g, i - |Pre(u)|, v); }
    case Inside(u, n, p, r) =>
      var g := NodeCons(n, p, f, r);
      if i < |Pre(u)| { SetValBefore(u, g, i, v); } else { SetValHere(u, g, 0, v); }
    case Top =>
  }

  lemma {:induction false} SetValAfter(s: Spot, f: Forest, j: nat, v: seq<byte>)
    requires j < |Post(s)| - 1
    ensures |Pre(s)| + |Flat(f)| + j < |Flat(Plug(s, f))|
    ensures SetVal(Plug(s, f), |Pre(s)| + |Flat(f)| + j, v) == Plug(SetAfter(s, j, v), f)
  {
    hide SetVal;
    match s
    case Top =>
    case AfterProp(u, o, w, p) => SetValAfter(u, PropCons(o, w, p, f), j, v);
    case AfterNop(u) => SetValAfter(u, NopCons(f), j, v);
    case AfterNode(u, n, p, k) => SetValAfter(u, NodeCons(n, p, k, f), j, v);
    case Inside(u, n, p, r) =>
      if j > |Flat(r)| {
        SetValAfter(u, NodeCons(n, p, f, r), j - 1 - |Flat(r)|, v);
      }
      SetValAfterNode(s, f, j, v);
  }

  lemma SetValAfterNode(s: Spot, f: Forest, j: nat, v: seq<byte>)
    requires s.Inside? && j < |Post(s)| - 1
    requires var g := NodeCons(s.name, s.npad, f, s.rest); j > |Flat(s.rest)| ==>
      var k := j - 1 - |Flat(s.rest)|;
      k < |Post(s.up)| - 1 && |Pre(s.up)| + |Flat(g)| + k < |Flat(Plug(s.up, g))|
      && SetVal(Plug(s.up, g), |Pre(s.up)| + |Flat(g)| + k, v) == Plug(SetAfter(s.up, k, v), g)
    ensures |Pre(s)| + |Flat(f)| + j < |Flat(Plug(s, f))|
    ensures SetVal(Plug(s, f), |Pre(s)| + |Flat(f)| + j, v) == Plug(SetAfter(s, j, v), f)
  {
    var g := NodeCons(s.name, s.npad, f, s.rest);
    assert Plug(s, f) == Plug(s.up, g) && |Pre(s)| == |Pre(s.up)| + 1 && |Flat(g)| == |Flat(f)| + |Flat(s.rest)| + 2;
    if j <= |Flat(s.rest)| {
      SetValHere(s.up, g, 1 + |Flat(f)| + j, v);
    }
  }

  // ---------------------------------------------------------------- token positions stay

  lemma SetTokenConcat(a: seq<Token>, b: seq<Token>, i: nat, v: seq<byte>)
    requires i < |a| + |b|
    ensures SetToken(a + b, i, v) == if i < |a| then SetToken(a, i, v) + b else a + SetToken(b, i - |a|, v)
  {
  }

  lemma SetTokenNode(b: Token, k: seq<Token>, r: seq<Token>, i: nat, v: seq<byte>)
    requires i < |k| + |r| + 2 && !b.Prop?
    ensures SetToken([b] + k + [EndNode] + r, i, v) ==
      if i == 0 || i == |k| + 1 then [b] + k + [EndNode] + r
      else if i <= |k| then [b] + SetToken(k, i - 1, v) + [EndNode] + r
      else [b] + k + [EndNode] + SetToken(r, i - |k| - 2, v)
  {
    hide SetToken;
    SetTokenConcat([b] + k + [EndNode], r, i, v);
    if i < |k| + 2 {
      SetTokenConcat([b] + k, [EndNode], i, v);
      if i < |k| + 1 {
        SetTokenConcat([b], k, i, v);
        assert SetToken([b], 0, v) == [b] by { SetTokenOther([b], 0, v); }
      } else {
        SetTokenOther([EndNode], 0, v);
      }
    }
  }

  lemma SetTokenOther(toks: seq<Token>, i: nat, v: seq<byte>)
    requires i < |toks| && !toks[i].Prop?
    ensures SetToken(toks, i, v) == toks
  {
  }

  lemma {:induction false} FlatSet(f: Forest, i: nat, v: seq<byte>)
    requires i < |Flat(f)|
    ensures Flat(SetVal(f, i, v)) == SetToken(Flat(f), i, v)
  {
    hide SetToken;
    match f
    case PropCons(o, w, p, r) =>
      SetTokenConcat([Prop(o, w, p)], Flat(r), i, v);
      if i > 0 { FlatSet(r, i - 1, v); } else { SetTokenOne(o, w, p, v); }
    case NopCons(r) =>
      SetTokenConcat([Nop], Flat(r), i, v);
      if i > 0 { FlatSet(r, i - 1, v); } else { SetTokenOther([Nop], 0, v); }
    case NodeCons(n, p, k, r) =>
      SetTokenNode(BeginNode(n, p), Flat(k), Flat(r), i, v);
      if 0 < i <= |Flat(k)| { FlatSet(k, i - 1, v); }
      if i > |Flat(k)| + 1 { FlatSet(r, i - |Flat(k)| - 2, v); }
  }

  lemma SetTokenOne(o: u32, w: seq<byte>, p: seq<byte>, v: seq<byte>)
    ensures SetToken([Prop(o, w, p)], 0, v) == [Prop(o, v, p)]
  {
  }

  lemma {:induction false} PreSet(s: Spot, i: nat, v: seq<byte>)
    requires i < |Pre(s)|
    ensures Pre(SetBefore(s, i, v)) == SetToken(Pre(s), i, v)
  {
    hide SetToken;
    match s
    case AfterProp(u, o, w, p) =>
      SetTokenConcat(Pre(u), [Prop(o, w, p)], i, v);
      if i < |Pre(u)| { PreSet(u, i, v); } else { SetTokenOne(o, w, p, v); }
    case AfterNop(u) =>
      SetTokenConcat(Pre(u), [Nop], i, v);
      if i < |Pre(u)| { PreSet(u, i, v); } else { SetTokenOther([Nop], 0, v); }
    case AfterNode(u, n, p, k) =>
      if i < |Pre(u)| { PreSet(u, i, v); }
      if |Pre(u)| < i <= |Pre(u)| + |Flat(k)| { FlatSet(k, i - |Pre(u)| - 1, v); }
      PreSetNode(s, i, v);
    case Inside(u, n, p, _) =>
      SetTokenConcat(Pre(u), [BeginNode(n, p)], i, v);
      if i < |Pre(u)| { PreSet(u, i, v); } else { SetTokenOther([BeginNode(n, p)], 0, v); }
    case Top =>
  }

  lemma PreSetNode(s: Spot, i: nat, v: seq<byte>)
    requires s.AfterNode? && i < |Pre(s)|
    requires i < |Pre(s.up)| ==> Pre(SetBefore(s.up, i, v)) == SetToken(Pre(s.up), i, v)
    requires |Pre(s.up)| < i <= |Pre(s.up)| + |Flat(s.kids)| ==>
      Flat(SetVal(s.kids, i - |Pre(s.up)| - 1, v)) == SetToken(Flat(s.kids), i - |Pre(s.up)| - 1, v)
    ensures Pre(SetBefore(s, i, v)) == SetToken(Pre(s), i, v)
  {
    hide SetToken, Flat, SetVal;
    var b, k, a := BeginNode(s.name, s.npad), Flat(s.kids), Pre(s.up);
    SpanParts(a, b, k);
    SetTokenConcat(a, [b] + k + [EndNode] + [], i, v);
    if i >= |a| {
      SetTokenNode(b, k, [], i - |a|, v);
      if |a| < i <= |a| + |k| {
        SpanParts(a, b, SetToken(k, i - |a| - 1, v));
      }
    } else {
      SpanParts(SetToken(a, i, v), b, k);
    }
  }

  lemma SpanParts(a: seq<Token>, b: Token, k: seq<Token>)
    ensures a + [b] + k + [EndNode] == a + ([b] + k + [EndNode] + [])
  {
  }

  lemma {:induction false} PreSetAfter(s: Spot, j: nat, v: seq<byte>)
    requires j < |Post(s)|
    ensures Pre(SetAfter(s, j, v)) == Pre(s)
  {
    match s
    case Top =>
    case AfterProp(u, _, _, _) => PreSetAfter(u, j, v);
    case AfterNop(u) => PreSetAfter(u, j, v);
    case AfterNode(u, _, _, _) => PreSetAfter(u, j, v);
    case Inside(u, n, p, r) =>
      if j > |Flat(r)| { PreSetAfter(u, j - 1 - |Flat(r)|, v); }
  }

  lemma SetAround(toks: seq<Token>, i: nat, v: seq<byte>)
    requires i < |toks| && toks[i].Prop? && AllValid(toks) && |v| == |toks[i].val|
    ensures var a, t, c := toks[..i], toks[i], toks[i + 1..];
      var t2 := Prop(t.nameoff, v, t.pad);
      && toks == a + [t] + c && SetToken(toks, i, v) == a + [t2] + c
      && AllValid(a) && AllValid(c) && t.Valid() && t2.Valid()
  {
    assert toks[i] in toks;
  }

  /** A value of the same length takes the same bytes. */
  lemma EncSet(toks: seq<Token>, i: nat, v: seq<byte>)
    requires AllValid(toks) && i < |toks| && toks[i].Prop? && |v| == |toks[i].val|
    ensures AllValid(SetToken(toks, i, v)) && |Enc(SetToken(toks, i, v))| == |Enc(toks)|
  {
    hide Enc, SetToken, AllValid;
    var a, t, c := toks[..i], toks[i], toks[i + 1..];
    var t2 := Prop(t.nameoff, v, t.pad);
    SetAround(toks, i, v);
    EncAround(a, t, c);
    EncAround(a, t2, c);
  }

  /** The region keeps its node, its token positions and its byte offset. */
  ghost predicate Kept(b: Spot, c: Spot) {
    && b.Inside? && c.Inside? && c.name == b.name && c.npad == b.npad && |Pre(c.up)| == |Pre(b.up)|
    && AllValid(Pre(b.up)) && AllValid(Pre(c.up)) && Off(c.up) == Off(b.up)
  }

  /** A value outside the region overwritten: the region's contents have a new spot around them. */
  lemma Rebased(b: Spot, g: Forest, c: Cursor, v: seq<byte>) returns (d: Spot)
    requires b.Inside? && Plug(b, g) == Plug(c.spot, c.here) && AllValid(Block(Plug(b, g)))
    requires c.here.PropCons? && |v| == |c.here.val|
    requires |Pre(c.spot)| < |Pre(b)| || |Pre(b)| + |Flat(g)| <= |Pre(c.spot)|
    ensures Plug(d, g) == Plug(c.spot, PropCons(c.here.nameoff, v, c.here.pad, c.here.rest)) && Kept(b, d)
  {
    hide Plug, Block, Flat, Enc, SetVal, Post;
    var k := |Pre(c.spot)|;
    var node := NodeCons(b.name, b.npad, g, b.rest);
    InsideIsNode(b, g);
    ValidParts(b.up, node);
    HeadToken(c);
    SetValHere(c.spot, c.here, 0, v);
    if k < |Pre(b)| {
      d := SetBefore(b, k, v);
      SetValBefore(b, g, k, v);
      if k < |Pre(b.up)| {
        PreSet(b.up, k, v);
        TokenBefore(b.up, node, k);
        EncSet(Pre(b.up), k, v);
      }
    } else {
      var j := k - |Pre(b)| - |Flat(g)|;
      PostLength(b, g, k);
      d := SetAfter(b, j, v);
      SetValAfter(b, g, j, v);
      UpAfter(b, j, v);
    }
  }

  lemma InsideIsNode(b: Spot, g: Forest)
    requires b.Inside?
    ensures Plug(b, g) == Plug(b.up, NodeCons(b.name, b.npad, g, b.rest)) && |Pre(b)| == |Pre(b.up)| + 1
  {
  }

  lemma HeadToken(c: Cursor)
    requires c.here.PropCons?
    ensures |Flat(c.here)| > 0 && |Pre(c.spot)| < |Flat(Plug(c.spot, c.here))|
    ensures Block(Plug(c.spot, c.here))[|Pre(c.spot)|] == Prop(c.here.nameoff, c.here.val, c.here.pad)
    ensures forall v :: SetVal(c.here, 0, v) == PropCons(c.here.nameoff, v, c.here.pad, c.here.rest)
  {
    BlockPlug(c.spot, c.here);
    assert Block(Plug(c.spot, c.here)) == Pre(c.spot) + (Flat(c.here) + Post(c.spot));
  }

  lemma TokenBefore(s: Spot, f: Forest, k: nat)
    requires k < |Pre(s)|
    ensures k < |Block(Plug(s, f))| && Pre(s)[k] == Block(Plug(s, f))[k]
  {
    BlockPlug(s, f);
    assert Block(Plug(s, f)) == Pre(s) + (Flat(f) + Post(s));
  }

  lemma PostLength(s: Spot, f: Forest, k: nat)
    requires |Pre(s)| + |Flat(f)| <= k < |Flat(Plug(s, f))|
    ensures k - |Pre(s)| - |Flat(f)| < |Post(s)| - 1
  {
    BlockPlug(s, f);
  }

  lemma UpAfter(b: Spot, j: nat, v: seq<byte>)
    requires b.Inside? && j < |Post(b)|
    ensures var d := SetAfter(b, j, v); d.Inside? && d.name == b.name && d.npad == b.npad && Pre(d.up) == Pre(b.up)
  {
    if j > |Flat(b.rest)| {
      PreSetAfter(b.up, j - 1 - |Flat(b.rest)|, v);
    }
  }

  // ---------------------------------------------------------------- cursors into a region

  /** The spot `s` of the region's contents, as a spot of the whole tree. */
  function Compose(b: Spot, s: Spot): Spot {
    match s
    case Top => b
    case AfterProp(u, o, v, p) => AfterProp(Compose(b, u), o, v, p)
    case AfterNop(u) => AfterNop(Compose(b, u))
    case AfterNode(u, n, p, k) => AfterNode(Compose(b, u), n, p, k)
    case Inside(u, n, p, r) => Inside(Compose(b, u), n, p, r)
  }

  lemma {:induction false} ComposeFacts(b: Spot, s: Spot, f: Forest)
    ensures Plug(Compose(b, s), f) == Plug(b, Plug(s, f)) && Pre(Compose(b, s)) == Pre(b) + Pre(s)
    ensures !AtTop(b) ==> !AtTop(Compose(b, s))
  {
    match s
    case Top => assert Pre(b) + [] == Pre(b);
    case AfterProp(u, o, v, p) => ComposeFacts(b, u, PropCons(o, v, p, f));
    case AfterNop(u) => ComposeFacts(b, u, NopCons(f));
    case AfterNode(u, n, p, k) =>
      ComposeFacts(b, u, NodeCons(n, p, k, f));
      ComposeAfterNode(Pre(b), Pre(u), [BeginNode(n, p)], Flat(k));
    case Inside(u, n, p, r) =>
      ComposeFacts(b, u, NodeCons(n, p, f, r));
      assert Pre(b) + (Pre(u) + [BeginNode(n, p)]) == Pre(b) + Pre(u) + [BeginNode(n, p)];
  }

  lemma ComposeAfterNode(a: seq<Token>, b: seq<Token>, c: seq<Token>, k: seq<Token>)
    ensures a + (b + c + k + [EndNode]) == (a + b) + c + k + [EndNode]
  {
  }

  lemma {:induction false} ComposeProp(b: Spot, s: Spot, f: Forest)
    ensures FirstProp(Compose(b, s), f) ==
      match FirstProp(s, f) case None => None case Some(c) => Some(Cursor(Compose(b, c.spot), c.here))
    decreases f
  {
    if f.NopCons? {
      ComposeProp(b, AfterNop(s), f.rest);
    }
  }

  lemma {:induction false} ComposeNode(b: Spot, s: Spot, f: Forest)
    ensures FirstNode(Compose(b, s), f) ==
      match FirstNode(s, f) case None => None case Some(c) => Some(Cursor(Compose(b, c.spot), c.here))
    decreases f
  {
    match f
    case PropCons(o, v, p, r) => ComposeNode(b, AfterProp(s, o, v, p), r);
    case NopCons(r) => ComposeNode(b, AfterNop(s), r);
    case _ =>
  }

  // ---------------------------------------------------------------- same shape, token by token

  /** Equal up to the bytes of the values. */
  predicate Like(f: Forest, g: Forest) {
    match f
    case Nil => g.Nil?
    case PropCons(o, v, p, r) => g.PropCons? && g.nameoff == o && |g.val| == |v| && g.pad == p && Like(r, g.rest)
    case NopCons(r) => g.NopCons? && Like(r, g.rest)
    case NodeCons(n, p, k, r) => g.NodeCons? && g.name == n && g.npad == p && Like(k, g.kids) && Like(r, g.rest)
  }

  /** The number of tokens before the first subnode. */
  function Lead(f: Forest): nat {
    match f
    case PropCons(_, _, _, r) => 1 + Lead(r)
    case NopCons(r) => 1 + Lead(r)
    case _ => 0
  }

  /** Token index and inner length of the first subnode whose name matches. */
  function ChildIndex(f: Forest, name: seq<byte>): Option<(nat, nat)> {
    match f
    case Nil => None
    case PropCons(_, _, _, r) => Further(ChildIndex(r, name), 1)
    case NopCons(r) => Further(ChildIndex(r, name), 1)
    case NodeCons(n, _, k, r) =>
      if NameMatch(n, name) then Some((0, |Flat(k)|)) else Further(ChildIndex(r, name), |Flat(k)| + 2)
  }

  function Further(x: Option<(nat, nat)>, n: nat): Option<(nat, nat)> {
    match x case None => None case Some(p) => Some((p.0 + n, p.1))
  }

  lemma {:induction false} LikeRefl(f: Forest)
    ensures Like(f, f)
  {
    match f
    case Nil =>
    case PropCons(_, _, _, r) => LikeRefl(r);
    case NopCons(r) => LikeRefl(r);
    case NodeCons(_, _, k, r) => LikeRefl(k); LikeRefl(r);
  }

  lemma {:induction false} LikeTrans(f: Forest, g: Forest, h: Forest)
    requires Like(f, g) && Like(g, h)
    ensures Like(f, h)
  {
    match f
    case Nil =>
    case PropCons(_, _, _, r) => LikeTrans(r, g.rest, h.rest);
    case NopCons(r) => LikeTrans(r, g.rest, h.rest);
    case NodeCons(_, _, k, r) => LikeTrans(k, g.kids, h.kids); LikeTrans(r, g.rest, h.rest);
  }

  lemma {:induction false} LikeFacts(f: Forest, g: Forest, name: seq<byte>)
    requires Like(f, g)
    ensures |Flat(f)| == |Flat(g)| && Lead(f) == Lead(g) && ChildIndex(f, name) == ChildIndex(g, name)
  {
    hide NameMatch;
    match f
    case Nil =>
    case PropCons(_, _, _, r) => LikeFacts(r, g.rest, name);
    case NopCons(r) => LikeFacts(r, g.rest, name);
    case NodeCons(_, _, k, r) => LikeFacts(k, g.kids, name); LikeFacts(r, g.rest, name);
  }

  lemma {:induction false} ReplaceRawLike(s: Spot, f: Forest, strs: seq<byte>, name: seq<byte>, v: seq<byte>)
    requires FindProp(s, f, strs, name).Some? && |v| == |FindProp(s, f, strs, name).value.here.val|
    ensures var c := FindProp(s, f, strs, name).value; var g := ReplaceRaw(f, strs, name, v, c.here.pad);
      && Like(f, g) && |Pre(s)| <= |Pre(c.spot)| < |Pre(s)| + Lead(f)
      && FindProp(s, g, strs, name) == Some(Cursor(c.spot, PropCons(c.here.nameoff, v, c.here.pad, c.here.rest)))
    decreases f
  {
    match f
    case PropCons(o, w, p, r) =>
      LikeRefl(r);
      if StrAt(strs, o) != Some(name) {
        ReplaceRawLike(AfterProp(s, o, w, p), r, strs, name, v);
      }
    case NopCons(r) => ReplaceRawLike(AfterNop(s), r, strs, name, v);
    case _ =>
  }

  lemma {:induction false} SetKidsLike(s: Spot, f: Forest, name: seq<byte>, kids: Forest)
    requires FindChild(s, f, name).Some? && Like(FindChild(s, f, name).value.here.kids, kids)
    ensures Like(f, SetKidsRaw(f, name, kids))
    decreases f
  {
    hide NameMatch;
    match f
    case Nil =>
    case PropCons(o, v, p, r) => SetKidsLike(AfterProp(s, o, v, p), r, name, kids);
    case NopCons(r) => SetKidsLike(AfterNop(s), r, name, kids);
    case NodeCons(n, p, k, r) =>
      LikeRefl(r);
      LikeRefl(k);
      if !NameMatch(n, name) {
        SetKidsLike(AfterNode(s, n, p, k), r, name, kids);
      }
  }

  lemma {:induction false} FindChildIndex(s: Spot, f: Forest, name: seq<byte>)
    ensures FindChild(s, f, name).Some? <==> ChildIndex(f, name).Some?
    ensures ChildIndex(f, name).Some? ==>
      var c, x := FindChild(s, f, name).value, ChildIndex(f, name).value;
      |Pre(c.spot)| == |Pre(s)| + x.0 && |Flat(c.here.kids)| == x.1 && Lead(f) <= x.0 && x.0 + x.1 + 2 <= |Flat(f)|
    ensures Lead(f) <= |Flat(f)|
    decreases f
  {
    hide NameMatch;
    match f
    case Nil =>
    case PropCons(o, v, p, r) => FindChildIndex(AfterProp(s, o, v, p), r, name);
    case NopCons(r) => FindChildIndex(AfterNop(s), r, name);
    case NodeCons(n, p, k, r) =>
      if !NameMatch(n, name) {
        FindChildIndex(AfterNode(s, n, p, k), r, name);
      }
  }
}
