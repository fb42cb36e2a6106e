/** Well-nested token sequences and `fdt_check_full` (fdt/fdt_ro.c), which accepts exactly the valid blobs. */
module Checks {
  import opened Bytes
  import opened Tokens
  import opened Forests
  import opened Trees
  import opened Walks
  import opened Loops
  import opened Scans
  import opened Blobs
  import opened SwLayouts
  import opened Fdt
  import opened FdtRo

  // ---------------------------------------------------------------- nesting

  /** Open nodes after the tokens, or None when an END_NODE closes nothing or END appears. */
  function DepthAfter(toks: seq<Token>): Option<nat> {
    if toks == [] then Some(0)
    else
      match DepthAfter(toks[..|toks| - 1])
      case None => None
      case Some(d) =>
        match toks[|toks| - 1]
        case BeginNode(_, _) => Some(d + 1)
        case EndNode => if d == 0 then None else Some(d - 1)
        case End => None
        case _ => Some(d)
  }

  predicate Balanced(toks: seq<Token>) { DepthAfter(toks) == Some(0) }

  lemma DepthStep(toks: seq<Token>, t: Token)
    ensures DepthAfter(toks + [t]) ==
      match DepthAfter(toks)
      case None => None
      case Some(d) =>
        match t
        case BeginNode(_, _) => Some(d + 1)
        case EndNode => if d == 0 then None else Some(d - 1)
        case End => None
        case _ => Some(d)
  {
    assert (toks + [t])[..|toks|] == toks;
  }

  lemma {:induction false} DepthPrefix(toks: seq<Token>, more: seq<Token>)
    requires DepthAfter(toks + more).Some?
    ensures DepthAfter(toks).Some?
    decreases |more|
  {
    if more == [] {
      assert toks + more == toks;
    } else {
      assert (toks + more)[..|toks + more| - 1] == toks + more[..|more| - 1];
      DepthPrefix(toks, more[..|more| - 1]);
    }
  }

  /** A forest's tokens leave the depth where it was. */
  lemma {:induction false} ForestDepth(toks: seq<Token>, f: Forest)
    requires DepthAfter(toks).Some?
    ensures DepthAfter(toks + Flat(f)) == DepthAfter(toks)
    decreases f
  {
    hide DepthAfter;
    match f
    case Nil => assert toks + [] == toks;
    case PropCons(o, v, p, r) =>
      DepthStep(toks, Prop(o, v, p));
      ForestDepth(toks + [Prop(o, v, p)], r);
      Assoc(toks, [Prop(o, v, p)], Flat(r));
    case NopCons(r) =>
      DepthStep(toks, Nop);
      ForestDepth(toks + [Nop], r);
      Assoc(toks, [Nop], Flat(r));
    case NodeCons(n, p, k, r) =>
      var a := toks + [BeginNode(n, p)];
      DepthStep(toks, BeginNode(n, p));
      ForestDepth(a, k);
      DepthStep(a + Flat(k), EndNode);
      ForestDepth(a + Flat(k) + [EndNode], r);
      AssocNode(toks, [BeginNode(n, p)], Flat(k), [EndNode], Flat(r));
  }

  lemma Assoc<T>(a: seq<T>, b: seq<T>, c: seq<T>)
    ensures a + (b + c) == a + b + c
  {
  }

  lemma AssocNode<T>(a: seq<T>, b: seq<T>, k: seq<T>, e: seq<T>, r: seq<T>)
    ensures a + (b + k + e + r) == a + b + k + e + r
  {
  }

  /** How many nodes are open at a spot. */
  function SpotDepth(s: Spot): nat {
    match s
    case Top => 0
    case AfterProp(u, _, _, _) => SpotDepth(u)
    case AfterNop(u) => SpotDepth(u)
    case AfterNode(u, _, _, _) => SpotDepth(u)
    case Inside(u, _, _, _) => SpotDepth(u) + 1
  }

  /** Every sequence that never closes too much is what stands before some spot. */
  lemma {:induction false} SpotBefore(toks: seq<Token>) returns (s: Spot)
    requires DepthAfter(toks).Some?
    ensures Pre(s) == toks && SpotDepth(s) == DepthAfter(toks).value
  {
    if toks == [] {
      s := Top;
    } else {
      var u := SpotBefore(toks[..|toks| - 1]);
      var t := toks[|toks| - 1];
      assert toks == toks[..|toks| - 1] + [t];
      match t
      case BeginNode(n, p) => s := Inside(u, n, p, Nil);
      case Prop(o, v, p) => s := AfterProp(u, o, v, p);
      case Nop => s := AfterNop(u);
      case EndNode =>
        TopDepth(u);
        s := Close(u, Nil).spot;
        CloseFacts(u, Nil);
        CloseDepth(u, Nil);
        assert Pre(u) + [] + [EndNode] == toks;
    }
  }

  lemma {:induction false} TopDepth(s: Spot)
    ensures AtTop(s) <==> SpotDepth(s) == 0
  {
    match s
    case Top =>
    case AfterProp(u, _, _, _) => TopDepth(u);
    case AfterNop(u) => TopDepth(u);
    case AfterNode(u, _, _, _) => TopDepth(u);
    case Inside(u, _, _, _) =>
  }

  lemma {:induction false} CloseDepth(s: Spot, f: Forest)
    requires !AtTop(s)
    ensures SpotDepth(Close(s, f).spot) == SpotDepth(s) - 1
  {
    match s
    case AfterProp(u, o, v, p) => CloseDepth(u, PropCons(o, v, p, f));
    case AfterNop(u) => CloseDepth(u, NopCons(f));
    case AfterNode(u, n, p, k) => CloseDepth(u, NodeCons(n, p, k, f));
    case Inside(u, n, p, r) =>
  }

  /** Well nested means: the tokens of a forest. */
  lemma BalancedIsForest(toks: seq<Token>)
    ensures Balanced(toks) <==> exists f :: Flat(f) == toks
  {
    if Balanced(toks) {
      var s := SpotBefore(toks);
      TopDepth(s);
      TopPost(s);
      BlockPlug(s, Nil);
      var f := Plug(s, Nil);
      assert Flat(f) + [End] == toks + [] + [End];
      assert Flat(f) == (Flat(f) + [End])[..|Flat(f)|] == toks;
    }
    forall f | Flat(f) == toks ensures Balanced(toks) {
      ForestDepth([], f);
      assert [] + Flat(f) == Flat(f);
    }
  }

  // ---------------------------------------------------------------- fdt_check_full

  /** Property names resolve in the strings block. */
  ghost predicate Named(toks: seq<Token>, strs: seq<byte>) {
    forall t :: t in toks && t.Prop? ==> StrAt(strs, t.nameoff).Some?
  }

  /** `toks`, then END, is what the structure block starts with. */
  ghost predicate Reading(area: seq<byte>, strs: seq<byte>, toks: seq<Token>)
  {
    AllValid(toks) && AllValid(toks + [End]) && Enc(toks + [End]) <= area && Named(toks, strs)
  }

  /** The token at `s` is not a property whose length word makes twelve plus the length wrap around. */
  predicate LengthFits(area: seq<byte>, s: int) {
    0 <= s && s + 8 <= |area| && Dec32(area, s) == FDT_PROP ==> Dec32(area, s + 4) < LEN_WRAPS_TO_ZERO
  }

  /** That holds for every token a walk from `s` meets. */
  predicate LengthsFit(area: seq<byte>, s: int)
    decreases |area| + 4 - s
  {
    var (tag, next) := NextTagAt(area, s);
    LengthFits(area, s) && (s < next <= |area| + 4 && tag != FDT_END ==> LengthsFit(area, next))
  }

  /** The token whose bytes stand at `s` when `fdt_next_tag` succeeds and its padding is present. */
  ghost function TokenAt(area: seq<byte>, s: nat): Token
    requires NextTagAt(area, s).1 >= 0
  {
    var (tag, next) := NextTagAt(area, s);
    if tag == FDT_BEGIN_NODE then
      var n := NulFrom(area, s + 4);
      Token.BeginNode(area[s + 4..n], if next <= |area| then area[n + 1..next] else [])
    else if tag == FDT_PROP then
      var e := s + Wrap32(12 + Dec32(area, s + 4));
      if s + 12 <= e then Token.Prop(Dec32(area, s + 8), area[s + 12..e], if next <= |area| then area[e..next] else [])
        else Nop
    else if tag == FDT_END_NODE then EndNode
    else if tag == FDT_NOP then Nop
    else End
  }

  lemma NodeTokenAt(area: seq<byte>, s: nat)
    requires s + 4 <= |area| && Dec32(area, s) == FDT_BEGIN_NODE && s % 4 == 0
    requires var n := NulFrom(area, s + 4); n < |area| && Align4(n + 1) <= |area|
    ensures var n := NulFrom(area, s + 4); var t := Token.BeginNode(area[s + 4..n], area[n + 1..Align4(n + 1)]);
      t.Valid() && s + t.Size() == Align4(n + 1) && area[s..s + t.Size()] == t.Bytes()
  {
    hide Dec32, Enc32, Align4;
    EncDec(area, s);
    var n := NulFrom(area, s + 4);
    AlignShift(s + 4, n + 1 - (s + 4));
    Cut4(area, s, s + 4, n, n + 1, Align4(n + 1));
    OneByte(area, n);
    NodeBytesAre(area[s + 4..n], area[n + 1..Align4(n + 1)]);
  }

  lemma OneByte(area: seq<byte>, n: nat)
    requires n < |area|
    ensures area[n..n + 1] == [area[n]]
  {
  }

  lemma NodeBytesAre(name: seq<byte>, pad: seq<byte>)
    requires NoNul(name) && |name| + 1 + |pad| == Align4(|name| + 1)
    ensures var t := Token.BeginNode(name, pad);
      t.Valid() && t.Size() == 4 + |name| + 1 + |pad| && t.Bytes() == Enc32(FDT_BEGIN_NODE) + name + [0] + pad
  {
    hide Enc32, Align4;
  }

  lemma PropTokenAt(area: seq<byte>, s: nat)
    requires s + 8 <= |area| <= INT_MAX && Dec32(area, s) == FDT_PROP && s % 4 == 0
    requires var len := Dec32(area, s + 4); len < LEN_WRAPS_TO_ZERO && Align4(s + 12 + len) <= |area|
    ensures var len := Dec32(area, s + 4); var e := s + 12 + len;
      var t := Token.Prop(Dec32(area, s + 8), area[s + 12..e], area[e..Align4(e)]);
      t.Valid() && s + t.Size() == Align4(e) && area[s..s + t.Size()] == t.Bytes()
  {
    hide Dec32, Enc32, Align4;
    var len := Dec32(area, s + 4);
    var e := s + 12 + len;
    AlignShift(s + 12, len);
    PropHeaderAt(area, s);
    Cut4(area, s, s + 12, s + 12, e, Align4(e));
    PropBytesAre(Dec32(area, s + 8), area[s + 12..e], area[e..Align4(e)]);
  }

  lemma PropHeaderAt(area: seq<byte>, s: nat)
    requires s + 12 <= |area| && Dec32(area, s) == FDT_PROP
    ensures area[s..s + 12] == Enc32(FDT_PROP) + Enc32(Dec32(area, s + 4)) + Enc32(Dec32(area, s + 8))
  {
    hide Dec32, Enc32;
    EncDec(area, s);
    EncDec(area, s + 4);
    EncDec(area, s + 8);
    Cut4(area, s, s + 4, s + 8, s + 12, s + 12);
  }

  lemma PropBytesAre(nameoff: u32, val: seq<byte>, pad: seq<byte>)
    requires |val| <= INT_MAX && |pad| == Align4(|val|) - |val|
    ensures var t := Token.Prop(nameoff, val, pad);
      t.Valid() && t.Size() == 12 + |val| + |pad|
      && t.Bytes() == Enc32(FDT_PROP) + Enc32(|val|) + Enc32(nameoff) + [] + val + pad
  {
    hide Enc32, Align4;
  }

  lemma TokenAtFollows(area: seq<byte>, s: nat)
    requires NextTagAt(area, s).1 >= 0 && NextTagAt(area, s).1 <= |area| <= INT_MAX && s % 4 == 0 && LengthFits(area, s)
    ensures var t := TokenAt(area, s);
      && t.Valid() && s + t.Size() == NextTagAt(area, s).1 && t.Tag() == NextTagAt(area, s).0
      && area[s..s + t.Size()] == t.Bytes()
  {
    hide Dec32, Enc32, Align4;
    var tag := Dec32(area, s);
    if tag == FDT_BEGIN_NODE {
      NodeTokenAt(area, s);
    } else if tag == FDT_PROP {
      var len := Dec32(area, s + 4);
      WrapFits(12 + len);
      PropTokenAt(area, s);
    } else {
      PlainTokenAt(area, s);
    }
  }

  lemma PlainTokenAt(area: seq<byte>, s: nat)
    requires NextTagAt(area, s).1 >= 0 && NextTagAt(area, s).1 <= |area| && s % 4 == 0
    requires Dec32(area, s) != FDT_BEGIN_NODE && Dec32(area, s) != FDT_PROP
    ensures var t := TokenAt(area, s);
      && t.Valid() && s + t.Size() == NextTagAt(area, s).1 && t.Tag() == NextTagAt(area, s).0
      && area[s..s + t.Size()] == t.Bytes()
  {
    hide Dec32, Enc32, Align4;
    EncDec(area, s);
    AlignShift(s, 4);
    AlignShift(0, 4);
  }

  lemma WrapFits(x: nat)
    requires x < 0x1_0000_0000
    ensures Wrap32(x) == x
  {
  }

  lemma Cut2(b: seq<byte>, i: nat, j: nat, k: nat)
    requires i <= j <= k <= |b|
    ensures b[i..k] == b[i..j] + b[j..k]
  {
  }

  lemma Cut4(b: seq<byte>, i: nat, j: nat, k: nat, l: nat, m: nat)
    requires i <= j <= k <= l <= m <= |b|
    ensures b[i..m] == b[i..j] + b[j..k] + b[k..l] + b[l..m]
  {
    Cut2(b, i, j, k);
    Cut2(b, i, k, l);
    Cut2(b, i, l, m);
  }

  /** Encoded tokens are determined by their bytes. */
  lemma TokenUnique(t: Token, u: Token)
    requires t.Valid() && u.Valid() && t.Tag() == u.Tag() && t.Bytes() == u.Bytes()
    ensures t == u
  {
    hide Dec32, Align4, Enc32;
    if t.BeginNode? {
      var x := t.Bytes();
      assert x[4..] == t.name + [0] + t.pad && x[4..] == u.name + [0] + u.pad;
      NameUnique(t.name, t.pad, u.name, u.pad);
    } else if t.Prop? {
      PropBytes(t);
      PropBytes(u);
      var x := t.Bytes();
      DecEnc(x, 4, |t.val|);
      DecEnc(x, 4, |u.val|);
      DecEnc(x, 8, t.nameoff);
      DecEnc(x, 8, u.nameoff);
      assert x[12 + |t.val|..] == t.pad && x[12 + |u.val|..] == u.pad;
    }
  }

  lemma NameUnique(a: seq<byte>, p: seq<byte>, b: seq<byte>, q: seq<byte>)
    requires NoNul(a) && NoNul(b) && a + [0] + p == b + [0] + q
    ensures a == b && p == q
  {
    var x := a + [0] + p;
    assert x[..|a| + 1] == a + [0];
    assert (b + [0] + q)[..|b| + 1] == b + [0];
    StrAtIs(x, 0, a);
    StrAtIs(x, 0, b);
    assert x[|a| + 1..] == p && x[|b| + 1..] == q;
  }

  /** Every token of an encoded sequence is read at its place. */
  lemma TokenIn(area: seq<byte>, v: seq<Token>, k: nat)
    requires AllValid(v + [End]) && Enc(v + [End]) <= area && k <= |v|
    ensures var t := (v + [End])[k];
      && AllValid(v[..k]) && Follows(area, v[..k], t)
        && NextTagAt(area, |Enc(v[..k])|) == (t.Tag(), |Enc(v[..k])| + t.Size())
  {
    hide Enc, NextTagAt;
    var m := v + [End];
    var t, rest := m[k], m[k + 1..];
    assert m == v[..k] + [t] + rest;
    assert forall u :: u in v[..k] || u in rest || u == t ==> u in m;
    FollowsAt(area, v[..k], t, rest);
    NextTagToken(area, v[..k], t);
  }

  lemma NoEndInside(w: seq<Token>, i: nat)
    requires Balanced(w) && i < |w|
    ensures w[i] != End
  {
    if w[i] == End {
      assert w == w[..i] + [End] + w[i + 1..];
      DepthStep(w[..i], End);
      DepthPrefix(w[..i] + [End], w[i + 1..]);
    }
  }

  /** Reading one more token. */
  lemma ReadOne(area: seq<byte>, done: seq<Token>)
    requires AllValid(done) && Enc(done) <= area && |area| <= INT_MAX && LengthFits(area, |Enc(done)|)
    requires 0 <= NextTagAt(area, |Enc(done)|).1 <= |area|
    ensures var s := |Enc(done)|; var t := TokenAt(area, s);
      && AllValid(done + [t]) && Enc(done + [t]) <= area && |Enc(done + [t])| == NextTagAt(area, s).1
      && t.Tag() == NextTagAt(area, s).0
  {
    hide Enc, NextTagAt, TokenAt, LengthFits;
    var s := |Enc(done)|;
    EncAligned(done);
    TokenAtFollows(area, s);
    var t := TokenAt(area, s);
    EncAround(done, t, []);
    assert area[..s + t.Size()] == area[..s] + area[s..s + t.Size()];
  }

  /** What `fdt_num_mem_rsv` relies on, whatever the version. */
  predicate Sized(b: seq<byte>) {
    |b| >= HEADER_SIZE && V16_SIZE <= Hdr(b).totalsize < INT_MAX && Hdr(b).totalsize <= |b|
      && Hdr(b).offRsv <= Hdr(b).totalsize
  }

  /** `fdt_num_mem_rsv`: index of the first entry of size zero, or None when the map is cut off. */
  function RsvCount(b: seq<byte>, i: nat): Option<nat>
    requires Sized(b)
    decreases |b| - 16 * i
  {
    var at := Hdr(b).offRsv + 16 * i;
    if at + 16 > Hdr(b).totalsize then None
    else if Dec32(b, at + 8) == 0 && Dec32(b, at + 12) == 0 then Some(i)
    else RsvCount(b, i + 1)
  }

  method NumMemRsv(b: seq<byte>) returns (n: int)
    requires Sized(b)
    ensures n == match RsvCount(b, 0) case Some(k) => k case None => -TRUNCATED
  {
    hide Dec32, Hdr;
    var i := 0;
    while true
      invariant RsvCount(b, i) == RsvCount(b, 0)
      decreases |b| - 16 * i
    {
      var absoffset := Hdr(b).offRsv + 16 * i;
      if absoffset > Hdr(b).totalsize - RSV_SIZE {
        return -TRUNCATED;
      }
      if Dec32(b, absoffset + 8) == 0 && Dec32(b, absoffset + 12) == 0 {
        return i;
      }
      i := i + 1;
    }
  }

  /** `fdt_check_header` on a version 17 header. */
  function CheckHeader(h: Header): int {
    if h.magic != FDT_MAGIC then -BADMAGIC
    else if h.version < 2 || h.lastComp > 17 || h.version < h.lastComp then -BADVERSION
    else if h.totalsize < HEADER_SIZE || h.totalsize > INT_MAX then -TRUNCATED
    else if !CheckOff(h.totalsize, h.offRsv) then -TRUNCATED
    else if !CheckBlock(h.totalsize, h.offStruct, h.sizeStruct) then -TRUNCATED
    else if !CheckBlock(h.totalsize, h.offStrings, h.sizeStrings) then -TRUNCATED
    else 0
  }

  predicate CheckOff(total: u32, off: u32) { off >= HEADER_SIZE && off <= total }

  predicate CheckBlock(total: u32, base: u32, size: u32) {
    CheckOff(total, base) && !(Wrap32(base + size) < base) && CheckOff(total, Wrap32(base + size))
  }

  /** The 32-bit block checks amount to the exact bounds. */
  lemma CheckHeaderExact(h: Header, size: nat)
    requires h.version == 17 && size < INT_MAX
    ensures HeaderOk(h, size) <==> CheckHeader(h) == 0 && h.totalsize <= size
  {
  }

  /** The error codes, by what is wrong with the header. */
  lemma HeaderErrors(h: Header)
    ensures CheckHeader(h) == -9 <==> h.magic != 0xd00d_feed
    ensures CheckHeader(h) == -10 <==>
      h.magic == 0xd00d_feed && (h.version < 2 || h.lastComp > 17 || h.version < h.lastComp)
    ensures CheckHeader(h) == 0 <==>
      && h.magic == 0xd00d_feed && 2 <= h.version && h.lastComp <= 17 && h.lastComp <= h.version
      && 40 <= h.totalsize <= 0x7fff_ffff && 40 <= h.offRsv <= h.totalsize
      && 40 <= h.offStruct && h.offStruct + h.sizeStruct <= h.totalsize
      && 40 <= h.offStrings && h.offStrings + h.sizeStrings <= h.totalsize
    ensures CheckHeader(h) in {0, -8, -9, -10}
  {
  }

  const V1_SIZE := 28  // the shortest header of any version

  /** `b` is the buffer that the caller declares; of a shorter one the rest of the header is in memory behind it. */
  predicate Declared(b: seq<byte>, bufsize: nat) {
    && bufsize < INT_MAX && |b| == (if V1_SIZE <= bufsize < HEADER_SIZE then HEADER_SIZE else bufsize)
    && (V1_SIZE <= bufsize ==> Hdr(b).version == 17)
  }

  /** What `fdt_check_full` is meant to accept. */
  ghost predicate FullyValid(b: seq<byte>)
  {
    && Sound(b) && RsvCount(b, 0).Some?
    && exists toks :: Reading(StructOf(b), StringsOf(b), toks) && Balanced(toks)
  }

  /** What `fdt_check_full` does: it returns, it reads a word outside its buffer, or it never returns. */
  datatype Verdict = Returns(err: int) | StraysOutside | SpinsForEver

  /** Why the string at `o` cannot be read, or 0. */
  function NameError(strs: seq<byte>, o: u32): int {
    if StrAt(strs, o).Some? then 0 else if o < |strs| then -TRUNCATED else -BADOFFSET
  }

  /** A name must start inside the strings block and end there. */
  lemma NameErrors(strs: seq<byte>, o: u32)
    ensures NameError(strs, o) == 0 <==> exists j :: o <= j < |strs| && strs[j] == 0
    ensures NameError(strs, o) == -8 <==> o < |strs| && forall j :: o <= j < |strs| ==> strs[j] != 0
    ensures NameError(strs, o) == -4 <==> o >= |strs|
  {
    if o < |strs| && NulFrom(strs, o) < |strs| {
      assert strs[NulFrom(strs, o)] == 0;
    }
  }

  /** One turn of the loop, at the token at `offset` with `depth` open nodes. */
  function CheckTurn(b: seq<byte>, offset: nat, depth: nat): Turn<(nat, nat), Verdict>
    requires Sound(b)
  {
    var (tag, next) := NextTagAt(StructOf(b), offset);
    if next < 0 then Done(Returns(next))
    else if tag == FDT_END then Done(Returns(if depth != 0 then -BADSTRUCTURE else 0))
    else if tag == FDT_BEGIN_NODE then if depth + 1 > INT_MAX then Done(Returns(-BADSTRUCTURE))
      else Again((next, depth + 1))
    else if tag == FDT_END_NODE then if depth == 0 then Done(Returns(-BADSTRUCTURE)) else Again((next, depth - 1))
    else if tag == FDT_PROP then
      var at := Hdr(b).offStruct + offset + 8;
      if at + 4 > |b| then Done(StraysOutside)
      else
        var err := NameError(StringsOf(b), Dec32(b, at));
        if err != 0 then Done(Returns(err)) else Again((next, depth))
    else Again((next, depth))
  }

  function CheckLoop(b: seq<byte>): ((nat, nat)) -> Turn<(nat, nat), Verdict>
    requires Sound(b)
  {
    (p: (nat, nat)) => if Sound(b) then CheckTurn(b, p.0, p.1) else Done(StraysOutside)
  }

  /** The turns taken one after the other, until one leads back to where it started. */
  function VerdictFrom(b: seq<byte>, offset: nat, depth: nat): Verdict
    requires Sound(b) && offset % 4 == 0
    decreases |StructOf(b)| + 4 - offset
  {
    NextTagMoves(StructOf(b), offset);
    match CheckTurn(b, offset, depth)
    case Done(v) => v
    case Again(p) => if p.0 == offset then SpinsForEver else VerdictFrom(b, p.0, p.1)
  }

  /** All of `fdt_check_full` on a version 17 blob in the buffer `b`. */
  function FullVerdict(b: seq<byte>, bufsize: nat): Verdict
    requires Declared(b, bufsize)
  {
    if bufsize < V1_SIZE then Returns(-TRUNCATED)
    else if CheckHeader(Hdr(b)) != 0 then Returns(CheckHeader(Hdr(b)))
    else if bufsize < Hdr(b).totalsize then Returns(-TRUNCATED)
    else
      CheckHeaderExact(Hdr(b), bufsize);
      if RsvCount(b, 0).None? then Returns(-TRUNCATED) else VerdictFrom(b, 0, 0)
  }

  /** The loop ends exactly unless that verdict is that it does not. */
  lemma {:induction false} VerdictEnds(b: seq<byte>, offset: nat, depth: nat)
    requires Sound(b) && offset % 4 == 0
    ensures Ends(CheckLoop(b), (offset, depth)) <==> !VerdictFrom(b, offset, depth).SpinsForEver?
    decreases |StructOf(b)| + 4 - offset
  {
    hide NextTagAt, Ends, StructOf, StringsOf, Hdr, NameError;
    NextTagMoves(StructOf(b), offset);
    EndsTurn(CheckLoop(b), (offset, depth));
    match CheckTurn(b, offset, depth)
    case Done(_) =>
    case Again(p) =>
      if p.0 == offset {
        Spins(CheckLoop(b), (offset, depth));
      } else {
        VerdictEnds(b, p.0, p.1);
      }
  }

  /** A property on which the tokenizer stands still and whose name can be read. */
  predicate Trap(b: seq<byte>, offset: nat)
    requires Sound(b)
  {
    && StandsStill(StructOf(b), offset) && Hdr(b).offStruct + offset + 12 <= |b|
    && StrAt(StringsOf(b), Dec32(b, Hdr(b).offStruct + offset + 8)).Some?
  }

  /** The loop comes to one after some turns. */
  ghost predicate MeetsTrap(b: seq<byte>, offset: nat, depth: nat)
    requires Sound(b)
  {
    exists n: nat, o: nat, d: nat :: After(CheckLoop(b), (offset, depth), n) == Again((o, d)) && Trap(b, o)
  }

  /** `fdt_check_full` does not return exactly when its loop meets such a property. */
  lemma VerdictSpins(b: seq<byte>, offset: nat, depth: nat)
    requires Sound(b) && offset % 4 == 0
    ensures VerdictFrom(b, offset, depth).SpinsForEver? <==> MeetsTrap(b, offset, depth)
  {
    hide Sound, StructOf, StringsOf, Hdr, VerdictFrom, CheckTurn, Ends, After, Trap;
    if VerdictFrom(b, offset, depth).SpinsForEver? {
      SpinningTrapped(b, offset, depth);
    }
    if MeetsTrap(b, offset, depth) {
      var n: nat, o: nat, d: nat :| After(CheckLoop(b), (offset, depth), n) == Again((o, d)) && Trap(b, o);
      TrapTurn(b, o, d);
      NeverEnds(CheckLoop(b), (offset, depth), (o, d), n);
      VerdictEnds(b, offset, depth);
    }
  }

  lemma TrapTurn(b: seq<byte>, o: nat, d: nat)
    requires Sound(b) && Trap(b, o)
    ensures CheckTurn(b, o, d) == Again((o, d))
  {
    hide NextTagAt, StructOf, StringsOf, Hdr, StrAt;
    NextTagMoves(StructOf(b), o);
  }

  lemma TurnStays(b: seq<byte>, o: nat, d: nat)
    requires Sound(b) && o % 4 == 0 && CheckTurn(b, o, d).Again? && CheckTurn(b, o, d).state.0 == o
    ensures Trap(b, o)
  {
    hide NextTagAt, StructOf, StringsOf, Hdr, StrAt, StandsStill;
    NextTagMoves(StructOf(b), o);
  }

  lemma {:induction false} SpinningTrapped(b: seq<byte>, offset: nat, depth: nat)
    requires Sound(b) && offset % 4 == 0 && VerdictFrom(b, offset, depth).SpinsForEver?
    ensures MeetsTrap(b, offset, depth)
    decreases |StructOf(b)| + 4 - offset
  {
    hide NextTagAt, StructOf, StringsOf, Hdr, Trap, NameError;
    NextTagMoves(StructOf(b), offset);
    var p := CheckTurn(b, offset, depth).state;
    if p.0 == offset {
      TurnStays(b, offset, depth);
      assert After(CheckLoop(b), (offset, depth), 0) == Again((offset, depth));
    } else {
      SpinningTrapped(b, p.0, p.1);
      var n: nat, o: nat, d: nat :| After(CheckLoop(b), p, n) == Again((o, d)) && Trap(b, o);
      assert After(CheckLoop(b), (offset, depth), n + 1) == Again((o, d));
    }
  }

  // ---------------------------------------------------------------- the methods

  /** `fdt_getprop_by_offset` as `fdt_check_full` uses it: the name, or why it cannot be read. */
  method PropName(b: seq<byte>, offset: nat) returns (name: Option<seq<byte>>, len: int)
    requires Sound(b) && Hdr(b).offStruct + offset + 12 <= |b|
    ensures var o := Dec32(b, Hdr(b).offStruct + offset + 8);
      name == StrAt(StringsOf(b), o) && (name.None? ==> len == NameError(StringsOf(b), o))
  {
    hide Dec32, Hdr, StringsOf, StrAt;
    var o := Dec32(b, Hdr(b).offStruct + offset + 8);
    NameoffFits(b, o);
    StringsSmall(b);
    name, len := GetString(b, Int32(o));
  }

  lemma StringsSmall(b: seq<byte>)
    requires Sound(b)
    ensures |StringsOf(b)| < INT_MAX
  {
  }

  /** The token loop of `fdt_check_full`. */
  method CheckTokens(b: seq<byte>) returns (v: Verdict)
    requires Sound(b)
    ensures v == VerdictFrom(b, 0, 0)
  {
    hide Hdr, Dec32, NextTagAt, StructOf, StringsOf, StrAt;
    ghost var area := StructOf(b);
    AreaSmall(b);
    var depth: nat, nextoffset := 0, 0;
    while true
      invariant 0 <= nextoffset <= |area| + 3 && nextoffset % 4 == 0
      invariant VerdictFrom(b, nextoffset, depth) == VerdictFrom(b, 0, 0)
      decreases |area| + 4 - nextoffset
    {
      var offset := nextoffset;
      NextTagMoves(area, offset);
      var tag;
      tag, nextoffset := NextTag(b, offset);
      if nextoffset < 0 {
        return Returns(nextoffset);
      }
      if tag == FDT_END {
        return Returns(if depth != 0 then -BADSTRUCTURE else 0);
      } else if tag == FDT_BEGIN_NODE {
        depth := depth + 1;
        if depth > INT_MAX {
          return Returns(-BADSTRUCTURE);
        }
      } else if tag == FDT_END_NODE {
        if depth == 0 {
          return Returns(-BADSTRUCTURE);
        }
        depth := depth - 1;
      } else if tag == FDT_PROP {
        if Hdr(b).offStruct + offset + 12 > |b| {
          return StraysOutside;
        }
        var propname, len := PropName(b, offset);
        if propname.None? {
          return Returns(len);
        }
        if nextoffset == offset {
          return SpinsForEver; // from here on the source takes the same turn again and again
        }
      }
    }
  }

  /**
   `fdt_check_full` on every version 17 blob. It returns 0 on exactly the valid blobs among those whose
   length words fit, and it fails to return exactly when it meets a property that occupies no bytes.
   */
  method CheckFull(b: seq<byte>, bufsize: nat) returns (v: Verdict)
    requires Declared(b, bufsize)
    ensures v == FullVerdict(b, bufsize)
    ensures FullyValid(b) && Hdr(b).totalsize <= bufsize <==> v == Returns(0) && BlockFits(b)
    ensures v.SpinsForEver? ==> Sound(b) && MeetsTrap(b, 0, 0) && !Ends(CheckLoop(b), (0, 0))
    ensures V1_SIZE <= bufsize && CheckHeader(Hdr(b)) == 0 && Hdr(b).totalsize <= bufsize ==>
      Sound(b) && (RsvCount(b, 0).Some? && MeetsTrap(b, 0, 0) ==> v.SpinsForEver?)
  {
    hide Hdr, Dec32, StructOf, StringsOf, RsvCount, VerdictFrom, CheckHeader, FullyValid, MeetsTrap, BlockFits;
    AcceptedIsValid(b, bufsize);
    if bufsize < V1_SIZE {
      return Returns(-TRUNCATED);
    }
    CheckHeaderExact(Hdr(b), bufsize);
    var err := CheckHeader(Hdr(b));
    if err != 0 {
      return Returns(err);
    }
    if bufsize < Hdr(b).totalsize {
      return Returns(-TRUNCATED);
    }
    VerdictSpins(b, 0, 0);
    VerdictEnds(b, 0, 0);
    var num_memrsv := NumMemRsv(b);
    if num_memrsv < 0 {
      return Returns(num_memrsv);
    }
    v := CheckTokens(b);
  }

  // ---------------------------------------------------------------- what is accepted

  /** No token of an encoded sequence has a length word near the wrap-around. */
  lemma {:induction false} EncodedLengths(area: seq<byte>, toks: seq<Token>, k: nat)
    requires AllValid(toks + [End]) && Enc(toks + [End]) <= area && k <= |toks| && AllValid(toks[..k])
    ensures LengthsFit(area, |Enc(toks[..k])|)
    decreases |toks| - k
  {
    hide Enc, NextTagAt, Dec32, Enc32, Align4;
    var t, s := (toks + [End])[k], |Enc(toks[..k])|;
    TokenIn(area, toks, k);
    TagWord(area, s, t);
    if t.Prop? {
      PropWordsAt(area, s, t);
    }
    if k < |toks| {
      assert toks[..k + 1] == toks[..k] + [t];
      EncAround(toks[..k], t, []);
      EncodedLengths(area, toks, k + 1);
    }
  }

  lemma {:induction false} DepthBound(toks: seq<Token>)
    requires AllValid(toks) && DepthAfter(toks).Some?
    ensures 4 * DepthAfter(toks).value <= |Enc(toks)|
  {
    if toks != [] {
      var a, t := toks[..|toks| - 1], toks[|toks| - 1];
      assert toks == a + [t];
      EncAround(a, t, []);
      DepthBound(a);
    }
  }

  lemma TagAdvanced(area: seq<byte>, offset: nat)
    requires LengthFits(area, offset) && offset % 4 == 0 && NextTagAt(area, offset).1 >= 0
    ensures var (tag, next) := NextTagAt(area, offset);
      && (next > |area| ==> tag != FDT_END)
      && (tag == FDT_PROP ==>
            offset + 12 <= |area| && TokenAt(area, offset).Prop?
              && TokenAt(area, offset).nameoff == Dec32(area, offset + 8))
  {
    hide Dec32, Align4;
    if Dec32(area, offset) == FDT_PROP {
      WrapFits(12 + Dec32(area, offset + 4));
    }
    AlignShift(offset, 4);
    AlignShift(0, 4);
  }

  /** The check has read the tokens `done` and `depth` nodes are open. */
  ghost predicate ReadSoFar(b: seq<byte>, done: seq<Token>, depth: nat)
    requires Sound(b)
  {
    AllValid(done) && Enc(done) <= StructOf(b) && Named(done, StringsOf(b)) && DepthAfter(done) == Some(depth)
  }

  /** Reading one more token when the check goes on. */
  lemma TurnReads(b: seq<byte>, done: seq<Token>, depth: nat)
    requires Sound(b) && ReadSoFar(b, done, depth) && LengthFits(StructOf(b), |Enc(done)|)
    requires 0 <= NextTagAt(StructOf(b), |Enc(done)|).1 <= |StructOf(b)|
    ensures var turn := CheckTurn(b, |Enc(done)|, depth); var t := TokenAt(StructOf(b), |Enc(done)|);
      && (turn == Done(Returns(0)) ==> Reading(StructOf(b), StringsOf(b), done) && depth == 0)
      && (turn.Again? ==> ReadSoFar(b, done + [t], turn.state.1) && turn.state.0 == |Enc(done + [t])|)
  {
    hide Enc, NextTagAt, TokenAt, LengthFits, StrAt, DepthAfter, StructOf, StringsOf, Hdr, Dec32;
    var area, s := StructOf(b), |Enc(done)|;
    AreaSmall(b);
    EncAligned(done);
    ReadOne(area, done);
    TagAdvanced(area, s);
    DepthStep(done, TokenAt(area, s));
    if NextTagAt(area, s).0 == FDT_PROP {
      AreaWord(b, s + 8);
    }
  }

  /** A block that is accepted, with no length word near the wrap-around, has a well-nested reading. */
  lemma {:induction false} AcceptedReads(b: seq<byte>, done: seq<Token>, depth: nat)
    requires Sound(b) && ReadSoFar(b, done, depth)
    requires |Enc(done)| % 4 == 0 && VerdictFrom(b, |Enc(done)|, depth) == Returns(0)
      && LengthsFit(StructOf(b), |Enc(done)|)
    ensures exists w :: Reading(StructOf(b), StringsOf(b), w) && Balanced(w)
    decreases |StructOf(b)| + 4 - |Enc(done)|
  {
    hide Enc, NextTagAt, TokenAt, LengthFits, LengthsFit, StrAt, DepthAfter, StructOf, StringsOf, Hdr, Dec32, Reading,
      CheckTurn;
    var area, s := StructOf(b), |Enc(done)|;
    NextTagMoves(area, s);
    FitsMoves(area, s);
    TurnNext(b, s, depth);
    var (tag, next) := NextTagAt(area, s);
    if next > |area| {
      TagAdvanced(area, s);
      TurnPastEnd(b, next, CheckTurn(b, s, depth).state.1);
      assert false;
    } else if next >= 0 {
      TurnReads(b, done, depth);
      if CheckTurn(b, s, depth).Again? {
        var t := TokenAt(area, s);
        AcceptedReads(b, done + [t], CheckTurn(b, s, depth).state.1);
      } else {
        assert Reading(area, StringsOf(b), done) && Balanced(done);
      }
    }
  }

  /** A turn goes on only where the tokenizer does, and answers 0 only on an END tag. */
  lemma TurnNext(b: seq<byte>, s: nat, depth: nat)
    requires Sound(b)
    ensures var (tag, next) := NextTagAt(StructOf(b), s); var turn := CheckTurn(b, s, depth);
      && (turn.Again? ==> next >= 0 && tag != FDT_END && turn.state.0 == next)
      && (turn == Done(Returns(0)) ==> next >= 0 && tag == FDT_END && depth == 0)
  {
    hide NextTagAt, StrAt, StructOf, StringsOf, Hdr, Dec32;
  }

  lemma TurnPastEnd(b: seq<byte>, s: nat, depth: nat)
    requires Sound(b) && s > |StructOf(b)|
    ensures CheckTurn(b, s, depth) == Done(Returns(-TRUNCATED))
  {
    hide StructOf, Hdr;
    NextTagPastEnd(StructOf(b), s);
  }

  lemma FitsMoves(area: seq<byte>, s: nat)
    requires LengthsFit(area, s) && s % 4 == 0
    ensures LengthFits(area, s) && !StandsStill(area, s)
    ensures var (tag, next) := NextTagAt(area, s); next >= 0 && tag != FDT_END ==> LengthsFit(area, next)
  {
    hide NextTagAt, Dec32;
    NextTagMoves(area, s);
  }

  /** And a block with a well-nested reading is accepted. */
  lemma {:induction false} ReadingAccepted(b: seq<byte>, w: seq<Token>, k: nat)
    requires Sound(b) && Reading(StructOf(b), StringsOf(b), w) && Balanced(w) && k <= |w| && AllValid(w[..k])
    ensures |Enc(w[..k])| % 4 == 0 && DepthAfter(w[..k]).Some?
    ensures VerdictFrom(b, |Enc(w[..k])|, DepthAfter(w[..k]).value) == Returns(0)
    decreases |w| - k
  {
    hide Enc, NextTagAt, StrAt, DepthAfter, StructOf, StringsOf, Hdr, Dec32, TokenAt, LengthFits;
    var area, t, s := StructOf(b), (w + [End])[k], |Enc(w[..k])|;
    AreaSmall(b);
    EncAligned(w[..k]);
    TokenIn(area, w, k);
    assert w == w[..k] + w[k..];
    DepthPrefix(w[..k], w[k..]);
    DepthBound(w[..k]);
    EncodedFits(area, w, k);
    if k < |w| {
      assert w[..k + 1] == w[..k] + [t];
      NoEndInside(w, k);
      assert w == w[..k + 1] + w[k + 1..];
      DepthPrefix(w[..k + 1], w[k + 1..]);
      DepthStep(w[..k], t);
      EncAround(w[..k], t, []);
      PropNameAt(b, s, t);
      ReadingAccepted(b, w, k + 1);
    } else {
      assert w[..k] == w;
    }
  }

  lemma EncodedFits(area: seq<byte>, w: seq<Token>, k: nat)
    requires AllValid(w + [End]) && Enc(w + [End]) <= area && k <= |w| && AllValid(w[..k])
    ensures |Enc(w[..k])| + (w + [End])[k].Size() <= |area|
  {
    hide Enc, NextTagAt;
    TokenIn(area, w, k);
  }

  lemma PropNameAt(b: seq<byte>, s: nat, t: Token)
    requires Sound(b) && t.Valid() && s + t.Size() <= |StructOf(b)| && StructOf(b)[s..s + t.Size()] == t.Bytes()
    ensures t.Prop? ==> Hdr(b).offStruct + s + 12 <= |b| && Dec32(b, Hdr(b).offStruct + s + 8) == t.nameoff
  {
    hide Hdr, StructOf, Dec32;
    if t.Prop? {
      PropWordsAt(StructOf(b), s, t);
      AreaWord(b, s + 8);
    }
  }

  /** No length word that a walk over the structure block meets makes twelve plus it wrap around. */
  predicate BlockFits(b: seq<byte>) { Sound(b) && LengthsFit(StructOf(b), 0) }

  /** `fdt_check_full` and validity: a blob is valid exactly when it is accepted and its length words fit. */
  lemma AcceptedIsValid(b: seq<byte>, bufsize: nat)
    requires Declared(b, bufsize)
    ensures FullyValid(b) && Hdr(b).totalsize <= bufsize <==> FullVerdict(b, bufsize) == Returns(0) && BlockFits(b)
  {
    hide Hdr, NextTagAt, TokenAt, LengthsFit, DepthAfter, StructOf, StringsOf, Reading, RsvCount, VerdictFrom,
      CheckHeader;
    if V1_SIZE <= bufsize {
      CheckHeaderExact(Hdr(b), bufsize);
      if Sound(b) && Hdr(b).totalsize <= bufsize {
        BlockValid(b);
      }
    }
  }

  lemma BlockValid(b: seq<byte>)
    requires Sound(b)
    ensures (exists w :: Reading(StructOf(b), StringsOf(b), w) && Balanced(w)) <==>
            VerdictFrom(b, 0, 0) == Returns(0) && LengthsFit(StructOf(b), 0)
  {
    hide Hdr, NextTagAt, TokenAt, LengthsFit, DepthAfter, StructOf, StringsOf, Reading, VerdictFrom;
    NothingRead();
    if VerdictFrom(b, 0, 0) == Returns(0) && LengthsFit(StructOf(b), 0) {
      AcceptedReads(b, [], 0);
    }
    forall w | Reading(StructOf(b), StringsOf(b), w) && Balanced(w)
      ensures VerdictFrom(b, 0, 0) == Returns(0) && LengthsFit(StructOf(b), 0)
    {
      assert w[..0] == [];
      ReadingEncoded(StructOf(b), StringsOf(b), w);
      ReadingAccepted(b, w, 0);
      EncodedLengths(StructOf(b), w, 0);
    }
  }

  lemma NothingRead()
    ensures Enc([]) == [] && DepthAfter([]) == Some(0) && AllValid([])
  {
  }

  lemma ReadingEncoded(area: seq<byte>, strs: seq<byte>, w: seq<Token>)
    requires Reading(area, strs, w)
    ensures AllValid(w + [End]) && Enc(w + [End]) <= area
  {
  }

  // ---------------------------------------------------------------- two length words near the wrap-around

  /** A blob of 76 bytes without reservations; the structure block, at 56, is a property of length `len`, and END. */
  function PropWords(len: u32): seq<u32> {
    [FDT_MAGIC, 76, 56, 72, 40, 17, 16, 0, 4, 16, 0, 0, 0, 0, FDT_PROP, len, 0, FDT_END, 0]
  }

  lemma PropBlobHeader(len: u32, b: seq<byte>)
    requires b == Words(PropWords(len))
    ensures |b| == 76 && Hdr(b) == Header(FDT_MAGIC, 76, 56, 72, 40, 17, 16, 0, 4, 16)
    ensures Sound(b) && Declared(b, 76) && RsvCount(b, 0) == Some(0) && CheckHeader(Hdr(b)) == 0
  {
    hide Dec32, Enc32, Words;
    forall k | 0 <= k < 19 ensures Dec32(b, 4 * k) == PropWords(len)[k] {
      WordsAt(PropWords(len), k);
    }
    assert Dec32(b, 4 * 12) == 0 && Dec32(b, 4 * 13) == 0;
  }

  lemma PropBlobWord(len: u32, b: seq<byte>, k: nat)
    requires b == Words(PropWords(len)) && Sound(b) && Hdr(b) == Header(FDT_MAGIC, 76, 56, 72, 40, 17, 16, 0, 4, 16)
      && k < 4
    ensures |StructOf(b)| == 16 && Dec32(StructOf(b), 4 * k) == PropWords(len)[14 + k]
      && Dec32(b, 56 + 4 * k) == PropWords(len)[14 + k]
  {
    hide Hdr, Dec32, Words;
    WordsAt(PropWords(len), 14 + k);
    AreaWord(b, 4 * k);
  }

  /** The four words of the structure block, and the name of the property, which is empty. */
  lemma PropBlobBlock(len: u32, b: seq<byte>)
    requires b == Words(PropWords(len)) && Sound(b) && Hdr(b) == Header(FDT_MAGIC, 76, 56, 72, 40, 17, 16, 0, 4, 16)
    ensures var area := StructOf(b);
      && |area| == 16 && Dec32(area, 0) == FDT_PROP && Dec32(area, 4) == len && Dec32(area, 12) == FDT_END
    ensures Dec32(b, 64) == 0 && StrAt(StringsOf(b), 0).Some?
  {
    hide Hdr, Dec32, Enc32, Words, StructOf, StrAt;
    PropBlobWord(len, b, 0);
    PropBlobWord(len, b, 1);
    PropBlobWord(len, b, 2);
    PropBlobWord(len, b, 3);
    WordsAt(PropWords(len), 18);
    ZeroByte();
    assert StringsOf(b) == b[72..76] == Enc32(0);
    EmptyName(StringsOf(b));
  }

  lemma ZeroByte()
    ensures Enc32(0)[0] == 0
  {
  }

  lemma EmptyName(strs: seq<byte>)
    requires strs != [] && strs[0] == 0
    ensures StrAt(strs, 0).Some?
  {
  }

  /**
   The other blobs are not always refused: a property whose length word is 0xfffffffd seems to occupy twelve
   bytes, and the check goes on behind its header as if its value were there.
   */
  lemma MalformedAccepted()
    ensures exists b :: Declared(b, |b|) && FullVerdict(b, |b|) == Returns(0) && !FullyValid(b)
  {
    hide Hdr, Dec32, Enc32, RsvCount, VerdictFrom, NextTagAt, StrAt, Words, StructOf, StringsOf, CheckHeader, Sound,
      Declared, FullyValid, LengthsFit;
    var b := Words(PropWords(0xffff_fffd));
    PropBlobHeader(0xffff_fffd, b);
    MalformedBlock(b);
    AcceptedIsValid(b, 76);
  }

  lemma MalformedBlock(b: seq<byte>)
    requires b == Words(PropWords(0xffff_fffd)) && Sound(b)
      && Hdr(b) == Header(FDT_MAGIC, 76, 56, 72, 40, 17, 16, 0, 4, 16)
    ensures VerdictFrom(b, 0, 0) == Returns(0) && !LengthsFit(StructOf(b), 0)
  {
    hide Hdr, Dec32, StrAt, StructOf, StringsOf, Words, PropWords;
    var area := StructOf(b);
    PropBlobBlock(0xffff_fffd, b);
    assert NextTagAt(area, 0) == (FDT_PROP, 12) && NextTagAt(area, 12) == (FDT_END, 16);
  }

  /** On a property whose length word is 0xfffffff4 `fdt_check_full` does not return. */
  lemma NeverReturns()
    ensures exists b :: Declared(b, |b|) && FullVerdict(b, |b|) == SpinsForEver
  {
    hide Hdr, Dec32, Enc32, RsvCount, VerdictFrom, NextTagAt, StrAt, Words, StructOf, StringsOf, CheckHeader, Sound,
      Declared;
    var b := Words(PropWords(LEN_WRAPS_TO_ZERO));
    PropBlobHeader(LEN_WRAPS_TO_ZERO, b);
    SpinningBlock(b);
    assert FullVerdict(b, 76) == SpinsForEver;
  }

  lemma SpinningBlock(b: seq<byte>)
    requires b == Words(PropWords(LEN_WRAPS_TO_ZERO)) && Sound(b)
      && Hdr(b) == Header(FDT_MAGIC, 76, 56, 72, 40, 17, 16, 0, 4, 16)
    ensures VerdictFrom(b, 0, 0) == SpinsForEver
  {
    hide Hdr, Dec32, StrAt, StructOf, StringsOf, Words, PropWords;
    PropBlobBlock(LEN_WRAPS_TO_ZERO, b);
    assert NextTagAt(StructOf(b), 0) == (FDT_PROP, 0);
  }
}
