/** Well-nested structure blocks as trees, and positions in them. */
module Forests {
  import opened Bytes
  import opened Tokens

  /** The items between a BEGIN_NODE and its END_NODE: properties, NOPs and nodes with their own forests. */
  datatype Forest =
    | Nil
    | PropCons(nameoff: u32, val: seq<byte>, pad: seq<byte>, rest: Forest)
    | NopCons(rest: Forest)
    | NodeCons(name: seq<byte>, npad: seq<byte>, kids: Forest, rest: Forest)

  /**
   A forest with a hole. With the forest that fills the hole it is a cursor, and the tokens before the
   cursor fix its byte offset.
   */
  datatype Spot =
    | Top
    | AfterProp(up: Spot, nameoff: u32, val: seq<byte>, pad: seq<byte>)
    | AfterNop(up: Spot)
    | AfterNode(up: Spot, name: seq<byte>, npad: seq<byte>, kids: Forest)
    | Inside(up: Spot, name: seq<byte>, npad: seq<byte>, rest: Forest)

  datatype Cursor = Cursor(spot: Spot, here: Forest)

  function Flat(f: Forest): seq<Token> {
    match f
    case Nil => []
    case PropCons(o, v, p, r) => [Prop(o, v, p)] + Flat(r)
    case NopCons(r) => [Nop] + Flat(r)
    case NodeCons(n, p, k, r) => [BeginNode(n, p)] + Flat(k) + [EndNode] + Flat(r)
  }

  /** All tokens of a structure block: the forest, then END. */
  function Block(f: Forest): seq<Token> { Flat(f) + [End] }

  /** The forest obtained by filling the hole. */
  function Plug(s: Spot, f: Forest): Forest {
    match s
    case Top => f
    case AfterProp(u, o, v, p) => Plug(u, PropCons(o, v, p, f))
    case AfterNop(u) => Plug(u, NopCons(f))
    case AfterNode(u, n, p, k) => Plug(u, NodeCons(n, p, k, f))
    case Inside(u, n, p, r) => Plug(u, NodeCons(n, p, f, r))
  }

  lemma TopIsAll(f: Forest)
    ensures Plug(Top, f) == f
  {
  }

  /** The tokens before the hole. */
  function Pre(s: Spot): seq<Token> {
    match s
    case Top => []
    case AfterProp(u, o, v, p) => Pre(u) + [Prop(o, v, p)]
    case AfterNop(u) => Pre(u) + [Nop]
    case AfterNode(u, n, p, k) => Pre(u) + [BeginNode(n, p)] + Flat(k) + [EndNode]
    case Inside(u, n, p, r) => Pre(u) + [BeginNode(n, p)]
  }

  /** The tokens after the hole, up to and including END. */
  function Post(s: Spot): (t: seq<Token>)
    ensures t != []
  {
    match s
    case Top => [End]
    case AfterProp(u, _, _, _) => Post(u)
    case AfterNop(u) => Post(u)
    case AfterNode(u, _, _, _) => Post(u)
    case Inside(u, _, _, r) => [EndNode] + Flat(r) + Post(u)
  }

  // Regrouping of concatenations, kept apart from the definitions above.

  lemma Regroup<T>(a: seq<T>, b: seq<T>, c: seq<T>, d: seq<T>)
    ensures a + (b + c) + d == (a + b) + c + d
  {
  }

  lemma RegroupAfter<T>(a: seq<T>, b: seq<T>, k: seq<T>, e: seq<T>, f: seq<T>, p: seq<T>)
    ensures a + (b + k + e + f) + p == (a + b + k + e) + f + p
  {
  }

  lemma RegroupInside<T>(a: seq<T>, b: seq<T>, f: seq<T>, e: seq<T>, r: seq<T>, p: seq<T>)
    ensures a + (b + f + e + r) + p == (a + b) + f + (e + r + p)
  {
  }

  lemma {:induction false} BlockPlug(s: Spot, f: Forest)
    ensures Block(Plug(s, f)) == Pre(s) + Flat(f) + Post(s)
  {
    match s
    case Top =>
    case AfterProp(u, o, v, p) =>
      BlockPlug(u, PropCons(o, v, p, f));
      Regroup(Pre(u), [Prop(o, v, p)], Flat(f), Post(u));
    case AfterNop(u) =>
      BlockPlug(u, NopCons(f));
      Regroup(Pre(u), [Nop], Flat(f), Post(u));
    case AfterNode(u, n, p, k) =>
      BlockPlug(u, NodeCons(n, p, k, f));
      RegroupAfter(Pre(u), [BeginNode(n, p)], Flat(k), [EndNode], Flat(f), Post(u));
    case Inside(u, n, p, r) =>
      BlockPlug(u, NodeCons(n, p, f, r));
      RegroupInside(Pre(u), [BeginNode(n, p)], Flat(f), [EndNode], Flat(r), Post(u));
  }

  // ---------------------------------------------------------------- moving a cursor

  predicate AtTop(s: Spot) {
    match s
    case Top => true
    case AfterProp(u, _, _, _) => AtTop(u)
    case AfterNop(u) => AtTop(u)
    case AfterNode(u, _, _, _) => AtTop(u)
    case Inside(_, _, _, _) => false
  }

  /** The cursor just past the END_NODE that closes the node around `s`, whose hole holds `f`. */
  function Close(s: Spot, f: Forest): Cursor
    requires !AtTop(s)
  {
    match s
    case AfterProp(u, o, v, p) => Close(u, PropCons(o, v, p, f))
    case AfterNop(u) => Close(u, NopCons(f))
    case AfterNode(u, n, p, k) => Close(u, NodeCons(n, p, k, f))
    case Inside(u, n, p, r) => Cursor(AfterNode(u, n, p, f), r)
  }

  lemma {:induction false} CloseFacts(s: Spot, f: Forest)
    requires !AtTop(s)
    ensures Plug(Close(s, f).spot, Close(s, f).here) == Plug(s, f)
    ensures Pre(Close(s, f).spot) == Pre(s) + Flat(f) + [EndNode]
    ensures [EndNode] + Flat(Close(s, f).here) + Post(Close(s, f).spot) == Post(s)
  {
    match s
    case AfterProp(u, o, v, p) =>
      CloseFacts(u, PropCons(o, v, p, f));
      Regroup(Pre(u), [Prop(o, v, p)], Flat(f), [EndNode]);
    case AfterNop(u) =>
      CloseFacts(u, NopCons(f));
      Regroup(Pre(u), [Nop], Flat(f), [EndNode]);
    case AfterNode(u, n, p, k) =>
      CloseFacts(u, NodeCons(n, p, k, f));
      RegroupAfter(Pre(u), [BeginNode(n, p)], Flat(k), [EndNode], Flat(f), [EndNode]);
    case Inside(u, n, p, r) =>
  }

  lemma {:induction false} TopPost(s: Spot)
    ensures Post(s)[0] == (if AtTop(s) then End else EndNode)
    ensures AtTop(s) ==> Post(s) == [End]
  {
    match s
    case Top =>
    case AfterProp(u, _, _, _) => TopPost(u);
    case AfterNop(u) => TopPost(u);
    case AfterNode(u, _, _, _) => TopPost(u);
    case Inside(_, _, _, _) =>
  }

  /** The token under the cursor. */
  function Head(s: Spot, f: Forest): Token {
    match f
    case Nil => if AtTop(s) then End else EndNode
    case PropCons(o, v, p, _) => Prop(o, v, p)
    case NopCons(_) => Nop
    case NodeCons(n, p, _, _) => BeginNode(n, p)
  }

  /** The cursor one token further. */
  function Next(s: Spot, f: Forest): Cursor
    requires !(AtTop(s) && f.Nil?)
  {
    match f
    case Nil => Close(s, Nil)
    case PropCons(o, v, p, r) => Cursor(AfterProp(s, o, v, p), r)
    case NopCons(r) => Cursor(AfterNop(s), r)
    case NodeCons(n, p, k, r) => Cursor(Inside(s, n, p, r), k)
  }

  /** Number of tokens left before the end of the block. */
  function Left(s: Spot, f: Forest): nat { |Flat(f)| + |Post(s)| }

  lemma NextFacts(s: Spot, f: Forest)
    requires !(AtTop(s) && f.Nil?)
    ensures Plug(Next(s, f).spot, Next(s, f).here) == Plug(s, f)
    ensures Pre(Next(s, f).spot) == Pre(s) + [Head(s, f)]
    ensures Left(Next(s, f).spot, Next(s, f).here) == Left(s, f) - 1
  {
    if f.Nil? {
      CloseFacts(s, Nil);
      assert Pre(s) + [] + [EndNode] == Pre(s) + [EndNode];
    }
  }

  // ---------------------------------------------------------------- bytes under a cursor

  /** `area` begins with the encoding of a whole structure block holding `f`. */
  ghost predicate Holds(area: seq<byte>, f: Forest)
  {
    AllValid(Block(f)) && Enc(Block(f)) <= area
  }

  /** The byte offset of a spot inside the structure block. */
  function Off(s: Spot): nat
    requires AllValid(Pre(s))
  {
    |Enc(Pre(s))|
  }

  lemma HeadIsFirst(s: Spot, f: Forest)
    ensures (Flat(f) + Post(s))[0] == Head(s, f)
  {
    TopPost(s);
  }

  lemma ValidParts(s: Spot, f: Forest)
    requires AllValid(Block(Plug(s, f)))
    ensures AllValid(Pre(s)) && AllValid(Flat(f)) && AllValid(Post(s)) && Head(s, f).Valid()
  {
    BlockPlug(s, f);
    HeadIsFirst(s, f);
    var a, b, c := Pre(s), Flat(f), Post(s);
    assert forall t :: t in a || t in b || t in c ==> t in a + b + c;
    assert (b + c)[0] in a + b + c by { assert (b + c)[0] == (a + b + c)[|a|]; }
  }

  /** In an encoded token sequence each token follows the ones before it. */
  lemma FollowsAt(area: seq<byte>, a: seq<Token>, t: Token, c: seq<Token>)
    requires AllValid(a) && t.Valid() && AllValid(c)
    requires AllValid(a + [t] + c) && Enc(a + [t] + c) <= area
    ensures Follows(area, a, t)
  {
    EncAround(a, t, c);
    Middle(area, Enc(a), t.Bytes(), Enc(c));
  }

  lemma SplitHead(s: Spot, f: Forest)
    ensures var b := Flat(f) + Post(s); Block(Plug(s, f)) == Pre(s) + [Head(s, f)] + b[1..]
  {
    BlockPlug(s, f);
    HeadIsFirst(s, f);
    SplitAt(Pre(s), Flat(f), Post(s));
  }

  lemma SplitAt<T>(a: seq<T>, f: seq<T>, p: seq<T>)
    requires f + p != []
    ensures a + f + p == a + [(f + p)[0]] + (f + p)[1..]
  {
    assert f + p == [(f + p)[0]] + (f + p)[1..];
  }

  /** The token under a cursor is the one found at the cursor's offset. */
  lemma Under(area: seq<byte>, s: Spot, f: Forest)
    requires Holds(area, Plug(s, f))
    ensures AllValid(Pre(s)) && Head(s, f).Valid() && Follows(area, Pre(s), Head(s, f))
  {
    ValidParts(s, f);
    SplitHead(s, f);
    var b := Flat(f) + Post(s);
    assert AllValid(b[1..]);
    FollowsAt(area, Pre(s), Head(s, f), b[1..]);
  }

  /** `fdt_next_tag` at a cursor reads its token and moves to the next cursor. */
  lemma TagUnder(area: seq<byte>, s: Spot, f: Forest)
    requires Holds(area, Plug(s, f))
    ensures AllValid(Pre(s)) && Head(s, f).Valid()
    ensures NextTagAt(area, Off(s)) == (Head(s, f).Tag(), Off(s) + Head(s, f).Size())
    ensures Off(s) + Head(s, f).Size() <= |area|
  {
    hide NextTagAt, Head, Pre, Plug, Block, Enc, AtTop;

    Under(area, s, f);
    NextTagToken(area, Pre(s), Head(s, f));
  }
}
