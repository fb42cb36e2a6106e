/**
 Edits of a forest at a cursor: which bytes of the structure block they replace, and what they do
 to the decoded tree.

 Each edit is described three times: as token bytes, as a function on the forest that keeps padding and
 NOPs, and as a function on the decoded tree. The lemmas connect the three.
 */
module Edits {
  import opened Bytes
  import opened Tokens
  import opened Forests
  import opened Trees
  import opened Walks
  import opened Blobs
  import opened Layouts

  /** A blob the read-write functions accept, carrying exactly the forest `t`. */
  ghost predicate Editable(b: seq<byte>, t: Forest)
  {
    && Sound(b) && Ordered(Hdr(b))
    && AllValid(Block(t)) && StructOf(b) == Enc(Block(t))
    && NamesOk(t, StringsOf(b))
  }

  /** Replacing the tokens `xs` under a cursor by `xs2` replaces exactly their bytes. */
  lemma EditTokens(s: Spot, f: Forest, f2: Forest, xs: seq<Token>, xs2: seq<Token>, ys: seq<Token>)
    requires AllValid(Block(Plug(s, f))) && AllValid(xs2)
    requires Flat(f) == xs + ys && Flat(f2) == xs2 + ys
    ensures AllValid(Block(Plug(s, f2))) && AllValid(Pre(s)) && AllValid(xs)
    ensures var st, q := Enc(Block(Plug(s, f))), Off(s);
      && q + |Enc(xs)| <= |st|
      && st[q..q + |Enc(xs)|] == Enc(xs)
      && Enc(Block(Plug(s, f2))) == st[..q] + Enc(xs2) + st[q + |Enc(xs)|..]
  {
    hide Flat, Plug, Pre, Post, Block, Enc;
    BlockPlug(s, f);
    BlockPlug(s, f2);
    ValidParts(s, f);
    var a, z := Pre(s), ys + Post(s);
    assert AllValid(xs) && AllValid(ys) by {
      assert forall t :: t in xs || t in ys ==> t in Flat(f);
    }
    assert a + (xs + ys) + Post(s) == a + xs + z;
    assert a + (xs2 + ys) + Post(s) == a + xs2 + z;
    EncThree(a, xs, z);
    EncThree(a, xs2, z);
    CutOut(Enc(a), Enc(xs), Enc(z));
  }

  /** Tokens before the edit keep their byte offsets, and every token behind it moves by the same distance. */
  lemma OffsetsShift(s: Spot, f: Forest, f2: Forest, xs: seq<Token>, xs2: seq<Token>, ys: seq<Token>, k: nat)
    requires AllValid(Block(Plug(s, f))) && AllValid(Block(Plug(s, f2)))
    requires Flat(f) == xs + ys && Flat(f2) == xs2 + ys && k <= |ys + Post(s)|
    ensures var a, b, n, n2 := Block(Plug(s, f)), Block(Plug(s, f2)), |Pre(s)| + |xs|, |Pre(s)| + |xs2|;
      && n + k <= |a| && n2 + k <= |b| && AllValid(a[..n + k]) && AllValid(b[..n2 + k]) && AllValid(xs) && AllValid(xs2)
      && |Enc(b[..n2 + k])| - |Enc(a[..n + k])| == |Enc(xs2)| - |Enc(xs)|
      && a[n..] == b[n2..] && a[..|Pre(s)|] == b[..|Pre(s)|]
  {
    hide Enc, Plug, Flat, Pre, Post, Block;
    BlockPlug(s, f);
    BlockPlug(s, f2);
    TokensRegroup(Pre(s), xs, ys, Post(s));
    TokensRegroup(Pre(s), xs2, ys, Post(s));
    PrefixBytes(Pre(s), xs, ys + Post(s), k, Block(Plug(s, f)));
    PrefixBytes(Pre(s), xs2, ys + Post(s), k, Block(Plug(s, f2)));
  }

  lemma TokensRegroup(p: seq<Token>, xs: seq<Token>, ys: seq<Token>, z: seq<Token>)
    ensures p + (xs + ys) + z == p + xs + (ys + z)
  {
  }

  lemma PrefixBytes(p: seq<Token>, xs: seq<Token>, z: seq<Token>, k: nat, all: seq<Token>)
    requires AllValid(all) && k <= |z| && all == p + xs + z
    ensures |all| == |p| + |xs| + |z| && all[|p| + |xs|..] == z && all[..|p|] == p
    ensures AllValid(all[..|p| + |xs| + k]) && AllValid(p) && AllValid(xs) && AllValid(z[..k])
    ensures |Enc(all[..|p| + |xs| + k])| == |Enc(p)| + |Enc(xs)| + |Enc(z[..k])|
  {
    hide Enc;
    assert all[..|p| + |xs| + k] == p + xs + z[..k];
    EncThree(p, xs, z[..k]);
  }

  /** Putting that together with the strings block: the edited blob carries the edited forest. */
  lemma EditedBlob(b: seq<byte>, c: seq<byte>, s: Spot, f: Forest, f2: Forest, xs: seq<Token>, xs2: seq<Token>,
      ys: seq<Token>)
    requires Editable(b, Plug(s, f)) && AllValid(xs2) && Sound(c) && Ordered(Hdr(c))
    requires Flat(f) == xs + ys && Flat(f2) == xs2 + ys
    requires StringsOf(b) <= StringsOf(c) && NamesOk(f2, StringsOf(c))
    requires AllValid(Pre(s)) && AllValid(xs) && Off(s) + |Enc(xs)| <= |StructOf(b)|
    requires StructOf(c) == StructOf(b)[..Off(s)] + Enc(xs2) + StructOf(b)[Off(s) + |Enc(xs)|..]
    ensures Editable(c, Plug(s, f2))
  {
    hide Plug, Flat, Pre, Post, Block, Enc, Hdr, StructOf, StringsOf, NamesOk, NamesOkAround, Decode;
    EditTokens(s, f, f2, xs, xs2, ys);
    DecodePlug(s, f, StringsOf(b));
    PlaceMoreStrings(s, StringsOf(b), StringsOf(c));
    DecodePlug(s, f2, StringsOf(c));
  }

  lemma EncThree(a: seq<Token>, b: seq<Token>, c: seq<Token>)
    requires AllValid(a) && AllValid(b) && AllValid(c)
    ensures AllValid(a + b + c) && Enc(a + b + c) == Enc(a) + Enc(b) + Enc(c)
  {
    EncConcat(a, b);
    EncConcat(a + b, c);
  }

  lemma CutOut(a: seq<byte>, x: seq<byte>, z: seq<byte>)
    ensures var st := a + x + z; st[..|a|] == a && st[|a|..|a| + |x|] == x && st[|a| + |x|..] == z
  {
  }

  // ---------------------------------------------------------------- bytes of one token

  /** A write inside the middle of three parts. */
  lemma PutMiddle(a: seq<byte>, x: seq<byte>, z: seq<byte>, k: nat, y: seq<byte>)
    requires k + |y| <= |x|
    ensures Put(a + x + z, |a| + k, y) == a + Put(x, k, y) + z
  {
  }

  /** Property storage resized in place, then its length word rewritten. */
  lemma PropResized(st: seq<byte>, st2: seq<byte>, q: nat, t: Token, gap: seq<byte>, len: nat)
    requires t.Prop? && t.Valid() && q + t.Size() <= |st| && st[q..q + t.Size()] == t.Bytes()
    requires len <= INT_MAX && |gap| == Align4(len)
    requires st2 == Put(st[..q + 12] + gap + st[q + 12 + Align4(|t.val|)..], q + 4, Enc32(len))
    ensures var t2 := Prop(t.nameoff, gap[..len], gap[len..]);
      t2.Valid() && st2 == st[..q] + t2.Bytes() + st[q + t.Size()..]
  {
    hide Enc32, Align4, Put;
    var t2 := Prop(t.nameoff, gap[..len], gap[len..]);
    var a, z := st[..q], st[q + t.Size()..];
    var h := Enc32(FDT_PROP) + Enc32(|t.val|) + Enc32(t.nameoff);
    SliceSlice(st, q, q + t.Size(), 0, 12);
    assert t.Bytes()[0..12] == h;
    assert st[..q + 12] == a + h by {
      assert st[..q + 12] == st[..q] + st[q..q + 12];
    }
    assert (a + h) + gap + z == a + (h + gap) + z;
    PutMiddle(a, h + gap, z, 4, Enc32(len));
    HeaderLen(|t.val|, t.nameoff, gap, len);
  }

  lemma HeaderLen(was: u32, nameoff: u32, gap: seq<byte>, len: u32)
    requires len <= |gap|
    ensures Put(Enc32(FDT_PROP) + Enc32(was) + Enc32(nameoff) + gap, 4, Enc32(len)) ==
            Enc32(FDT_PROP) + Enc32(len) + Enc32(nameoff) + gap[..len] + gap[len..]
  {
    hide Enc32;
    assert gap == gap[..len] + gap[len..];
  }

  /** Three header words written into fresh storage make a property. */
  lemma PropCreated(st: seq<byte>, q: nat, gap: seq<byte>, nameoff: u32, len: nat)
    requires q <= |st| && len <= INT_MAX && |gap| == 12 + Align4(len)
    ensures var t := Prop(nameoff, gap[12..12 + len], gap[12 + len..]);
      && t.Valid()
      && Put(Put(Put(st[..q] + gap + st[q..], q, Enc32(FDT_PROP)), q + 8, Enc32(nameoff)), q + 4, Enc32(len))
         == st[..q] + t.Bytes() + st[q..]
  {
    hide Enc32, Align4, Put;
    var a, z := st[..q], st[q..];
    var g1 := Put(gap, 0, Enc32(FDT_PROP));
    var g2 := Put(g1, 8, Enc32(nameoff));
    PutMiddle(a, gap, z, 0, Enc32(FDT_PROP));
    PutMiddle(a, g1, z, 8, Enc32(nameoff));
    PutMiddle(a, g2, z, 4, Enc32(len));
    ThreeWords(gap, nameoff, len);
  }

  lemma ThreeWords(gap: seq<byte>, nameoff: u32, len: u32)
    requires |gap| >= 12 + len
    ensures Put(Put(Put(gap, 0, Enc32(FDT_PROP)), 8, Enc32(nameoff)), 4, Enc32(len)) ==
      Enc32(FDT_PROP) + Enc32(len) + Enc32(nameoff) + gap[12..12 + len] + gap[12 + len..]
  {
    hide Enc32;
    var a, b, c := Enc32(FDT_PROP), Enc32(nameoff), Enc32(len);
    var g1 := Put(gap, 0, a);
    assert g1 == a + gap[4..];
    var g2 := Put(g1, 8, b);
    assert g2 == a + gap[4..8] + b + gap[12..];
    assert Put(g2, 4, c) == a + c + b + gap[12..];
    assert gap[12..] == gap[12..12 + len] + gap[12 + len..];
  }

  /** Writing (part of) a value in place. */
  lemma PropWritten(st: seq<byte>, q: nat, t: Token, k: nat, x: seq<byte>)
    requires t.Prop? && t.Valid() && q + t.Size() <= |st| && st[q..q + t.Size()] == t.Bytes()
    requires k + |x| <= |t.val|
    ensures var t2 := Prop(t.nameoff, Put(t.val, k, x), t.pad);
      && t2.Valid() && t2.Size() == t.Size()
      && Put(st, q + 12 + k, x) == st[..q] + t2.Bytes() + st[q + t.Size()..]
  {
    hide Enc32, Align4, Put;
    var a, z := st[..q], st[q + t.Size()..];
    assert st == a + t.Bytes() + z by {
      assert st == st[..q] + st[q..q + t.Size()] + st[q + t.Size()..];
    }
    PutMiddle(a, t.Bytes(), z, 12 + k, x);
    var h := Enc32(FDT_PROP) + Enc32(|t.val|) + Enc32(t.nameoff);
    assert t.Bytes() == h + t.val + t.pad;
    PutMiddle(h, t.val, t.pad, k, x);
  }

  /** The bytes `fdt_add_subnode_namelen` writes: an empty node with a zero-padded name. */
  function EmptyNode(name: seq<byte>): seq<byte> {
    Enc32(FDT_BEGIN_NODE) + name + Zeros(Align4(|name| + 1) - |name|) + Enc32(FDT_END_NODE)
  }

  lemma EmptyNodeTokens(name: seq<byte>)
    requires NoNul(name)
    ensures var b := BeginNode(name, Zeros(Align4(|name| + 1) - |name| - 1));
      AllValid([b, EndNode]) && Enc([b, EndNode]) == EmptyNode(name)
  {
    hide Enc32, Align4;
    var pad := Zeros(Align4(|name| + 1) - |name| - 1);
    var b := BeginNode(name, pad);
    EncConcat([b], [EndNode]);
    assert [b] + [EndNode] == [b, EndNode];
    EncOne(b);
    EncOne(EndNode);
    assert [0] + pad == Zeros(Align4(|name| + 1) - |name|);
    assert b.Bytes() == Enc32(FDT_BEGIN_NODE) + name + ([0] + pad);
  }

  /** Name storage resized, then the new name written over it. */
  lemma NodeRenamed(st: seq<byte>, st2: seq<byte>, q: nat, t: Token, gap: seq<byte>, name: seq<byte>)
    requires t.BeginNode? && t.Valid() && q + t.Size() <= |st| && st[q..q + t.Size()] == t.Bytes()
    requires NoNul(name) && |gap| == Align4(|name| + 1)
    requires st2 == Put(st[..q + 4] + gap + st[q + 4 + Align4(|t.name| + 1)..], q + 4, name + [0])
    ensures var t2 := BeginNode(name, gap[|name| + 1..]);
      t2.Valid() && st2 == st[..q] + t2.Bytes() + st[q + t.Size()..]
  {
    hide Enc32, Align4, Put;
    var n := |name| + 1;
    var a, z, h := st[..q], st[q + t.Size()..], Enc32(FDT_BEGIN_NODE);
    SliceSlice(st, q, q + t.Size(), 0, 4);
    assert t.Bytes()[0..4] == h;
    assert st[..q + 4] == a + h by {
      assert st[..q + 4] == st[..q] + st[q..q + 4];
    }
    PutMiddle(a + h, gap, z, 0, name + [0]);
    assert Put(gap, 0, name + [0]) == name + [0] + gap[n..] by { PutFront(gap, name + [0]); }
    assert a + h + (name + [0] + gap[n..]) + z == a + (h + name + [0] + gap[n..]) + z;
  }

  lemma PutFront(x: seq<byte>, y: seq<byte>)
    requires |y| <= |x|
    ensures Put(x, 0, y) == y + x[|y|..]
  {
  }

  // ---------------------------------------------------------------- properties

  /** The raw counterpart of `ReplaceProp`. */
  function ReplaceRaw(f: Forest, strs: seq<byte>, name: seq<byte>, val: seq<byte>, pad: seq<byte>): Forest {
    match f
    case PropCons(o, v, p, r) =>
      if StrAt(strs, o) == Some(name) then PropCons(o, val, pad, r)
      else PropCons(o, v, p, ReplaceRaw(r, strs, name, val, pad))
    case NopCons(r) => NopCons(ReplaceRaw(r, strs, name, val, pad))
    case _ => f
  }

  /** Looking a property up in the forest is looking it up in the decoded tree. */
  lemma {:induction false} FindPropReads(s: Spot, f: Forest, strs: seq<byte>, name: seq<byte>)
    requires NamesOk(f, strs)
    ensures var c := FindProp(s, f, strs, name);
      PropOf(Decode(f, strs), name) == if c.Some? then Some(c.value.here.val) else None
    ensures FindProp(s, f, strs, name).Some? ==> AtTop(FindProp(s, f, strs, name).value.spot) == AtTop(s)
    decreases f
  {
    match f
    case PropCons(o, v, p, r) =>
      if StrAt(strs, o) != Some(name) {
        FindPropReads(AfterProp(s, o, v, p), r, strs, name);
      }
    case NopCons(r) => FindPropReads(AfterNop(s), r, strs, name);
    case _ =>
  }

  /** Changing the value under the cursor that the lookup found replaces that property's value. */
  lemma {:induction false} FindPropReplaces(s: Spot, f: Forest, strs: seq<byte>, name: seq<byte>, val: seq<byte>,
      pad: seq<byte>)
    requires NamesOk(f, strs) && FindProp(s, f, strs, name).Some?
    ensures var c := FindProp(s, f, strs, name).value; var g := ReplaceRaw(f, strs, name, val, pad);
      && Plug(c.spot, PropCons(c.here.nameoff, val, pad, c.here.rest)) == Plug(s, g)
      && NamesOk(g, strs) && Decode(g, strs) == ReplaceProp(Decode(f, strs), name, val)
    decreases f
  {
    match f
    case PropCons(o, v, p, r) =>
      if StrAt(strs, o) != Some(name) {
        FindPropReplaces(AfterProp(s, o, v, p), r, strs, name, val, pad);
      }
    case NopCons(r) => FindPropReplaces(AfterNop(s), r, strs, name, val, pad);
    case _ =>
  }


  /** `n` NOPs in front of a forest. */
  function Nops(n: nat, f: Forest): Forest { if n == 0 then f else NopCons(Nops(n - 1, f)) }

  /** NOPs are invisible. */
  lemma {:induction false} NopsInvisible(n: nat, f: Forest, strs: seq<byte>)
    requires NamesOk(f, strs)
    ensures NamesOk(Nops(n, f), strs) && Decode(Nops(n, f), strs) == Decode(f, strs)
  {
    if n > 0 {
      NopsInvisible(n - 1, f, strs);
    }
  }

  function NopTokens(n: nat): seq<Token> { seq(n, _ => Nop) }

  lemma {:induction false} FlatNops(n: nat, f: Forest)
    ensures Flat(Nops(n, f)) == NopTokens(n) + Flat(f)
  {
    if n > 0 {
      FlatNops(n - 1, f);
      assert NopTokens(n) == [Nop] + NopTokens(n - 1);
    }
  }

  /** The property of that name removed, `n` NOPs left in its stead. */
  function DropRaw(f: Forest, strs: seq<byte>, name: seq<byte>, n: nat): Forest {
    match f
    case PropCons(o, v, p, r) =>
      if StrAt(strs, o) == Some(name) then Nops(n, r) else PropCons(o, v, p, DropRaw(r, strs, name, n))
    case NopCons(r) => NopCons(DropRaw(r, strs, name, n))
    case _ => f
  }

  /** Cutting out the cell that the lookup found, or overwriting it with NOPs, drops the property. */
  lemma {:induction false} FindPropDrops(s: Spot, f: Forest, strs: seq<byte>, name: seq<byte>, n: nat)
    requires NamesOk(f, strs) && FindProp(s, f, strs, name).Some?
    ensures var c := FindProp(s, f, strs, name).value; var g := DropRaw(f, strs, name, n);
      && Plug(c.spot, Nops(n, c.here.rest)) == Plug(s, g)
      && NamesOk(g, strs) && Decode(g, strs) == DropProp(Decode(f, strs), name)
    decreases f
  {
    match f
    case PropCons(o, v, p, r) =>
      if StrAt(strs, o) == Some(name) {
        NopsInvisible(n, r, strs);
      } else {
        FindPropDrops(AfterProp(s, o, v, p), r, strs, name, n);
      }
    case NopCons(r) => FindPropDrops(AfterNop(s), r, strs, name, n);
    case _ =>
  }

  // ---------------------------------------------------------------- subnodes

  /** The raw counterpart of `AddChild`: after the leading properties and NOPs. */
  function AddRaw(f: Forest, name: seq<byte>, npad: seq<byte>, kids: Forest): Forest {
    match f
    case PropCons(o, v, p, r) => PropCons(o, v, p, AddRaw(r, name, npad, kids))
    case NopCons(r) => NopCons(AddRaw(r, name, npad, kids))
    case _ => NodeCons(name, npad, kids, f)
  }

  /** Where `fdt_add_subnode_namelen` inserts: the first token that is neither property nor NOP. */
  function InsertAt(s: Spot, f: Forest): (c: Cursor)
    ensures Plug(c.spot, c.here) == Plug(s, f) && !c.here.PropCons? && !c.here.NopCons?
    decreases f
  {
    match f
    case PropCons(o, v, p, r) => InsertAt(AfterProp(s, o, v, p), r)
    case NopCons(r) => InsertAt(AfterNop(s), r)
    case _ => Cursor(s, f)
  }

  lemma {:induction false} InsertAdds(s: Spot, f: Forest, strs: seq<byte>, name: seq<byte>, npad: seq<byte>,
      kids: Forest)
    requires NamesOk(f, strs) && NamesOk(kids, strs)
    ensures var c := InsertAt(s, f); var g := AddRaw(f, name, npad, kids);
      && Plug(c.spot, NodeCons(name, npad, kids, c.here)) == Plug(s, g) && AtTop(c.spot) == AtTop(s)
      && NamesOk(g, strs) && Decode(g, strs) == AddChild(Decode(f, strs), name, Decode(kids, strs))
    decreases f
  {
    match f
    case PropCons(o, v, p, r) => InsertAdds(AfterProp(s, o, v, p), r, strs, name, npad, kids);
    case NopCons(r) => InsertAdds(AfterNop(s), r, strs, name, npad, kids);
    case _ =>
  }

  /** The children of the first subnode whose name matches, replaced. */
  function SetKidsRaw(f: Forest, name: seq<byte>, kids: Forest): Forest {
    match f
    case Nil => Nil
    case PropCons(o, v, p, r) => PropCons(o, v, p, SetKidsRaw(r, name, kids))
    case NopCons(r) => NopCons(SetKidsRaw(r, name, kids))
    case NodeCons(n, p, k, r) =>
      if NameMatch(n, name) then NodeCons(n, p, kids, r) else NodeCons(n, p, k, SetKidsRaw(r, name, kids))
  }

  /** Looking a subnode up in the forest is looking it up in the decoded tree. */
  lemma {:induction false} FindChildReads(s: Spot, f: Forest, strs: seq<byte>, name: seq<byte>)
    requires NamesOk(f, strs)
    ensures var c := FindChild(s, f, name);
      && (c.Some? ==> NamesOk(c.value.here.kids, strs) && AtTop(c.value.spot) == AtTop(s))
      && ChildOf(Decode(f, strs), name) == if c.Some? then Some(Decode(c.value.here.kids, strs)) else None
    decreases f
  {
    match f
    case Nil =>
    case PropCons(o, v, p, r) => FindChildReads(AfterProp(s, o, v, p), r, strs, name);
    case NopCons(r) => FindChildReads(AfterNop(s), r, strs, name);
    case NodeCons(n, p, k, r) =>
      if !NameMatch(n, name) {
        FindChildReads(AfterNode(s, n, p, k), r, strs, name);
      }
  }

  /** Changing the children of the subnode that the lookup found. */
  lemma {:induction false} FindChildReplaces(s: Spot, f: Forest, strs: seq<byte>, name: seq<byte>, kids: Forest)
    requires NamesOk(f, strs) && NamesOk(kids, strs) && FindChild(s, f, name).Some?
    ensures var c := FindChild(s, f, name).value; var g := SetKidsRaw(f, name, kids);
      && Plug(c.spot, NodeCons(c.here.name, c.here.npad, kids, c.here.rest)) == Plug(s, g)
      && NamesOk(g, strs) && Decode(g, strs) == SetChild(Decode(f, strs), name, Decode(kids, strs))
    decreases f
  {
    match f
    case Nil =>
    case PropCons(o, v, p, r) => FindChildReplaces(AfterProp(s, o, v, p), r, strs, name, kids);
    case NopCons(r) => FindChildReplaces(AfterNop(s), r, strs, name, kids);
    case NodeCons(n, p, k, r) =>
      if !NameMatch(n, name) {
        FindChildReplaces(AfterNode(s, n, p, k), r, strs, name, kids);
      }
  }

  // ---------------------------------------------------------------- a node in its tree

  /** The decoded items of the node under a cursor. */
  ghost function Items(s: Spot, f: Forest, strs: seq<byte>): Tree
    requires f.NodeCons? && NamesOk(Plug(s, f), strs)
  {
    DecodePlug(s, f, strs);
    Decode(f.kids, strs)
  }

  /** The whole tree with the items of the node under the cursor exchanged for `kids`. */
  ghost function WithItems(s: Spot, f: Forest, strs: seq<byte>, kids: Tree): Tree
    requires f.NodeCons? && NamesOk(Plug(s, f), strs)
  {
    DecodePlug(s, f, strs);
    Graft(PlaceOf(s, strs), TNode(f.name, kids, Decode(f.rest, strs)))
  }

  lemma ItemsDecode(s: Spot, f: Forest, strs: seq<byte>)
    requires f.NodeCons? && NamesOk(Plug(s, f), strs)
    ensures NamesOk(f.kids, strs) && NamesOk(f.rest, strs) && Items(s, f, strs) == Decode(f.kids, strs)
  {
    DecodePlug(s, f, strs);
  }

  /** The whole tree with everything from the cursor on exchanged for `t`. */
  ghost function WithTail(s: Spot, f: Forest, strs: seq<byte>, t: Tree): Tree
    requires NamesOk(Plug(s, f), strs)
  {
    DecodePlug(s, f, strs);
    Graft(PlaceOf(s, strs), t)
  }

  /** New raw items that decode to `t` put `t` in the place of the old items, and change nothing else. */
  lemma ItemsReplaced(s: Spot, f: Forest, strs: seq<byte>, kids: Forest, more: seq<byte>, t: Tree)
    requires f.NodeCons? && NamesOk(Plug(s, f), strs) && strs <= more
    requires NamesOk(kids, more) && Decode(kids, more) == t
    ensures var g := NodeCons(f.name, f.npad, kids, f.rest);
      NamesOk(Plug(s, g), more) && Decode(Plug(s, g), more) == WithItems(s, f, strs, t)
  {
    hide Plug;
    var g := NodeCons(f.name, f.npad, kids, f.rest);
    DecodePlug(s, f, strs);
    PlaceMoreStrings(s, strs, more);
    DecodeMoreStrings(f.rest, strs, more);
    DecodePlug(s, g, more);
  }
}
