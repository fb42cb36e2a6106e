/**
 The structure block of a flattened device tree (Devicetree Specification, section 5.4):
 tokens, their byte encoding, and `fdt_next_tag` read as a function of the block.
 */
module Tokens {
  import opened Bytes

  const FDT_BEGIN_NODE: u32 := 1
  const FDT_END_NODE: u32 := 2
  const FDT_PROP: u32 := 3
  const FDT_NOP: u32 := 4
  const FDT_END: u32 := 9

  const NOTFOUND := 1
  const EXISTS := 2
  const NOSPACE := 3
  const BADOFFSET := 4
  const BADPHANDLE := 6
  const BADSTATE := 7
  const TRUNCATED := 8
  const BADMAGIC := 9
  const BADVERSION := 10
  const BADSTRUCTURE := 11
  const BADLAYOUT := 12
  const INTERNAL := 13
  const BADOVERLAY := 16
  const NOPHANDLES := 17
  const BADFLAGS := 18

  const INT_MAX := 0x7fff_ffff

  /** One token. The padding bytes carry no meaning but are part of the blob, so they are kept. */
  datatype Token =
    | BeginNode(name: seq<byte>, pad: seq<byte>)
    | EndNode
    | Prop(nameoff: u32, val: seq<byte>, pad: seq<byte>)
    | Nop
    | End
  {
    predicate Valid() {
      match this
      case BeginNode(name, pad) => NoNul(name) && |name| + 1 + |pad| == Align4(|name| + 1)
      case Prop(_, val, pad) => |val| <= INT_MAX && |val| + |pad| == Align4(|val|)
      case _ => true
    }

    function Tag(): u32 {
      match this
      case BeginNode(_, _) => FDT_BEGIN_NODE
      case EndNode => FDT_END_NODE
      case Prop(_, _, _) => FDT_PROP
      case Nop => FDT_NOP
      case End => FDT_END
    }

    function Size(): nat {
      match this
      case BeginNode(name, _) => 4 + Align4(|name| + 1)
      case Prop(_, val, _) => 12 + Align4(|val|)
      case _ => 4
    }

    function Bytes(): (b: seq<byte>)
      requires Valid()
      ensures 4 <= |b| == Size()
      ensures b[..4] == Enc32(Tag())
    {
      match this
      case BeginNode(name, pad) => Enc32(FDT_BEGIN_NODE) + name + [0] + pad
      case EndNode => Enc32(FDT_END_NODE)
      case Prop(nameoff, val, pad) => Enc32(FDT_PROP) + Enc32(|val|) + Enc32(nameoff) + val + pad
      case Nop => Enc32(FDT_NOP)
      case End => Enc32(FDT_END)
    }
  }

  ghost predicate AllValid(toks: seq<Token>) { forall t :: t in toks ==> t.Valid() }

  /** The bytes of a token sequence. */
  function Enc(toks: seq<Token>): (b: seq<byte>)
    requires AllValid(toks)
  {
    if toks == [] then [] else toks[0].Bytes() + Enc(toks[1..])
  }

  lemma SizeAligned(t: Token)
    ensures t.Size() % 4 == 0
  {
    match t
    case BeginNode(name, _) => AlignedSum(4, Align4(|name| + 1));
    case Prop(_, val, _) => AlignedSum(12, Align4(|val|));
    case _ =>
  }

  lemma {:induction false} EncAligned(toks: seq<Token>)
    requires AllValid(toks)
    ensures |Enc(toks)| % 4 == 0
  {
    if toks != [] {
      EncAligned(toks[1..]);
      SizeAligned(toks[0]);
      AlignedSum(toks[0].Size(), |Enc(toks[1..])|);
    }
  }

  lemma {:induction false} EncConcat(a: seq<Token>, b: seq<Token>)
    requires AllValid(a) && AllValid(b)
    ensures AllValid(a + b) && Enc(a + b) == Enc(a) + Enc(b)
  {
    if a == [] {
      assert a + b == b;
    } else {
      assert (a + b)[1..] == a[1..] + b;
      EncConcat(a[1..], b);
    }
  }

  lemma EncOne(t: Token)
    requires t.Valid()
    ensures AllValid([t]) && Enc([t]) == t.Bytes()
  {
    assert [t][1..] == [];
  }

  /** `a`, then `t`, then `b`: where the bytes of `t` sit. */
  lemma EncAround(a: seq<Token>, t: Token, b: seq<Token>)
    requires AllValid(a) && t.Valid() && AllValid(b)
    ensures AllValid(a + [t] + b) && Enc(a + [t] + b) == Enc(a) + t.Bytes() + Enc(b)
    ensures Enc(a + [t]) == Enc(a) + t.Bytes()
  {
    EncOne(t);
    EncConcat(a, [t]);
    EncConcat(a + [t], b);
  }

  // ---------------------------------------------------------------- fdt_next_tag

  /**
   `fdt_next_tag` on the structure block `area`: the tag at `start` and the offset of the next
   one, or a negative error. The advance over a property is computed modulo 2^32 as in the C code.
   */
  function NextTagAt(area: seq<byte>, start: int): (r: (u32, int))
  {
    if !(0 <= start && start + 4 <= |area|) then (FDT_END, -TRUNCATED)
    else
      var tag := Dec32(area, start);
      if tag == FDT_BEGIN_NODE then
        var n := NulFrom(area, start + 4);
        if n == |area| then (FDT_END, -BADSTRUCTURE) else (tag, Align4(n + 1))
      else if tag == FDT_PROP then
        if start + 8 > |area| then (FDT_END, -BADSTRUCTURE)
        else
          var span := Wrap32(12 + Dec32(area, start + 4));
          if start + span > |area| then (FDT_END, -BADSTRUCTURE) else (tag, Align4(start + span))
      else if tag == FDT_END || tag == FDT_END_NODE || tag == FDT_NOP then (tag, Align4(start + 4))
      else (FDT_END, -BADSTRUCTURE)
  }

  /** When it fails, and how, in terms of the words and bytes it meets. */
  lemma NextTagErrors(area: seq<byte>, start: int)
    ensures NextTagAt(area, start).1 == -8 <==> start < 0 || start + 4 > |area|
    ensures NextTagAt(area, start).1 == -11 <==>
      && 0 <= start && start + 4 <= |area|
      && var w := Dec32(area, start);
        || (w != 1 && w != 2 && w != 3 && w != 4 && w != 9)
        || (w == 1 && forall i :: start + 4 <= i < |area| ==> area[i] != 0)
        || (w == 3 && (start + 8 > |area| || start + (12 + Dec32(area, start + 4)) % 0x1_0000_0000 > |area|))
    ensures NextTagAt(area, start).1 < 0 ==> NextTagAt(area, start).1 in {-8, -11} && NextTagAt(area, start).0 == 9
  {
    hide Dec32;
    if 0 <= start && start + 4 <= |area| {
      var n := NulFrom(area, start + 4);
      assert n < |area| ==> area[n] == 0;
    }
  }

  /** The tags as they stand in a blob. */
  lemma KnownTags(t: Token)
    requires t.Valid()
    ensures t.Bytes() ==
      match t
      case BeginNode(name, pad) => [0, 0, 0, 1] + name + [0] + pad
      case EndNode => [0, 0, 0, 2]
      case Prop(nameoff, val, pad) => [0, 0, 0, 3] + Enc32(|val|) + Enc32(nameoff) + val + pad
      case Nop => [0, 0, 0, 4]
      case End => [0, 0, 0, 9]
  {
    SmallWord(t.Tag());
  }

  lemma SmallWord(v: u32)
    requires v < 0x100
    ensures Enc32(v) == [0, 0, 0, v]
  {
  }

  /** The length word that makes a property look as if it occupied no bytes at all. */
  const LEN_WRAPS_TO_ZERO: u32 := 0xffff_fff4

  /**
   From an aligned offset the tokenizer either fails with a negative offset or moves forward by at
   least one word inside the aligned block, exactly unless it stands on a property whose length
   word is 0xfffffff4: then twelve plus the length wraps to zero and it stays where it is.
   */
  lemma NextTagAdvances(area: seq<byte>, start: nat)
    requires start % 4 == 0
    ensures var next := NextTagAt(area, start).1;
      (next < 0 || start + 4 <= next <= Align4(|area|)) <==>
      !(start + 8 <= |area| && Dec32(area, start) == FDT_PROP && Dec32(area, start + 4) == LEN_WRAPS_TO_ZERO)
  {
    hide Dec32, Align4;
    if start + 8 <= |area| && Dec32(area, start) == FDT_PROP {
      var span := Wrap32(12 + Dec32(area, start + 4));
      AlignShift(start, span);
      AlignMono(0, span);
      AlignMono(start + span, if start + span <= |area| then |area| else start + span);
    } else if start + 4 <= |area| && Dec32(area, start) == FDT_BEGIN_NODE {
      var n := NulFrom(area, start + 4);
      AlignShift(start, n + 1 - start);
      AlignMono(n + 1, if n < |area| then |area| else n + 1);
    } else if start + 4 <= |area| {
      AlignShift(start, 4);
      AlignMono(start + 4, |area|);
    }
  }

  /** The failing family is inhabited: a sixteen-byte block on which a walk would stand still. */
  lemma NextTagCanStandStill()
    ensures exists area: seq<byte> :: |area| == 16 && NextTagAt(area, 0) == (FDT_PROP, 0)
  {
    var area: seq<byte> := Enc32(FDT_PROP) + Enc32(LEN_WRAPS_TO_ZERO) + Enc32(0) + Enc32(FDT_END);
    DecEnc(area, 0, FDT_PROP);
    DecEnc(area, 4, LEN_WRAPS_TO_ZERO);
    assert |area| == 16 && NextTagAt(area, 0) == (FDT_PROP, 0);
  }

  /** The leading tag word of an encoded token. */
  lemma TagWord(area: seq<byte>, s: nat, t: Token)
    requires t.Valid() && s + t.Size() <= |area| && area[s..s + t.Size()] == t.Bytes()
    ensures Dec32(area, s) == t.Tag()
  {
    hide Dec32, Enc32, Align4;
    SliceSlice(area, s, s + t.Size(), 0, 4);
    DecEnc(area, s, t.Tag());
  }

  lemma NextTagNode(area: seq<byte>, s: nat, t: Token)
    requires t.BeginNode? && t.Valid() && s % 4 == 0
    requires s + t.Size() <= |area| && area[s..s + t.Size()] == t.Bytes()
    ensures NextTagAt(area, s) == (FDT_BEGIN_NODE, s + t.Size())
    ensures StrAt(area, s + 4) == Some(t.name)
  {
    hide Dec32, Align4;
    var x, n, m := t.Bytes(), t.Size(), |t.name| + 1;
    TagWord(area, s, t);
    SliceSlice(area, s, s + n, 4, 4 + m);
    assert x[4..4 + m] == t.name + [0];
    StrAtIs(area, s + 4, t.name);
    NulAfter(area, s + 4, t.name);
    AlignShift(s + 4, m);
    AlignShift(4, m);
  }

  lemma PropWordsAt(area: seq<byte>, s: nat, t: Token)
    requires t.Prop? && t.Valid()
    requires s + t.Size() <= |area| && area[s..s + t.Size()] == t.Bytes()
    ensures Dec32(area, s + 4) == |t.val| && Dec32(area, s + 8) == t.nameoff
    ensures area[s + 12..s + 12 + |t.val|] == t.val
  {
    hide Dec32, Enc32, Align4;
    var n := t.Size();
    PropBytes(t);
    SliceSlice(area, s, s + n, 4, 8);
    DecEnc(area, s + 4, |t.val|);
    SliceSlice(area, s, s + n, 8, 12);
    DecEnc(area, s + 8, t.nameoff);
    SliceSlice(area, s, s + n, 12, 12 + |t.val|);
  }

  lemma NextTagProp(area: seq<byte>, s: nat, t: Token)
    requires t.Prop? && t.Valid() && s % 4 == 0
    requires s + t.Size() <= |area| && area[s..s + t.Size()] == t.Bytes()
    ensures NextTagAt(area, s) == (FDT_PROP, s + t.Size())
  {
    hide Dec32, Enc32, Align4;
    TagWord(area, s, t);
    PropWordsAt(area, s, t);
    AlignShift(s, 12 + |t.val|);
    AlignShift(12, |t.val|);
  }

  lemma PropBytes(t: Token)
    requires t.Prop? && t.Valid()
    ensures var x := t.Bytes();
      x[4..8] == Enc32(|t.val|) && x[8..12] == Enc32(t.nameoff) && x[12..12 + |t.val|] == t.val
  {
  }

  lemma NextTagWord(area: seq<byte>, s: nat, t: Token)
    requires !t.Prop? && !t.BeginNode? && s % 4 == 0
    requires s + t.Size() <= |area| && area[s..s + t.Size()] == t.Bytes()
    ensures NextTagAt(area, s) == (t.Tag(), s + 4)
  {
    hide Dec32, Enc32;
    TagWord(area, s, t);
    AlignShift(s, 4);
  }

  /** `t` is the token of `area` that follows the tokens `a`. */
  ghost predicate Follows(area: seq<byte>, a: seq<Token>, t: Token)
  {
    && AllValid(a) && t.Valid() && |Enc(a)| + t.Size() <= |area|
    && area[|Enc(a)|..|Enc(a)| + t.Size()] == t.Bytes()
  }

  /** Tokenizing an encoded token gives back its tag and lands on the next token. */
  lemma NextTagToken(area: seq<byte>, a: seq<Token>, t: Token)
    requires Follows(area, a, t)
    ensures NextTagAt(area, |Enc(a)|) == (t.Tag(), |Enc(a)| + t.Size())
    ensures AllValid(a + [t]) && |Enc(a)| + t.Size() == |Enc(a + [t])|
  {
    EncAligned(a);
    EncAround(a, t, []);
    if t.BeginNode? {
      NextTagNode(area, |Enc(a)|, t);
    } else if t.Prop? {
      NextTagProp(area, |Enc(a)|, t);
    } else {
      NextTagWord(area, |Enc(a)|, t);
    }
  }

  lemma NulAfter(s: seq<byte>, k: nat, x: seq<byte>)
    requires NoNul(x) && k + |x| + 1 <= |s| && s[k..k + |x| + 1] == x + [0]
    ensures NulFrom(s, k) == k + |x|
  {
    StrAtIs(s, k, x);
    assert |s[k..NulFrom(s, k)]| == NulFrom(s, k) - k;
  }

  /** Past the last byte the tokenizer reports a truncated block. */
  lemma NextTagPastEnd(area: seq<byte>, start: int)
    requires start > |area| - 4
    ensures NextTagAt(area, start) == (FDT_END, -TRUNCATED)
  {
  }
}
