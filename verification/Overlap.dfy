/** fdt/fdt_rw.c: `fdt_pack` and a reservation list that does not end in front of the structure block. */
module Overlaps {
  import opened Bytes
  import opened Tokens
  import opened Forests
  import opened Trees
  import opened Blobs
  import opened Checks
  import opened Repacks
  import opened Layouts
  import opened SwLayouts
  import opened Edits
  import opened FdtRw
  import opened FdtMemRsv
  import opened FdtPack

  /** An `int` handed to `memmove` as a length. */
  function SizeT(n: int): nat { n % 0x1_0000_0000_0000_0000 }

  /** A nonempty move to `dst` that does not end inside a buffer of `size` bytes. */
  predicate Outside(dst: int, n: nat, size: nat) { n > 0 && dst + n > size }

  /** `fdt_pack` stays inside its buffer exactly when the list is terminated and there is room for the image. */
  lemma PackStrays(b: seq<byte>)
    requires Sound(b) && |b| < INT_MAX
    ensures var h, m := Hdr(b), ListSize(b);
      !Packable(b) <==>
        || Outside(HEADER_SIZE, SizeT(m), |b|)
        || Outside(HEADER_SIZE + m, h.sizeStruct, |b|)
        || Outside(HEADER_SIZE + m + h.sizeStruct, h.sizeStrings, |b|)
  {
    hide Hdr, RsvCount;
    if RsvCount(b, 0).None? {
      assert SizeT(ListSize(b)) == 0x1_0000_0000_0000_0000 - 112;
    } else {
      CountFits(b, 0);
      assert SizeT(ListSize(b)) == ListSize(b) == RsvSize(b);
    }
  }

  // ---------------------------------------------------------------- two blobs that the probe accepts

  lemma WordsOf(ws: seq<u32>, b: seq<byte>)
    requires Words(ws) <= b && |ws| >= 10
    ensures |b| >= 4 * |ws| && forall k :: 0 <= k < |ws| ==> Word(b, k) == ws[k]
    ensures Hdr(b) == Header(ws[0], ws[1], ws[2], ws[3], ws[4], ws[5], ws[6], ws[7], ws[8], ws[9])
  {
    hide Dec32, Words;
    forall k | 0 <= k < |ws| ensures Word(b, k) == ws[k] {
      WordsAt(ws, k);
      assert b[4 * k..4 * k + 4] == Words(ws)[4 * k..4 * k + 4];
      DecSlice(b, 4 * k, Words(ws), 4 * k);
    }
  }

  lemma ListOf(ws: seq<u32>, b: seq<byte>, n: nat)
    requires |b| >= 4 * |ws| > 16 * n + 52 && forall k :: 0 <= k < |ws| ==> Word(b, k) == ws[k]
    requires Sized(b) && Hdr(b).offRsv == 40 && 40 + 16 * (n + 1) <= Hdr(b).totalsize
    requires forall k :: 0 <= k < n ==> ws[4 * k + 12] != 0 || ws[4 * k + 13] != 0
    requires ws[4 * n + 12] == 0 && ws[4 * n + 13] == 0
    ensures RsvCount(b, 0) == Some(n)
  {
    hide Hdr, Dec32, RsvCount;
    forall k | 0 <= k <= n ensures Entry(b, 40 + 16 * k).size == 0 <==> k == n {
      assert Word(b, 4 * k + 12) == ws[4 * k + 12] && Word(b, 4 * k + 13) == ws[4 * k + 13];
    }
    CountIs(b, 0, n);
  }

  /** The structure block is taken for two reservations, and the image of this blob is longer than the blob. */
  lemma GrowsPastItsEnd()
    ensures exists b ::
      && Sound(b) && |b| == Hdr(b).totalsize == 88 && RwProbe(Hdr(b)) == 0
      && RsvCount(b, 0) == Some(2) && PackedSize(Hdr(b), RsvSize(b)) == 120 && !Packable(b)
  {
    hide Hdr, Dec32, RsvCount, Word, Words;
    var ws: seq<u32> := [FDT_MAGIC, 88, 56, 72, 40, 17, 16, 0, 16, 16, 0, 0, 0, 1, FDT_BEGIN_NODE, 0, FDT_END_NODE,
      FDT_END, 0, 0, 0, 0];
    var b := Words(ws);
    WordsOf(ws, b);
    assert Sound(b);
    ListOf(ws, b, 2);
    assert RsvSize(b) == 48;
  }

  /** The structure block of this blob is taken for two reservations; adding a third one replaces the block. */
  lemma ReplacesTree()
    ensures exists b ::
      && Sound(b) && RwProbe(Hdr(b)) == 0 && RsvCount(b, 0) == Some(2) && SpliceError(Hdr(b), RsvEnd(b), 0, 16) == 0
      && forall r :: Sound(RsvAdded(b, r)) && StructOf(RsvAdded(b, r)) == Enc64(r.address) + Enc64(r.size)
  {
    hide Hdr, Dec32, RsvCount, Word, Words, RsvAdded, StructOf;
    var ws: seq<u32> := [FDT_MAGIC, 104, 56, 72, 40, 17, 16, 0, 16, 16, 0, 0, 0, 1, FDT_BEGIN_NODE, 0, FDT_END_NODE,
      FDT_END, 0, 0, 0, 0, 0, 0, 0, 0];
    var b := Words(ws);
    WordsOf(ws, b);
    ListOf(ws, b, 2);
    forall r ensures Sound(RsvAdded(b, r)) && StructOf(RsvAdded(b, r)) == Enc64(r.address) + Enc64(r.size) {
      EntryOverTree(b, r);
    }
  }

  lemma EntryOverTree(b: seq<byte>, r: Rsv)
    requires Sound(b) && |b| == 104 && Hdr(b) == Header(FDT_MAGIC, 104, 56, 72, 40, 17, 16, 0, 16, 16)
      && RsvCount(b, 0) == Some(2)
    ensures Sound(RsvAdded(b, r)) && StructOf(RsvAdded(b, r)) == Enc64(r.address) + Enc64(r.size)
  {
    hide Hdr, RsvCount, RsvAdded, Enc64;
    var c := RsvAdded(b, r);
    RsvAddedBytes(b, r);
    assert c[72..88] == Enc64(r.address) + Enc64(r.size);
  }

  // ---------------------------------------------------------------- two removals

  /** Tokens of a single word. */
  lemma {:induction false} TagWords(ts: seq<Token>, ws: seq<u32>)
    requires |ts| == |ws|
    requires forall k :: 0 <= k < |ts| ==> (ts[k].Nop? || ts[k].EndNode? || ts[k].End?) && ts[k].Tag() == ws[k]
    ensures AllValid(ts) && Enc(ts) == Words(ws)
  {
    hide Enc32;
    if ts != [] {
      TagWords(ts[1..], ws[1..]);
      assert ts == [ts[0]] + ts[1..];
      assert ts[0].Bytes() == Enc32(ws[0]);
    }
  }

  /** A tree that is a root with an empty name and nothing but NOPs in it. */
  function Nops(n: nat): Forest { if n == 0 then Nil else NopCons(Nops(n - 1)) }

  function Root(n: nat): Forest { NodeCons([], [0, 0, 0], Nops(n), Nil) }

  function NopTokens(n: nat): (ts: seq<Token>)
    ensures |ts| == n && forall t :: t in ts ==> t == Nop
  {
    seq(n, _ => Nop)
  }

  lemma {:induction false} NopsFlat(n: nat)
    ensures Flat(Nops(n)) == NopTokens(n)
  {
    if n > 0 {
      NopsFlat(n - 1);
    }
  }

  lemma RootTokens(n: nat)
    ensures Block(Root(n)) == [BeginNode([], [0, 0, 0])] + (NopTokens(n) + [EndNode, End])
  {
    NopsFlat(n);
    assert Flat(Root(n)) == [BeginNode([], [0, 0, 0])] + NopTokens(n) + [EndNode] + [];
  }

  lemma NoWords()
    ensures Words([]) == []
  {
  }

  lemma WordsFirst(w: u32, ws: seq<u32>)
    ensures Words([w] + ws) == Enc32(w) + Words(ws)
  {
    hide Enc32;
    assert ([w] + ws)[1..] == ws;
  }

  lemma {:induction false} WordsConcat(us: seq<u32>, ws: seq<u32>)
    ensures Words(us + ws) == Words(us) + Words(ws)
  {
    hide Enc32, Words;
    NoWords();
    if us == [] {
      assert us + ws == ws;
    } else {
      var u, rest := us[0], us[1..];
      WordsConcat(rest, ws);
      WordsFirst(u, rest);
      WordsFirst(u, rest + ws);
      assert us == [u] + rest && us + ws == [u] + (rest + ws);
      Assoc3(Enc32(u), Words(rest), Words(ws));
    }
  }

  lemma WordsMiddle(a: seq<u32>, x: seq<u32>, z: seq<u32>)
    ensures Words(a + x + z)[4 * |a|..4 * |a| + 4 * |x|] == Words(x)
  {
    hide Words;
    WordsConcat(a, x);
    WordsConcat(a + x, z);
    Middle(Words(a + x + z), Words(a), Words(x), Words(z));
  }

  lemma RootFirst(ts: seq<Token>, ws: seq<u32>)
    requires AllValid(ts) && Enc(ts) == Words(ws)
    ensures var t := [BeginNode([], [0, 0, 0])] + ts; AllValid(t) && Enc(t) == Words([FDT_BEGIN_NODE, 0] + ws)
  {
    hide Enc32, Words, Enc, AllValid;
    var t := BeginNode([], [0, 0, 0]);
    FourZeros();
    assert t.Bytes() == Enc32(FDT_BEGIN_NODE) + Enc32(0);
    EncFirst(t, ts);
    WordsFirst(FDT_BEGIN_NODE, [0] + ws);
    WordsFirst(0, ws);
    assert [FDT_BEGIN_NODE, 0] + ws == [FDT_BEGIN_NODE] + ([0] + ws);
    Assoc3(Enc32(FDT_BEGIN_NODE), Enc32(0), Words(ws));
  }

  /** Its encoding. */
  lemma RootWords(n: nat, ws: seq<u32>)
    requires |ws| == n + 2 && ws[n] == FDT_END_NODE && ws[n + 1] == FDT_END && forall k :: 0 <= k < n ==>
      ws[k] == FDT_NOP
    ensures AllValid(Block(Root(n))) && Enc(Block(Root(n))) == Words([FDT_BEGIN_NODE, 0] + ws)
  {
    hide Words, Root, Enc, Block;
    var ts := NopTokens(n) + [EndNode, End];
    TagWords(ts, ws);
    RootTokens(n);
    RootFirst(ts, ws);
  }

  /** A list with a single entry: without it the blob is the same tree, but the probe refuses it. */
  lemma RefusedWithoutEntry()
    ensures exists b, t ::
      && Editable(b, t) && Removable(b, 0) && RsvCount(b, 0) == Some(1)
      && var c := RsvSpliced(b, Hdr(b).offRsv, 16, 0);
         KeepsBlocks(b, c) && LosesEntry(b, c, 0) && RwProbe(Hdr(c)) == -BADLAYOUT
  {
    hide Hdr, Dec32, Enc32, Enc, RsvCount, Word, Words, StructOf, StringsOf, RsvSpliced, LosesEntry, Root;
    var ws: seq<u32> := [FDT_MAGIC, 88, 70, 86, 40, 17, 16, 0, 0, 16, 0, 0, 0, 1, 0, 0, 0, 0];
    ShortRoot();
    NoNames(0, []);
    var x := Enc(Block(Root(0)));
    var b := Words(ws) + x[2..] + [0, 0];
    WordsOf(ws, b);
    ListOf(ws, b, 1);
    ShiftedBlock(ws, b, x);
    RsvRemovedParts(b, 0);
    assert Editable(b, Root(0)) && Removable(b, 0);
  }

  /** The last two bytes of the terminator are the first two of the structure block. */
  lemma ShiftedBlock(ws: seq<u32>, b: seq<byte>, x: seq<byte>)
    requires |ws| == 18 && ws[17] == 0 && |x| == 16 && x[0] == 0 == x[1] && b == Words(ws) + x[2..] + [0, 0]
    requires Sound(b) && Hdr(b) == Header(FDT_MAGIC, 88, 70, 86, 40, 17, 16, 0, 0, 16)
    ensures StructOf(b) == x && StringsOf(b) == []
  {
    hide Hdr, Words;
    WordsAt(ws, 17);
    assert Words(ws)[68..72] == [0, 0, 0, 0];
    assert b[70] == Words(ws)[68..72][2] && b[71] == Words(ws)[68..72][3];
    assert b[70..86] == x;
  }

  lemma ShortRoot()
    ensures AllValid(Block(Root(0)))
    ensures var x := Enc(Block(Root(0))); |x| == 16 && x[0] == 0 == x[1]
  {
    hide Enc, Root, Words, Enc32;
    RootWords(0, [FDT_END_NODE, FDT_END]);
    var ws := [FDT_BEGIN_NODE, 0] + [FDT_END_NODE, FDT_END];
    WordsAt(ws, 0);
    assert ws[0] == FDT_BEGIN_NODE && Enc32(FDT_BEGIN_NODE) == [0, 0, 0, 1] by { One(); }
    assert Words(ws)[0] == Words(ws)[0..4][0] && Words(ws)[1] == Words(ws)[0..4][1];
  }

  lemma One()
    ensures Enc32(1) == [0, 0, 0, 1]
  {
  }

  /** Thirty words: the list starts at 40, the structure block at 72, the strings at 104. */
  function FourEntries(): seq<u32> {
    [FDT_MAGIC, 120, 72, 104, 40, 17, 16, 0, 16, 32, 0, 0, 0, 1, 0, 0, 0, 1] + NopWords() + [0, 0, 0, 0]
  }

  function NopWords(): seq<u32> {
    [FDT_BEGIN_NODE, 0] + [FDT_NOP, FDT_NOP, FDT_NOP, FDT_NOP, FDT_END_NODE, FDT_END]
  }

  lemma FourEntriesHeader(b: seq<byte>)
    requires b == Words(FourEntries())
    ensures Sound(b) && Hdr(b) == Header(FDT_MAGIC, 120, 72, 104, 40, 17, 16, 0, 16, 32) && RsvCount(b, 0) == Some(4)
  {
    hide Hdr, Dec32, RsvCount, Word, Words;
    WordsOf(FourEntries(), b);
    assert Sound(b);
    ListOf(FourEntries(), b, 4);
  }

  /** Four entries, the last two of which are also in the structure block: without the last one no tree is left. */
  lemma RemovesTree()
    ensures exists b, t ::
      && Editable(b, t) && Removable(b, 3) && RsvCount(b, 0) == Some(4)
      && var c := RsvSpliced(b, Hdr(b).offRsv + 48, 16, 0);
         Sound(c) && RwProbe(Hdr(c)) == 0 && |StructOf(c)| == 32 && Dec32(StructOf(c), 0) == 0
  {
    hide Hdr, Dec32, Enc32, Enc, RsvCount, Word, Words, StructOf, StringsOf, RsvSpliced, Root;
    var b := Words(FourEntries());
    FourEntriesHeader(b);
    NopBlock(b);
    RemovedBlock(FourEntries(), b);
    assert Editable(b, Root(4)) && Removable(b, 3);
  }

  lemma NopBlock(b: seq<byte>)
    requires b == Words(FourEntries()) && Sound(b) && Hdr(b).offStruct == 72 && Hdr(b).sizeStruct == 32
    ensures AllValid(Block(Root(4))) && StructOf(b) == Enc(Block(Root(4))) && NamesOk(Root(4), StringsOf(b))
  {
    hide Hdr, Words, Enc, Root, StringsOf;
    WordsMiddle([FDT_MAGIC, 120, 72, 104, 40, 17, 16, 0, 16, 32, 0, 0, 0, 1, 0, 0, 0, 1], NopWords(), [0, 0, 0, 0]);
    RootWords(4, [FDT_NOP, FDT_NOP, FDT_NOP, FDT_NOP, FDT_END_NODE, FDT_END]);
    NoNames(4, StringsOf(b));
  }

  lemma {:induction false} NopNames(n: nat, strs: seq<byte>)
    ensures NamesOk(Nops(n), strs)
  {
    if n > 0 {
      NopNames(n - 1, strs);
    }
  }

  lemma NoNames(n: nat, strs: seq<byte>)
    ensures NamesOk(Root(n), strs)
  {
    NopNames(n, strs);
  }

  lemma RemovedBlock(ws: seq<u32>, b: seq<byte>)
    requires |ws| == 30 && b == Words(ws) && ws[14] == 0 && Sound(b) && RsvCount(b, 0) == Some(4)
    requires Hdr(b) == Header(FDT_MAGIC, 120, 72, 104, 40, 17, 16, 0, 16, 32)
    ensures var c := RsvSpliced(b, Hdr(b).offRsv + 48, 16, 0);
      Sound(c) && RwProbe(Hdr(c)) == 0 && |StructOf(c)| == 32 && Dec32(StructOf(c), 0) == 0
  {
    hide Hdr, Words, Dec32, RsvCount, RsvSpliced;
    var c := RsvSpliced(b, 88, 16, 0);
    RsvSplicedParts(b, 88, 16, 0);
    WordsAt(ws, 14);
    assert c[56..60] == b[56..60];
    assert StructOf(c)[0..4] == c[56..60];
    DecSlice(StructOf(c), 0, b, 56);
  }

  // ---------------------------------------------------------------- a move over another block

  /** Forty words: the list starts at 40, the structure block at 56 and the strings at 88. */
  function LossyWords(): seq<u32> { seq(40, k => LossyWord(k)) }

  function LossyWord(k: int): u32 {
    match k
    case 0 => FDT_MAGIC case 1 => 160 case 2 => 56 case 3 => 88
    case 4 => 40 case 5 => 17 case 6 => 16 case 8 => 24
    case 9 => 32 case 13 => 1 case 14 => FDT_BEGIN_NODE case 16 => FDT_NOP
    case 17 => FDT_PROP case 19 => 16 case 20 => FDT_END_NODE case 21 => FDT_END
    case 22 => 0x6100_0000 case 26 => 0x6200_0000
    case _ => 0
  }

  function LossyTokens(): seq<Token> {
    [BeginNode([], [0, 0, 0]), Nop, Prop(16, [], []), EndNode, End]
  }

  /**
   The list also covers the structure block and half of the strings. There is room for the image of this
   blob, but the structure block is moved onto the name of its only property before the name is moved.
   */
  lemma LosesName()
    ensures exists b ::
      && Packable(b) && |b| == Hdr(b).totalsize && RwProbe(Hdr(b)) == 0 && !PackSafe(Hdr(b), RsvSize(b))
      && AllValid(LossyTokens()) && StructOf(b) == Enc(LossyTokens()) && StrAt(StringsOf(b), 16) == Some([0x62])
      && Sound(Packed(b)) && StructOf(Packed(b)) == StructOf(b) && StrAt(StringsOf(Packed(b)), 16) == Some([])
  {
    hide Hdr, Dec32, Enc32, Enc, Packed, StructOf, StringsOf, StrAt, LossyWords, RsvCount, PackSafe;
    var b := Words(LossyWords());
    LossyHeader(b);
    LossyBlocks(b);
    LossyImage(b);
  }

  lemma LossyValues()
    ensures var ws := LossyWords();
      && |ws| == 40 && ws[0] == FDT_MAGIC && ws[1] == 160 && ws[2] == 56 && ws[3] == 88 && ws[4] == 40
      && ws[5] == 17 && ws[6] == 16 && ws[7] == 0 && ws[8] == 24 && ws[9] == 32
      && ws[12] == 0 && ws[13] == 1 && ws[14] == FDT_BEGIN_NODE && ws[15] == 0 && ws[16] == FDT_NOP
        && ws[17] == FDT_PROP
      && ws[18] == 0 && ws[19] == 16 && ws[20] == FDT_END_NODE && ws[21] == FDT_END && ws[24] == 0 && ws[25] == 0
        && ws[26] == 0x6200_0000
  {
  }

  lemma LossyHeader(b: seq<byte>)
    requires b == Words(LossyWords())
    ensures Hdr(b) == Header(FDT_MAGIC, 160, 56, 88, 40, 17, 16, 0, 24, 32) && |b| == 160
    ensures RsvCount(b, 0) == Some(3) && RsvSize(b) == 64 && Packable(b) && RwProbe(Hdr(b)) == 0
      && !PackSafe(Hdr(b), 64)
  {
    hide Hdr, Dec32, RsvCount, Word, Words, LossyWords, LossyWord;
    var ws := LossyWords();
    LossyValues();
    WordsOf(ws, b);
    assert Sound(b);
    ListOf(ws, b, 3);
  }

  lemma LossyBlocks(b: seq<byte>)
    requires b == Words(LossyWords()) && |b| == 160 && Sound(b)
      && Hdr(b) == Header(FDT_MAGIC, 160, 56, 88, 40, 17, 16, 0, 24, 32)
    ensures b[56] == 0 && AllValid(LossyTokens()) && StructOf(b) == Enc(LossyTokens())
      && StrAt(StringsOf(b), 16) == Some([0x62])
  {
    hide Hdr, StrAt, Enc32, Enc, Words;
    LossySlices(b);
    LossyDigits();
    assert b[56..60][0] == b[56];
    assert b[104] == b[104..108][0] && b[105] == b[104..108][1];
    assert StringsOf(b)[16..18] == [0x62] + [0];
    StrAtIs(StringsOf(b), 16, [0x62]);
    LossyEncoded();
    assert b[56..88] == b[56..60] + b[60..64] + b[64..68] + b[68..72] + b[72..76] + b[76..80] + b[80..84] + b[84..88];
  }

  lemma LossySlices(b: seq<byte>)
    requires b == Words(LossyWords()) && |b| == 160
    ensures b[56..60] == Enc32(FDT_BEGIN_NODE) && b[60..64] == Enc32(0) && b[64..68] == Enc32(FDT_NOP)
      && b[68..72] == Enc32(FDT_PROP)
    ensures b[72..76] == Enc32(0) && b[76..80] == Enc32(16) && b[80..84] == Enc32(FDT_END_NODE)
      && b[84..88] == Enc32(FDT_END)
    ensures b[104..108] == Enc32(0x6200_0000)
  {
    hide Enc32, Words, LossyWords, LossyWord, Dec32;
    var ws := LossyWords();
    LossyValues();
    WordsAt(ws, 14);
    WordsAt(ws, 15);
    WordsAt(ws, 16);
    WordsAt(ws, 17);
    WordsAt(ws, 18);
    WordsAt(ws, 19);
    WordsAt(ws, 20);
    WordsAt(ws, 21);
    WordsAt(ws, 26);
  }

  lemma LossyDigits()
    ensures Enc32(FDT_BEGIN_NODE)[0] == 0 && Enc32(0x6200_0000)[0] == 0x62 && Enc32(0x6200_0000)[1] == 0
  {
  }

  lemma LossyEncoded()
    ensures AllValid(LossyTokens())
    ensures Enc(LossyTokens())
      == Enc32(FDT_BEGIN_NODE) + Enc32(0) + Enc32(FDT_NOP) + Enc32(FDT_PROP) + Enc32(0) + Enc32(16)
                                  + Enc32(FDT_END_NODE) + Enc32(FDT_END)
  {
    hide Enc32, Enc, AllValid;
    var t, u := BeginNode([], [0, 0, 0]), [Prop(16, [], []), EndNode, End];
    FourZeros();
    LossyTail();
    EncFirst(Nop, u);
    EncFirst(t, [Nop] + u);
    assert LossyTokens() == [t] + ([Nop] + u);
    assert t.Bytes() == Enc32(FDT_BEGIN_NODE) + Enc32(0);
  }

  lemma LossyTail()
    ensures var u := [Prop(16, [], []), EndNode, End];
      AllValid(u) && Enc(u) == Enc32(FDT_PROP) + Enc32(0) + Enc32(16) + Enc32(FDT_END_NODE) + Enc32(FDT_END)
  {
    hide Enc32, Enc, AllValid;
    var p := Prop(16, [], []);
    OnlyEnd();
    EncFirst(EndNode, [End]);
    EncFirst(p, [EndNode] + [End]);
    assert [p, EndNode, End] == [p] + ([EndNode] + [End]);
    assert p.Bytes() == Enc32(FDT_PROP) + Enc32(0) + Enc32(16);
  }

  lemma OnlyEnd()
    ensures AllValid([End]) && Enc([End]) == Enc32(FDT_END)
  {
    hide Enc32;
  }

  lemma EncFirst(t: Token, ts: seq<Token>)
    requires t.Valid() && AllValid(ts)
    ensures AllValid([t] + ts) && Enc([t] + ts) == t.Bytes() + Enc(ts)
  {
    hide Enc32;
    assert ([t] + ts)[1..] == ts;
  }

  lemma FourZeros()
    ensures Enc32(0) == [0] + [0, 0, 0]
  {
  }

  lemma LossyImage(b: seq<byte>)
    requires |b| == 160 && Packable(b) && Hdr(b) == Header(FDT_MAGIC, 160, 56, 88, 40, 17, 16, 0, 24, 32)
      && RsvSize(b) == 64 && b[56] == 0
    ensures Sound(Packed(b)) && StructOf(Packed(b)) == StructOf(b) && StrAt(StringsOf(Packed(b)), 16) == Some([])
  {
    hide Hdr, RsvCount, PackHeader, Moved, StrAt;
    var h, c := Hdr(b), Packed(b);
    PackFits(b);
    PackHeaderIs(b);
    HeaderPut(PackMoves(b, 0, 0, h, 64), PackHeader(b));
    forall i | 104 <= i < 136 || i == 152 ensures c[i] == b[if i == 152 then 56 else i - 48] {
      LossyByte(b, h, i);
    }
    LossyByte(b, h, 152);
    assert StringsOf(c)[16] == c[152] == 0;
    assert StringsOf(c)[16..17] == [] + [0];
    StrAtIs(StringsOf(c), 16, []);
  }

  /** The structure block arrives, and the first byte of the name is one of its bytes. */
  lemma LossyByte(b: seq<byte>, h: Header, i: nat)
    requires |b| == 160 && MovesFit(160, 0, 0, h, 64) && h == Header(FDT_MAGIC, 160, 56, 88, 40, 17, 16, 0, 24, 32)
    requires 104 <= i < 136 || i == 152
    ensures PackMoves(b, 0, 0, h, 64)[i] == b[if i == 152 then 56 else i - 48]
  {
    hide Moved;
    var m1 := Moved(b, 40, 40, 64);
    var m2 := Moved(m1, 104, 56, 32);
    var j := if i == 152 then 104 else i;
    MovedByte(m2, 136, 88, 24, i);
    MovedByte(m1, 104, 56, 32, j);
    MovedByte(b, 40, 40, 64, j - 48);
  }
}
