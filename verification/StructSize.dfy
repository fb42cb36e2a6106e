/** fdt/fdt_rw.c: the size of a structure block whose header does not say it. */
module StructSizes {
  import opened Bytes
  import opened Tokens
  import opened Loops
  import opened Scans
  import opened Blobs
  import opened Checks
  import opened Fdt

  /** How the loop over the tokens of a version 16 block ends. */
  datatype BlockSize = Size(n: nat) | Bad(err: int) | Endless

  /** The loop from the token at `s`. */
  function BlockEnd(area: seq<byte>, s: nat): (r: BlockSize)
    requires s % 4 == 0
    ensures r.Size? ==> s < r.n <= |area|
    ensures r.Bad? ==> r.err < 0
    decreases |area| + 4 - s
  {
    NextTagMoves(area, s);
    var (tag, next) := NextTagAt(area, s);
    if tag == FDT_END then
      if next >= 0 then EndFits(area, s); Size(next) else Bad(next)
    else if next == s then Endless
    else BlockEnd(area, next)
  }

  lemma EndFits(area: seq<byte>, s: nat)
    requires s % 4 == 0 && NextTagAt(area, s).0 == FDT_END && NextTagAt(area, s).1 >= 0
    ensures NextTagAt(area, s).1 == s + 4 <= |area|
  {
    AlignShift(s, 4);
  }

  /** One turn of it. */
  function EndTurn(area: seq<byte>, s: int): Turn<int, int> {
    var (tag, next) := NextTagAt(area, s);
    if tag == FDT_END then Done(next) else Again(next)
  }

  function EndLoop(area: seq<byte>): int -> Turn<int, int> {
    (s: int) => EndTurn(area, s)
  }

  /** The loop ends exactly when the tokenizer does not stand still on the way. */
  lemma {:induction false} BlockEndEnds(area: seq<byte>, s: nat)
    requires s % 4 == 0
    ensures Ends(EndLoop(area), s) <==> !BlockEnd(area, s).Endless?
    decreases |area| + 4 - s
  {
    hide NextTagAt, Ends;
    NextTagMoves(area, s);
    var (tag, next) := NextTagAt(area, s);
    EndsTurn(EndLoop(area), s);
    if tag != FDT_END {
      if next == s {
        Loops.Spins(EndLoop(area), s);
      } else {
        BlockEndEnds(area, next);
      }
    }
  }

  /** Of an encoded block it finds the size. */
  lemma {:induction false} EncodedEnd(area: seq<byte>, toks: seq<Token>, k: nat)
    requires AllValid(toks + [End]) && End !in toks && Enc(toks + [End]) <= area && k <= |toks| && AllValid(toks[..k])
    ensures |Enc(toks[..k])| % 4 == 0 && BlockEnd(area, |Enc(toks[..k])|) == Size(|Enc(toks + [End])|)
    decreases |toks| - k
  {
    hide Enc, NextTagAt;
    EncAligned(toks[..k]);
    TokenIn(area, toks, k);
    if k < |toks| {
      var t := toks[k];
      assert t in toks;
      assert toks[..k + 1] == toks[..k] + [t];
      EncAround(toks[..k], t, []);
      EncodedEnd(area, toks, k + 1);
    } else {
      assert toks[..k] == toks;
      EncAround(toks, End, []);
    }
  }

  /** And when it finds a size and no length word wraps around, the block encodes tokens up to the first END. */
  lemma {:induction false} EndEncodes(area: seq<byte>, done: seq<Token>)
    requires AllValid(done) && End !in done && Enc(done) <= area && |area| <= INT_MAX && |Enc(done)| % 4 == 0
    requires BlockEnd(area, |Enc(done)|).Size? && LengthsFit(area, |Enc(done)|)
    ensures exists toks ::
      End !in toks && AllValid(toks + [End]) && Enc(toks + [End]) == area[..BlockEnd(area, |Enc(done)|).n]
    decreases |area| - |Enc(done)|
  {
    hide Enc, NextTagAt, TokenAt, LengthFits;
    var s := |Enc(done)|;
    NextTagMoves(area, s);
    var (tag, next) := NextTagAt(area, s);
    ReadOne(area, done);
    var t := TokenAt(area, s);
    if tag == FDT_END {
      assert t == End;
      assert Enc(done + [End]) == area[..next];
    } else {
      assert t != End;
      EndEncodes(area, done + [t]);
    }
  }

  /** The loop itself. */
  method StructSize(b: seq<byte>) returns (struct_size: int)
    requires AreaIn(b) && !BlockEnd(AreaOf(b), 0).Endless?
    ensures match BlockEnd(AreaOf(b), 0)
            case Size(n) => struct_size == n
            case Bad(err) => struct_size == err
            case Endless => true
  {
    hide Hdr, NextTagAt, AreaOf;
    ghost var area := AreaOf(b);
    AreaFits(b);
    struct_size := 0;
    while true
      invariant 0 <= struct_size <= |area| + 3 && struct_size % 4 == 0
      invariant BlockEnd(area, struct_size) == BlockEnd(area, 0)
      decreases |area| + 4 - struct_size
    {
      NextTagMoves(area, struct_size);
      var tag;
      tag, struct_size := NextTag(b, struct_size);
      if tag == FDT_END {
        return;
      }
    }
  }
}
