/** What was written sequentially is what is read: `fdt_finish` against the tokenizer and `fdt_check_full`. */
module RoundTrips {
  import opened Bytes
  import opened Tokens
  import opened Forests
  import opened Trees
  import opened Blobs
  import opened Layouts
  import opened SwLayouts
  import opened Edits
  import opened Fdt
  import opened FdtSw
  import opened Checks
  import opened Repacks

  // ---------------------------------------------------------------- tokens

  /** Event `i` is read back at the offset where the tokens before it end. */
  lemma EventReadBack(b: seq<byte>, rsv: seq<Rsv>, toks: seq<Token>, log: seq<Event>, i: nat)
    requires Finished(b, rsv, toks, log) && i < |log|
    ensures AllValid(toks[..i]) && toks[i].Valid()
    ensures var area, s := StructOf(b), |Enc(toks[..i])|; var next := |Enc(toks[..i])| + toks[i].Size();
      && next == |Enc(toks[..i + 1])| <= |area|
      && NextTagAt(area, s).1 == next
      && (match log[i]
          case BeginEv(name) => NextTagAt(area, s).0 == FDT_BEGIN_NODE && StrAt(area, s + 4) == Some(name)
          case EndEv => NextTagAt(area, s).0 == FDT_END_NODE
          case PropEv(name, val) =>
            && NextTagAt(area, s).0 == FDT_PROP && s + 12 + |val| <= |area|
            && Dec32(area, s + 4) == |val| && area[s + 12..s + 12 + |val|] == val
            && StrAt(StringsOf(b), Dec32(area, s + 8)) == Some(name))
  {
    hide Hdr, Enc, NextTagAt, Dec32, StructOf, StringsOf, Align4, Enc32, StrAt;
    TokensReadBack(b, toks, i);
    var area, s, t := StructOf(b), |Enc(toks[..i])|, toks[i];
    EncAligned(toks[..i]);
    assert Records(t, log[i], StringsOf(b), 0);
    if t.BeginNode? {
      NextTagNode(area, s, t);
    } else if t.Prop? {
      PropWordsAt(area, s, t);
    }
  }

  lemma TokensReadBack(b: seq<byte>, toks: seq<Token>, i: nat)
    requires Sound(b) && AllValid(toks + [End]) && StructOf(b) == Enc(toks + [End]) && i < |toks|
    ensures AllValid(toks[..i]) && toks[i].Valid() && Follows(StructOf(b), toks[..i], toks[i])
    ensures NextTagAt(StructOf(b), |Enc(toks[..i])|) == (toks[i].Tag(), |Enc(toks[..i])| + toks[i].Size())
    ensures AllValid(toks[..i + 1]) && |Enc(toks[..i + 1])| == |Enc(toks[..i])| + toks[i].Size() <= |StructOf(b)|
  {
    hide Hdr, Enc, NextTagAt, StructOf, Follows;
    var m := toks + [End];
    var rest := toks[i + 1..] + [End];
    assert m == toks[..i] + [toks[i]] + rest;
    assert forall u :: u in toks[..i] || u in rest || u == toks[i] ==> u in m;
    FollowsAt(StructOf(b), toks[..i], toks[i], rest);
    NextTagToken(StructOf(b), toks[..i], toks[i]);
    assert toks[..i + 1] == toks[..i] + [toks[i]];
  }

  // ---------------------------------------------------------------- nesting

  /** Open nodes after the calls, or None when `fdt_end_node` was called with none open. */
  function LogDepth(log: seq<Event>): Option<nat> {
    if log == [] then Some(0)
    else
      match LogDepth(log[..|log| - 1])
      case None => None
      case Some(d) =>
        match log[|log| - 1]
        case BeginEv(_) => Some(d + 1)
        case EndEv => if d == 0 then None else Some(d - 1)
        case PropEv(_, _) => Some(d)
  }

  lemma {:induction false} DepthsAgree(toks: seq<Token>, log: seq<Event>, names: seq<byte>, shift: int)
    requires RecordsAll(toks, log, names, shift)
    ensures DepthAfter(toks) == LogDepth(log)
  {
    if toks != [] {
      var n := |toks| - 1;
      assert Records(toks[n], log[n], names, shift);
      DepthsAgree(toks[..n], log[..n], names, shift);
    }
  }

  /** Two readings of one structure block that contain no END are the same. */
  lemma {:induction false} SameReading(area: seq<byte>, v: seq<Token>, w: seq<Token>, k: nat)
    requires AllValid(v + [End]) && AllValid(w + [End]) && End !in v && End !in w
    requires Enc(v + [End]) <= area && Enc(w + [End]) <= area
    requires k <= |v| && k <= |w| && v[..k] == w[..k]
    ensures v == w
    decreases |v| - k
  {
    hide Enc, NextTagAt;
    var t, u := (v + [End])[k], (w + [End])[k];
    TokenIn(area, v, k);
    TokenIn(area, w, k);
    TokenUnique(t, u);
    if t == End {
      assert |v| == k && |w| == k;
    } else {
      assert v[..k + 1] == v[..k] + [t] && w[..k + 1] == w[..k] + [u];
      SameReading(area, v, w, k + 1);
    }
  }

  // ---------------------------------------------------------------- reservations

  /** Index of the first entry of size zero. */
  function FirstEmpty(rs: seq<Rsv>, i: nat): Option<nat>
    decreases |rs| - i
  {
    if i >= |rs| then None else if rs[i].size == 0 then Some(i) else FirstEmpty(rs, i + 1)
  }

  /** Entry `i` of the reservation block. */
  lemma {:induction false} RsvAt(rs: seq<Rsv>, i: nat)
    requires i < |rs|
    ensures EncRsv(rs)[16 * i..16 * i + 16] == Enc64(rs[i].address) + Enc64(rs[i].size)
    decreases |rs|
  {
    hide Enc64;
    var n := |rs| - 1;
    var x := Enc64(rs[n].address) + Enc64(rs[n].size);
    if i == n {
      assert EncRsv(rs)[16 * i..16 * i + 16] == x;
    } else {
      RsvAt(rs[..n], i);
      assert EncRsv(rs)[16 * i..16 * i + 16] == EncRsv(rs[..n])[16 * i..16 * i + 16];
    }
  }

  /** The sixteen bytes of an entry are read as that entry. */
  lemma EntryWritten(c: seq<byte>, q: nat, r: Rsv)
    requires q + 16 <= |c| && c[q..q + 16] == Enc64(r.address) + Enc64(r.size)
    ensures Entry(c, q) == r
  {
    hide Enc32, Dec32;
    var x := Enc64(r.address) + Enc64(r.size);
    Quarter(c, q, x, 0);
    Quarter(c, q, x, 4);
    Quarter(c, q, x, 8);
    Quarter(c, q, x, 12);
    DecEnc(c, q, r.address / 0x1_0000_0000);
    DecEnc(c, q + 4, r.address % 0x1_0000_0000);
    DecEnc(c, q + 8, r.size / 0x1_0000_0000);
    DecEnc(c, q + 12, r.size % 0x1_0000_0000);
  }

  /** Reading an entry back. */
  lemma RsvReadBack(b: seq<byte>, rsv: seq<Rsv>, toks: seq<Token>, log: seq<Event>, i: nat)
    requires Finished(b, rsv, toks, log) && i < |rsv|
    ensures var at := Hdr(b).offRsv + 16 * i;
      at + 16 <= Hdr(b).totalsize && Entry(b, at) == rsv[i]
  {
    hide Hdr, Enc, Enc64, Entry;
    var h := Hdr(b);
    RsvAt(rsv, i);
    assert |RsvOf(b)| == 16 * |rsv|;
    SliceSlice(b, h.offRsv, h.offStruct, 16 * i, 16 * i + 16);
    EntryWritten(b, h.offRsv + 16 * i, rsv[i]);
  }

  lemma Quarter(b: seq<byte>, at: nat, x: seq<byte>, k: nat)
    requires |x| == 16 && at + 16 <= |b| && b[at..at + 16] == x && k + 4 <= 16
    ensures b[at + k..at + k + 4] == x[k..k + 4]
  {
    SliceSlice(b, at, at + 16, k, k + 4);
  }

  /** `fdt_num_mem_rsv` stops at the first entry of size zero that was added. */
  lemma {:induction false} RsvCounted(b: seq<byte>, rsv: seq<Rsv>, toks: seq<Token>, log: seq<Event>, i: nat)
    requires Finished(b, rsv, toks, log) && i <= |rsv| && FirstEmpty(rsv, i).Some?
    ensures RsvCount(b, i) == FirstEmpty(rsv, i)
    decreases |rsv| - i
  {
    hide Hdr, Dec32, Enc, EncRsv;
    RsvReadBack(b, rsv, toks, log, i);
    if rsv[i].size != 0 {
      RsvCounted(b, rsv, toks, log, i + 1);
    }
  }

  lemma {:induction false} LastIsEmpty(rs: seq<Rsv>, i: nat)
    requires rs != [] && rs[|rs| - 1].size == 0 && i < |rs|
    ensures FirstEmpty(rs, i).Some?
    decreases |rs| - i
  {
    if rs[i].size != 0 {
      LastIsEmpty(rs, i + 1);
    }
  }

  // ---------------------------------------------------------------- the finished blob as a whole

  /** The blob without the rest of its buffer. */
  lemma FinishedPrefix(b: seq<byte>, rsv: seq<Rsv>, toks: seq<Token>, log: seq<Event>)
    requires Finished(b, rsv, toks, log)
    ensures var c := b[..Hdr(b).totalsize];
      && Finished(c, rsv, toks, log) && Hdr(c) == Hdr(b) && |c| == Hdr(c).totalsize
      && StructOf(c) == StructOf(b) && StringsOf(c) == StringsOf(b)
  {
    hide Hdr, Enc, EncRsv;
    var h, c := Hdr(b), b[..Hdr(b).totalsize];
    assert c[..HEADER_SIZE] == b[..HEADER_SIZE];
    HdrKept(b, c);
    assert c[h.offRsv..h.offStruct] == b[h.offRsv..h.offStruct];
    assert c[h.offStruct..h.offStruct + h.sizeStruct] == b[h.offStruct..h.offStruct + h.sizeStruct];
    assert c[h.offStrings..h.offStrings + h.sizeStrings] == b[h.offStrings..h.offStrings + h.sizeStrings];
  }

  /**
   `fdt_check_full` accepts a finished blob exactly when every `fdt_end_node` closed an open node and none
   was left open, and then it is an editable tree.
   */
  lemma FinishedIsValid(b: seq<byte>, rsv: seq<Rsv>, toks: seq<Token>, log: seq<Event>)
    requires Finished(b, rsv, toks, log)
    ensures var c := b[..Hdr(b).totalsize];
      Declared(c, |c|) && (FullVerdict(c, |c|) == Returns(0) <==> LogDepth(log) == Some(0))
    ensures FullyValid(b) <==> LogDepth(log) == Some(0)
    ensures LogDepth(log) == Some(0) ==> exists f :: Flat(f) == toks && Editable(b, f)
  {
    hide Hdr, Enc, EncRsv, StructOf, StringsOf, RsvOf, FullVerdict, Reading, RecordsAll, Balanced, RsvCount, AllValid;
    var c := b[..Hdr(b).totalsize];
    FinishedPrefix(b, rsv, toks, log);
    WholeIsValid(c, rsv, toks, log);
    LastIsEmpty(rsv, 0);
    RsvCounted(b, rsv, toks, log, 0);
    RsvCounted(c, rsv, toks, log, 0);
    if LogDepth(log) == Some(0) {
      var f :| Flat(f) == toks && Editable(c, f);
      assert Editable(b, f);
    }
  }

  lemma WholeIsValid(b: seq<byte>, rsv: seq<Rsv>, toks: seq<Token>, log: seq<Event>)
    requires Finished(b, rsv, toks, log) && |b| == Hdr(b).totalsize
    ensures Declared(b, |b|) && (FullVerdict(b, |b|) == Returns(0) <==> LogDepth(log) == Some(0))
    ensures FullyValid(b) <==> LogDepth(log) == Some(0)
    ensures LogDepth(log) == Some(0) ==> exists f :: Flat(f) == toks && Editable(b, f)
  {
    hide Hdr, Enc, NextTagAt, StructOf, StringsOf, EncRsv, RsvOf;
    var area, strs := StructOf(b), StringsOf(b);
    assert toks[..0] == [];
    EmptyPrefix(toks);
    EncodedLengths(area, toks, 0);
    AcceptedIsValid(b, |b|);
    LastIsEmpty(rsv, 0);
    RsvCounted(b, rsv, toks, log, 0);
    DepthsAgree(toks, log, strs, 0);
    NamesRead(toks, log, strs);
    assert Reading(area, strs, toks) by {
      assert forall t :: t in toks ==> t in toks + [End];
    }
    NoEnd(toks, log, strs, 0);
    if FullyValid(b) {
      var w :| Reading(area, strs, w) && Balanced(w);
      BalancedNoEnd(w);
      SameReading(area, toks, w, 0);
    }
    if Balanced(toks) {
      BalancedIsForest(toks);
      var f :| Flat(f) == toks;
      NamedForest(f, strs);
      assert Editable(b, f);
    }
  }

  lemma EmptyPrefix(toks: seq<Token>)
    ensures AllValid(toks[..0]) && |Enc(toks[..0])| == 0
  {
  }

  lemma BalancedNoEnd(w: seq<Token>)
    requires Balanced(w)
    ensures End !in w
  {
    if End in w {
      var i :| 0 <= i < |w| && w[i] == End;
      NoEndInside(w, i);
    }
  }

  lemma NamesRead(toks: seq<Token>, log: seq<Event>, strs: seq<byte>)
    requires RecordsAll(toks, log, strs, 0)
    ensures Named(toks, strs)
  {
    forall t | t in toks && t.Prop? ensures StrAt(strs, t.nameoff).Some? {
      var i :| 0 <= i < |toks| && toks[i] == t;
      assert Records(toks[i], log[i], strs, 0);
    }
  }

  lemma {:induction false} NamedForest(f: Forest, strs: seq<byte>)
    requires Named(Flat(f), strs)
    ensures NamesOk(f, strs)
  {
    match f
    case Nil =>
    case PropCons(o, v, p, r) =>
      assert Flat(f)[0] == Prop(o, v, p);
      assert forall t :: t in Flat(r) ==> t in Flat(f);
      NamedForest(r, strs);
    case NopCons(r) =>
      assert forall t :: t in Flat(r) ==> t in Flat(f);
      NamedForest(r, strs);
    case NodeCons(n, p, k, r) =>
      assert forall t :: t in Flat(k) || t in Flat(r) ==> t in Flat(f);
      NamedForest(k, strs);
      NamedForest(r, strs);
  }
}
