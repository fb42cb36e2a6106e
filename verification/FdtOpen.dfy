/** fdt/fdt_rw.c: `fdt_open_into`, from one part of memory into another. */
module FdtOpen {
  import opened Bytes
  import opened Tokens
  import opened Blobs
  import opened Layouts
  import opened SwLayouts
  import opened Checks
  import opened Repacks
  import opened Fdt
  import opened FdtPack
  import opened StructSizes

  // ---------------------------------------------------------------- what it returns

  /** The size of the structure block: a header word, or what the loop over the tokens finds. */
  function StructSizeOf(b: seq<byte>): BlockSize
    requires Openable(b)
  {
    if Hdr(b).version == 16 then BlockEnd(AreaOf(b), 0) else Size(Hdr(b).sizeStruct)
  }

  /** The header as one of version 17. */
  function As17(b: seq<byte>): (h: Header)
    requires Openable(b) && StructSizeOf(b).Size?
    ensures Seen(b, h)
  {
    Hdr(b).(version := 17, sizeStruct := StructSizeOf(b).n)
  }

  lemma OpenableFits(b: seq<byte>)
    requires Openable(b)
    ensures Sized(b) && HEADER_SIZE <= |b| && Hdr(b).totalsize <= |b| && Hdr(b).totalsize < INT_MAX
    ensures Hdr(b).offStrings + Hdr(b).sizeStrings <= Hdr(b).totalsize
  {
  }

  /** `fdt_blocks_misordered_`; the first sum is unsigned, and `m` may be negative. */
  predicate Misordered(h: Header, m: int) {
    h.offRsv < HEADER_SIZE || h.offStruct < Wrap32(h.offRsv + m) || h.offStrings < Wrap32(h.offStruct + h.sizeStruct)
    || h.totalsize < Wrap32(h.offStrings + h.sizeStrings)
  }

  /** Where the reordered image is built first: at the start of the buffer, or right behind the old blob. */
  function TmpFor(from: nat, total: nat, to: nat, newsize: int): nat {
    if to + newsize > from && to < from + total then from + total else to
  }

  /** How `fdt_open_into` ends. */
  function OpenVerdict(b: seq<byte>, from: nat, to: nat, bufsize: nat): Verdict
    requires Openable(b)
  {
    match StructSizeOf(b)
    case Endless => SpinsForEver
    case Bad(err) => Returns(err)
    case Size(n) =>
      var h, m := As17(b), ListSize(b);
      var newsize := Int32(HEADER_SIZE + m + n + h.sizeStrings);
      var tmp := TmpFor(from, h.totalsize, to, newsize);
      if !Misordered(h, m) then Returns(if h.totalsize > bufsize then -NOSPACE else 0)
      else if bufsize < newsize then Returns(-NOSPACE)
      else if tmp != to && tmp + newsize > to + bufsize then Returns(-NOSPACE)
      else if m < 0 || newsize != HEADER_SIZE + m + n + h.sizeStrings then StraysOutside
      else Returns(0)
  }

  /**
   Of a version 17 blob with a terminated list: one in order must fit the buffer as it is. The image of another
   must fit, and where its place overlaps the old blob, it must fit a second time behind that.
   */
  lemma OpenVerdictMeans(b: seq<byte>, from: nat, to: nat, bufsize: nat)
    requires Openable(b) && Hdr(b).version == 17 && RsvCount(b, 0).Some?
    requires 40 + 16 * (RsvCount(b, 0).value + 1) + Hdr(b).sizeStruct + Hdr(b).sizeStrings <= 0x7fff_ffff
    ensures var h := Hdr(b); var m := 16 * (RsvCount(b, 0).value + 1);
      var n := 40 + m + h.sizeStruct + h.sizeStrings;
      var inOrder := 40 <= h.offRsv && h.offRsv + m <= h.offStruct && h.offStruct + h.sizeStruct <= h.offStrings
        && h.offStrings + h.sizeStrings <= h.totalsize;
      var overlaps := to < from + h.totalsize && from < to + n;
      var fits := if inOrder then h.totalsize <= bufsize
        else n <= bufsize && (overlaps ==> from + h.totalsize + n <= to + bufsize);
      OpenVerdict(b, from, to, bufsize) == Returns(if fits then 0 else -3)
  {
    hide Hdr, RsvCount, Wrap32;
    CountFits(b, 0);
    WrapFits(Hdr(b).offRsv + ListSize(b));
    WrapFits(Hdr(b).offStruct + Hdr(b).sizeStruct);
    WrapFits(Hdr(b).offStrings + Hdr(b).sizeStrings);
    WrapFits(HEADER_SIZE + ListSize(b) + Hdr(b).sizeStruct + Hdr(b).sizeStrings);
    assert As17(b) == Hdr(b);
  }

  /** Of a version 16 blob whose block is the encoding of some tokens, it is that encoding that is taken over. */
  lemma EncodedBlock(b: seq<byte>, toks: seq<Token>)
    requires Openable(b) && Hdr(b).version == 16 && End !in toks && AllValid(toks + [End])
      && Enc(toks + [End]) <= AreaOf(b)
    ensures StructSizeOf(b) == Size(|Enc(toks + [End])|) && StructAs(b, As17(b)) == Enc(toks + [End])
  {
    hide Hdr, Enc, BlockEnd;
    assert toks[..0] == [];
    EncodedEnd(AreaOf(b), toks, 0);
    NothingRead();
    SliceSlice(b, Hdr(b).offStruct, Hdr(b).totalsize, 0, |Enc(toks + [End])|);
    assert AreaOf(b)[..|Enc(toks + [End])|] == AreaOf(b)[0..|Enc(toks + [End])|];
  }

  /** For a terminated list, in order means that nothing has to be moved. */
  lemma OrderedIsTidy(b: seq<byte>, h: Header)
    requires Seen(b, h) && RsvCount(b, 0).Some?
    ensures TidyAs(b, h) <==> !Misordered(h, ListSize(b))
  {
    hide Hdr, RsvCount, Wrap32;
    CountFits(b, 0);
    WrapFits(h.offRsv + ListSize(b));
    WrapFits(h.offStruct + h.sizeStruct);
    WrapFits(h.offStrings + h.sizeStrings);
  }

  // ---------------------------------------------------------------- the straight copy

  /** `fdt_move`. */
  method Move(mem: array<byte>, from: nat, to: nat, bufsize: nat) returns (err: int)
    requires from + HEADER_SIZE <= mem.Length && Openable(BlobAt(mem[..], from)) && to + bufsize <= mem.Length
    modifies mem
    ensures var total: int := Hdr(BlobAt(old(mem[..]), from)).totalsize;
      && err == (if total > bufsize then -NOSPACE else 0)
      && from + total <= mem.Length
      && mem[..] == if err != 0 then old(mem[..]) else Put(old(mem[..]), to, old(mem[from..from + total]))
  {
    hide Hdr, Put, Dec32, Word;
    WordAt(mem[..], from, W_TOTALSIZE);
    TotalWord(BlobAt(mem[..], from));
    var total := Dec32(mem[..], from + 4 * W_TOTALSIZE);
    if total > bufsize {
      return -NOSPACE;
    }
    MovedIsPut(mem[..], to, from, total);
    Memmove(mem, to, from, total);
    return 0;
  }

  lemma MovedIsPut(s: seq<byte>, dst: nat, src: nat, n: nat)
    requires dst + n <= |s| && src + n <= |s|
    ensures Moved(s, dst, src, n) == Put(s, dst, s[src..src + n])
  {
  }

  lemma TotalWord(b: seq<byte>)
    requires |b| >= HEADER_SIZE
    ensures Word(b, W_TOTALSIZE) == Hdr(b).totalsize && Word(b, 7) == Hdr(b).bootCpu
  {
  }

  /** The blob as it is, with three header words set. */
  function Relabelled(b: seq<byte>, size: u32): (r: seq<byte>)
    requires Openable(b) && StructSizeOf(b).Size? && HEADER_SIZE <= Hdr(b).totalsize
    ensures |r| == Hdr(b).totalsize
  {
    var h1 := Put(b[0..HEADER_SIZE], 20, Enc32(17));
    var h2 := Put(h1, 4 * W_SIZE_STRUCT, Enc32(As17(b).sizeStruct));
    Put(h2, 4 * W_TOTALSIZE, Enc32(size)) + b[HEADER_SIZE..Hdr(b).totalsize]
  }

  lemma RelabelledHeader(b: seq<byte>, size: u32)
    requires Openable(b) && StructSizeOf(b).Size? && HEADER_SIZE <= Hdr(b).totalsize
    ensures Hdr(Relabelled(b, size)) == As17(b).(totalsize := size)
  {
    hide Hdr, Put, Enc32, StructSizeOf, Openable;
    OpenableFits(b);
    var h1 := Put(b[0..HEADER_SIZE], 20, Enc32(17));
    var h2 := Put(h1, 4 * W_SIZE_STRUCT, Enc32(As17(b).sizeStruct));
    var h3 := Put(h2, 4 * W_TOTALSIZE, Enc32(size));
    WholeBlob(b);
    SourceIsHeader(b, 0, 0);
    HdrWord(b[0..HEADER_SIZE], 5, 17);
    HdrWord(h1, W_SIZE_STRUCT, As17(b).sizeStruct);
    HdrWord(h2, W_TOTALSIZE, size);
    HeaderOfPrefix(Relabelled(b, size), h3, b[HEADER_SIZE..Hdr(b).totalsize]);
  }

  /** A blob that starts like this has the contents of the old one, if that was in order. */
  lemma RelabelledContents(b: seq<byte>, c: seq<byte>, size: u32)
    requires Openable(b) && StructSizeOf(b).Size? && TidyAs(b, As17(b))
    requires Hdr(b).totalsize <= size <= |c| && size < INT_MAX
    requires HEADER_SIZE <= Hdr(b).totalsize && Relabelled(b, size) <= c
    ensures Hdr(c) == As17(b).(totalsize := size) && SameContents(b, As17(b), c) && Tidy(c)
  {
    hide Hdr, RsvCount, RsvList, Entry, StructSizeOf, Openable;
    var h := As17(b);
    OpenableFits(b);
    CountFits(b, 0);
    RelabelledHeader(b, size);
    HeaderOfPrefix(c, Relabelled(b, size)[..HEADER_SIZE], Relabelled(b, size)[HEADER_SIZE..]);
    HeaderOfPrefix(Relabelled(b, size), Relabelled(b, size)[..HEADER_SIZE], Relabelled(b, size)[HEADER_SIZE..]);
    RelabelledSlice(b, c, size, h.offRsv, h.offRsv + RsvSize(b));
    RelabelledSlice(b, c, size, h.offStruct, h.offStruct + h.sizeStruct);
    RelabelledSlice(b, c, size, h.offStrings, h.offStrings + h.sizeStrings);
    TidySound(b, h, c, size);
    RsvSame(b, c);
  }

  lemma TidySound(b: seq<byte>, h: Header, c: seq<byte>, size: u32)
    requires TidyAs(b, h) && h.totalsize <= size <= |c| && size < INT_MAX && |c| >= HEADER_SIZE
      && Hdr(c) == h.(totalsize := size)
    ensures Sound(c) && Ordered(Hdr(c))
  {
    hide Hdr, RsvCount;
  }

  lemma RelabelledSlice(b: seq<byte>, c: seq<byte>, size: u32, i: nat, j: nat)
    requires Openable(b) && StructSizeOf(b).Size? && HEADER_SIZE <= Hdr(b).totalsize && Relabelled(b, size) <= c
    requires HEADER_SIZE <= i <= j <= Hdr(b).totalsize
    ensures c[i..j] == b[i..j]
  {
    hide Hdr, StructSizeOf, Openable, As17;
    OpenableFits(b);
    var x := Relabelled(b, size);
    forall k | i <= k < j ensures c[k] == b[k] {
      assert c[k] == x[k];
    }
  }

  /** The straight copy of `fdt_open_into`. */
  method OpenByMove(mem: array<byte>, from: nat, to: nat, bufsize: nat, struct_size: u32) returns (err: int)
    requires from + HEADER_SIZE <= mem.Length && Openable(BlobAt(mem[..], from)) && to + bufsize <= mem.Length
      && bufsize < INT_MAX
    requires var b := BlobAt(mem[..], from); StructSizeOf(b) == Size(struct_size) && HEADER_SIZE <= Hdr(b).totalsize
    modifies mem
    ensures var b := BlobAt(old(mem[..]), from);
      && err == (if Hdr(b).totalsize > bufsize then -NOSPACE else 0)
      && mem[..] == if err != 0 then old(mem[..]) else Put(old(mem[..]), to, Relabelled(b, bufsize))
  {
    hide Hdr, Put, Enc32, BlobAt, StructSizeOf, Openable;
    ghost var mem0, b := mem[..], BlobAt(mem[..], from);
    OpenableFits(b);
    err := Move(mem, from, to, bufsize);
    if err != 0 {
      return;
    }
    ghost var h0, y := b[0..HEADER_SIZE], b[HEADER_SIZE..Hdr(b).totalsize];
    SplitBlob(mem0, from, Hdr(b).totalsize);
    HeaderFirst(mem0, to, h0, y);
    ghost var mi := Put(mem0, to + HEADER_SIZE, y);
    SetImageWord(mem, to, 5, 17, mi, h0);
    ghost var h1 := Put(h0, 20, Enc32(17));
    SetImageWord(mem, to, W_SIZE_STRUCT, struct_size, mi, h1);
    ghost var h2 := Put(h1, 4 * W_SIZE_STRUCT, Enc32(struct_size));
    SetImageWord(mem, to, W_TOTALSIZE, bufsize, mi, h2);
    HeaderFirst(mem0, to, Put(h2, 4 * W_TOTALSIZE, Enc32(bufsize)), y);
  }

  lemma SplitBlob(mem: seq<byte>, from: nat, n: nat)
    requires from + n <= |mem| && HEADER_SIZE <= n
    ensures |BlobAt(mem, from)| == |mem| - from
    ensures mem[from..from + n] == BlobAt(mem, from)[0..HEADER_SIZE] + BlobAt(mem, from)[HEADER_SIZE..n]
  {
  }

  lemma PutBlob(mem: seq<byte>, to: nat, x: seq<byte>)
    requires to + |x| <= |mem|
    ensures x <= BlobAt(Put(mem, to, x), to) && |BlobAt(Put(mem, to, x), to)| == |mem| - to
  {
  }

  // ---------------------------------------------------------------- the reordering

  lemma HeaderInside(b: seq<byte>)
    requires Openable(b) && StructSizeOf(b).Size?
    ensures HEADER_SIZE <= Hdr(b).totalsize
  {
  }

  /** The header the reordered image ends up with, the boot CPU still that of the memory it was built in. */
  function OpenHeader(h0: seq<byte>, m: nat, s: nat, t: nat, bufsize: u32): (r: seq<byte>)
    requires |h0| == HEADER_SIZE && HEADER_SIZE + m + s + t < INT_MAX
    ensures |r| == HEADER_SIZE
  {
    var h1 := Put(PackedHeader(h0, m, s, t), 0, Enc32(FDT_MAGIC));
    var h2 := Put(h1, 4 * W_TOTALSIZE, Enc32(bufsize));
    var h3 := Put(h2, 20, Enc32(17));
    Put(h3, 24, Enc32(16))
  }

  lemma OpenHeaderIs(h0: seq<byte>, m: nat, s: nat, t: nat, bufsize: u32)
    requires |h0| == HEADER_SIZE && HEADER_SIZE + m + s + t < INT_MAX
    ensures Hdr(OpenHeader(h0, m, s, t, bufsize)) == Header(
      FDT_MAGIC, bufsize, HEADER_SIZE + m, HEADER_SIZE + m + s, HEADER_SIZE, 17, 16, Hdr(h0).bootCpu, t, s)
  {
    hide Hdr, Put, Enc32, PackedHeader;
    var h1 := Put(PackedHeader(h0, m, s, t), 0, Enc32(FDT_MAGIC));
    var h2 := Put(h1, 4 * W_TOTALSIZE, Enc32(bufsize));
    PackedHeaderIs(h0, m, s, t);
    HdrWord(PackedHeader(h0, m, s, t), 0, FDT_MAGIC);
    HdrWord(h1, W_TOTALSIZE, bufsize);
    HdrWord(h2, 5, 17);
    HdrWord(Put(h2, 20, Enc32(17)), 6, 16);
  }

  /** The blob at `from` is reordered into the buffer, through an image at `tmp`. */
  predicate Reorders(mem: seq<byte>, b: seq<byte>, from: nat, to: nat, bufsize: nat) {
    && from + HEADER_SIZE <= |mem| && b == BlobAt(mem, from) && to + bufsize <= |mem| && bufsize < INT_MAX
    && Openable(b) && StructSizeOf(b).Size? && Misordered(As17(b), ListSize(b))
      && OpenVerdict(b, from, to, bufsize) == Returns(0)
  }

  /** Size and place of the image. */
  function OpenSize(b: seq<byte>): int
    requires Openable(b) && StructSizeOf(b).Size?
  {
    PackedSize(As17(b), 0) + ListSize(b)
  }

  function OpenTmp(b: seq<byte>, from: nat, to: nat): nat
    requires Openable(b) && StructSizeOf(b).Size?
  {
    TmpFor(from, Hdr(b).totalsize, to, OpenSize(b))
  }

  lemma ReorderFacts(mem: seq<byte>, b: seq<byte>, from: nat, to: nat, bufsize: nat)
    requires Reorders(mem, b, from, to, bufsize)
    ensures RsvCount(b, 0).Some? && RsvSize(b) == ListSize(b)
      && OpenSize(b) == PackedSize(As17(b), RsvSize(b)) < INT_MAX
    ensures var tmp, n := OpenTmp(b, from, to), OpenSize(b);
      && to <= tmp && tmp + n <= to + bufsize && to + n <= to + bufsize
      && (tmp + n <= from || from + Hdr(b).totalsize <= tmp)
      && Source(mem, b, As17(b), from, tmp, RsvSize(b)) && MovesFit(|mem|, from, tmp, As17(b), RsvSize(b))
    ensures var h := As17(b);
      && h.offRsv + RsvSize(b) <= h.totalsize <= |b| && h.offStruct + h.sizeStruct <= h.totalsize
        && h.offStrings + h.sizeStrings <= h.totalsize
  {
    hide Hdr, RsvCount, StructSizeOf;
    HeaderInside(b);
    if RsvCount(b, 0).Some? {
      CountFits(b, 0);
    }
  }

  /** The image that is moved to the start of the buffer. */
  function OpenImage(mem: seq<byte>, b: seq<byte>, from: nat, to: nat, bufsize: nat): (r: seq<byte>)
    requires Reorders(mem, b, from, to, bufsize)
    ensures |r| == OpenSize(b)
  {
    ReorderFacts(mem, b, from, to, bufsize);
    var h, m, tmp := As17(b), RsvSize(b), OpenTmp(b, from, to);
    OpenHeader(mem[tmp..tmp + HEADER_SIZE], m, h.sizeStruct, h.sizeStrings, bufsize) + Wanted(b, 0, h, m)
  }

  /** The boot CPU of the result: it is read from the place of the old header after the image has been moved. */
  function OpenBoot(mem: seq<byte>, b: seq<byte>, from: nat, to: nat, bufsize: nat): u32
    requires Reorders(mem, b, from, to, bufsize)
  {
    ReorderFacts(mem, b, from, to, bufsize);
    Dec32(Put(mem, to, OpenImage(mem, b, from, to, bufsize)), from + 28)
  }

  /** What a successful reordering leaves: the contents in a new order, everything outside the buffer as before. */
  ghost predicate Reordered(mem0: seq<byte>, mem: seq<byte>, b: seq<byte>, from: nat, to: nat, bufsize: nat)
    requires Reorders(mem0, b, from, to, bufsize) && |mem| == |mem0|
  {
    ReorderFacts(mem0, b, from, to, bufsize);
    var h, m, c := As17(b), RsvSize(b), BlobAt(mem, to);
    && ChangedWithin(mem0, mem, to, bufsize) && Tidy(c) && SameContents(b, h, c)
    && Hdr(c) == HeaderPacked(h, m, bufsize).(lastComp := 16, bootCpu := OpenBoot(mem0, b, from, to, bufsize))
  }

  /** The image as `fdt_packblocks_` builds it. */
  function PlainImage(mem: seq<byte>, b: seq<byte>, from: nat, to: nat, bufsize: nat): (r: seq<byte>)
    requires Reorders(mem, b, from, to, bufsize)
    ensures |r| == OpenSize(b)
  {
    ReorderFacts(mem, b, from, to, bufsize);
    var h, m, tmp := As17(b), RsvSize(b), OpenTmp(b, from, to);
    PackedHeader(mem[tmp..tmp + HEADER_SIZE], m, h.sizeStruct, h.sizeStrings) + Wanted(b, 0, h, m)
  }

  /** The memory once the image has been moved to the start of the buffer. */
  function ImageTwice(mem: seq<byte>, b: seq<byte>, from: nat, to: nat, bufsize: nat): (r: seq<byte>)
    requires Reorders(mem, b, from, to, bufsize)
    ensures |r| == |mem|
  {
    ReorderFacts(mem, b, from, to, bufsize);
    var img := PlainImage(mem, b, from, to, bufsize);
    Put(Put(mem, OpenTmp(b, from, to), img), to, img)
  }

  /** `fdt_packblocks_` and the `memmove` behind it. */
  method BuildImage(mem: array<byte>, from: nat, to: nat, tmp: nat, m: nat, struct_size: nat, newsize: nat,
      ghost b: seq<byte>, ghost bufsize: nat)
    requires Reorders(mem[..], b, from, to, bufsize) && tmp == OpenTmp(b, from, to) && m == ListSize(b)
      && newsize == OpenSize(b)
    requires struct_size == As17(b).sizeStruct
    modifies mem
    ensures mem[..] == ImageTwice(old(mem[..]), b, from, to, bufsize)
  {
    hide Hdr, Put, RsvCount, Openable, StructSizeOf, Misordered, OpenVerdict, Source, PackedHeader, BlobAt, Wanted,
      PackMoves;
    ghost var mem0, h := mem[..], As17(b);
    ReorderFacts(mem0, b, from, to, bufsize);
    PackBlocks(mem, from, tmp, m, struct_size, b, h);
    ghost var h0 := mem0[tmp..tmp + HEADER_SIZE];
    ghost var hp, x := PackedHeader(h0, m, struct_size, h.sizeStrings), Wanted(mem0, from, h, m);
    KeptApart(mem0, from, tmp, h, m);
    HeaderFirst(mem0, tmp, hp, x);
    BlobLength(mem0, from);
    WantedAt(mem0, from, b, h, m);
    ghost var mem1 := mem[..];
    PutRead(mem0, tmp, hp + x);
    MovedIsPut(mem1, to, tmp, newsize);
    Memmove(mem, to, tmp, newsize);
  }

  lemma SourceBlock(mem: seq<byte>, from: nat, i: nat, n: nat)
    requires from <= |mem| && i + n <= |BlobAt(mem, from)|
    ensures |BlobAt(mem, from)| == |mem| - from && mem[from + i..from + i + n] == BlobAt(mem, from)[i..i + n]
  {
  }

  lemma WantedAt(mem: seq<byte>, from: nat, b: seq<byte>, h: Header, m: nat)
    requires from <= |mem| && b == BlobAt(mem, from) && |b| == |mem| - from
    requires h.offRsv + m <= |b| && h.offStruct + h.sizeStruct <= |b| && h.offStrings + h.sizeStrings <= |b|
    ensures Wanted(mem, from, h, m) == Wanted(b, 0, h, m)
  {
    hide BlobAt;
    SourceBlock(mem, from, h.offRsv, m);
    SourceBlock(mem, from, h.offStruct, h.sizeStruct);
    SourceBlock(mem, from, h.offStrings, h.sizeStrings);
  }

  lemma PutRead(mem: seq<byte>, at: nat, x: seq<byte>)
    requires at + |x| <= |mem|
    ensures Put(mem, at, x)[at..at + |x|] == x
  {
  }

  /** The five header words set at the end of `fdt_open_into`. */
  method FinishHeader(mem: array<byte>, from: nat, to: nat, bufsize: u32, ghost mi: seq<byte>, ghost h0: seq<byte>,
      ghost m: nat, ghost s: nat, ghost t: nat)
    requires |h0| == HEADER_SIZE && HEADER_SIZE + m + s + t < INT_MAX
    requires to + HEADER_SIZE <= mem.Length == |mi| && from + HEADER_SIZE <= mem.Length
    requires mem[..] == Put(mi, to, PackedHeader(h0, m, s, t))
    modifies mem
    ensures var h4 := OpenHeader(h0, m, s, t, bufsize);
      mem[..] == Put(mi, to, Put(h4, 28, Enc32(Dec32(Put(mi, to, h4), from + 28))))
  {
    hide Hdr, Put, Enc32, Dec32, PackedHeader;
    ghost var hp := PackedHeader(h0, m, s, t);
    SetImageWord(mem, to, 0, FDT_MAGIC, mi, hp);
    ghost var h1 := Put(hp, 0, Enc32(FDT_MAGIC));
    SetImageWord(mem, to, W_TOTALSIZE, bufsize, mi, h1);
    ghost var h2 := Put(h1, 4 * W_TOTALSIZE, Enc32(bufsize));
    SetImageWord(mem, to, 5, 17, mi, h2);
    ghost var h3 := Put(h2, 20, Enc32(17));
    SetImageWord(mem, to, 6, 16, mi, h3);
    ghost var h4 := Put(h3, 24, Enc32(16));
    var boot := Dec32(mem[..], from + 28);
    SetImageWord(mem, to, 7, boot, mi, h4);
  }

  /** The memory after the header has been finished. */
  function Finished(mem: seq<byte>, b: seq<byte>, from: nat, to: nat, bufsize: nat): (r: seq<byte>)
    requires Reorders(mem, b, from, to, bufsize)
    ensures |r| == |mem|
  {
    ReorderFacts(mem, b, from, to, bufsize);
    var h, m, tmp := As17(b), RsvSize(b), OpenTmp(b, from, to);
    var h4 := OpenHeader(mem[tmp..tmp + HEADER_SIZE], m, h.sizeStruct, h.sizeStrings, bufsize);
    Put(Put(mem, tmp, PlainImage(mem, b, from, to, bufsize)), to,
        Put(h4, 28, Enc32(OpenBoot(mem, b, from, to, bufsize))) + Wanted(b, 0, h, m))
  }

  /** The image in between does not touch the old boot CPU word unless it is overwritten anyway. */
  lemma BootSame(mem: seq<byte>, tmp: nat, img: seq<byte>, to: nat, x: seq<byte>, at: nat)
    requires tmp + |img| <= |mem| && to + |x| <= |mem| && at + 4 <= |mem| && |x| == |img|
    requires tmp == to || at + 4 <= tmp || tmp + |img| <= at
    ensures Dec32(Put(Put(mem, tmp, img), to, x), at) == Dec32(Put(mem, to, x), at)
  {
    hide Dec32;
    var u, v := Put(Put(mem, tmp, img), to, x), Put(mem, to, x);
    forall i | at <= i < at + 4 ensures u[i] == v[i] {
    }
    DecSlice(u, at, v, at);
  }

  method FinishImage(mem: array<byte>, from: nat, to: nat, bufsize: nat, ghost mem0: seq<byte>, ghost b: seq<byte>)
    requires Reorders(mem0, b, from, to, bufsize) && mem[..] == ImageTwice(mem0, b, from, to, bufsize)
    modifies mem
    ensures mem[..] == Finished(mem0, b, from, to, bufsize)
  {
    hide Hdr, Put, RsvCount, Openable, StructSizeOf, Misordered, OpenVerdict, Source, PackedHeader, BlobAt, Wanted,
      OpenHeader, Dec32, Enc32;
    OpenableFits(b);
    ReorderFacts(mem0, b, from, to, bufsize);
    HeaderInside(b);
    ghost var h, m, tmp := As17(b), RsvSize(b), OpenTmp(b, from, to);
    ghost var h0, x := mem0[tmp..tmp + HEADER_SIZE], Wanted(b, 0, h, m);
    ghost var mem1 := Put(mem0, tmp, PlainImage(mem0, b, from, to, bufsize));
    ghost var mi := Put(mem1, to + HEADER_SIZE, x);
    ghost var h4 := OpenHeader(h0, m, h.sizeStruct, h.sizeStrings, bufsize);
    HeaderFirst(mem1, to, PackedHeader(h0, m, h.sizeStruct, h.sizeStrings), x);
    FinishHeader(mem, from, to, bufsize, mi, h0, m, h.sizeStruct, h.sizeStrings);
    HeaderFirst(mem1, to, h4, x);
    BootSame(mem0, tmp, PlainImage(mem0, b, from, to, bufsize), to, h4 + x, from + 28);
    HeaderFirst(mem1, to, Put(h4, 28, Enc32(OpenBoot(mem0, b, from, to, bufsize))), x);
  }

  lemma FinishedContents(mem: seq<byte>, b: seq<byte>, from: nat, to: nat, bufsize: nat)
    requires Reorders(mem, b, from, to, bufsize)
    ensures Reordered(mem, Finished(mem, b, from, to, bufsize), b, from, to, bufsize)
  {
    hide Hdr, Put, RsvCount, Openable, StructSizeOf, Misordered, OpenVerdict, Source, PackedHeader, BlobAt,
      OpenHeader, Dec32, Enc32, OpenBoot, SameContents, ChangedWithin, PlainImage;
    OpenableFits(b);
    ReorderFacts(mem, b, from, to, bufsize);
    var h, m, tmp := As17(b), RsvSize(b), OpenTmp(b, from, to);
    var h4 := OpenHeader(mem[tmp..tmp + HEADER_SIZE], m, h.sizeStruct, h.sizeStrings, bufsize);
    var boot := OpenBoot(mem, b, from, to, bufsize);
    var hx, x := Put(h4, 28, Enc32(boot)), Wanted(b, 0, h, m);
    OpenHeaderIs(mem[tmp..tmp + HEADER_SIZE], m, h.sizeStruct, h.sizeStrings, bufsize);
    HdrWord(h4, 7, boot);
    var img := PlainImage(mem, b, from, to, bufsize);
    PutBlob(Put(mem, tmp, img), to, hx + x);
    TwoWithin(mem, tmp, img, to, hx + x, bufsize);
    OpenableMagic(b);
    ImageContents(b, h, BlobAt(Finished(mem, b, from, to, bufsize), to), hx, bufsize);
  }

  lemma OpenableMagic(b: seq<byte>)
    requires Openable(b)
    ensures Hdr(b).magic == FDT_MAGIC
  {
  }

  lemma TwoWithin(mem: seq<byte>, tmp: nat, x: seq<byte>, to: nat, y: seq<byte>, n: nat)
    requires tmp + |x| <= |mem| && to + |y| <= |mem| && to <= tmp && tmp + |x| <= to + n && |y| <= n
    ensures ChangedWithin(mem, Put(Put(mem, tmp, x), to, y), to, n)
  {
  }

  /** The reordering branch of `fdt_open_into`: an image built clear of the old blob, then moved into place. */
  method OpenByReorder(mem: array<byte>, from: nat, to: nat, bufsize: nat, m: int, struct_size: nat) returns (err: int)
    requires from + HEADER_SIZE <= mem.Length && Openable(BlobAt(mem[..], from)) && to + bufsize <= mem.Length
      && bufsize < INT_MAX
    requires var b := BlobAt(mem[..], from);
      && StructSizeOf(b) == Size(struct_size) && m == ListSize(b) && Misordered(As17(b), m)
      && OpenVerdict(b, from, to, bufsize).Returns?
    modifies mem
    ensures var b := BlobAt(old(mem[..]), from);
      && err == OpenVerdict(b, from, to, bufsize).err
      && (err != 0 ==> mem[..] == old(mem[..]))
      && (err == 0 ==>
        Reorders(old(mem[..]), b, from, to, bufsize) && Reordered(old(mem[..]), mem[..], b, from, to, bufsize))
  {
    hide Hdr, RsvCount, Openable, StructSizeOf, Misordered, Source, BlobAt, Dec32, Word, Reordered, Int32, ListSize;
    ghost var mem0, b := mem[..], BlobAt(mem[..], from);
    OpenableFits(b);
    SourceWords(mem0, from);
    WordAt(mem0, from, W_TOTALSIZE);
    TotalWord(b);
    var total := Dec32(mem[..], from + 4 * W_TOTALSIZE);
    var newsize := Int32(HEADER_SIZE + m + struct_size + Dec32(mem[..], from + 4 * W_SIZE_STRINGS));
    if bufsize < newsize {
      return -NOSPACE;
    }
    var tmp := to;
    if tmp + newsize > from && tmp < from + total {
      tmp := from + total;
      if tmp + newsize > to + bufsize {
        return -NOSPACE;
      }
    }
    BuildImage(mem, from, to, tmp, m, struct_size, newsize, b, bufsize);
    FinishImage(mem, from, to, bufsize, mem0, b);
    FinishedContents(mem0, b, from, to, bufsize);
    return 0;
  }

  // ---------------------------------------------------------------- fdt_open_into

  /** What a straight copy leaves: the old bytes, and with a terminated list the old contents. */
  ghost predicate Straight(mem0: seq<byte>, mem: seq<byte>, b: seq<byte>, to: nat, bufsize: nat)
    requires Openable(b) && StructSizeOf(b).Size? && Hdr(b).totalsize <= bufsize < INT_MAX && to + bufsize <= |mem0|
  {
    HeaderInside(b);
    && mem == Put(mem0, to, Relabelled(b, bufsize))
    && (RsvCount(b, 0).Some? ==>
          var c := BlobAt(mem, to);
          Tidy(c) && SameContents(b, As17(b), c) && Hdr(c) == As17(b).(totalsize := bufsize))
  }

  lemma StraightContents(mem: seq<byte>, b: seq<byte>, to: nat, bufsize: nat)
    requires Openable(b) && StructSizeOf(b).Size? && Hdr(b).totalsize <= bufsize < INT_MAX && to + bufsize <= |mem|
    requires HEADER_SIZE <= Hdr(b).totalsize && !Misordered(As17(b), ListSize(b))
    ensures Straight(mem, Put(mem, to, Relabelled(b, bufsize)), b, to, bufsize)
  {
    hide Hdr, RsvCount, Openable, StructSizeOf, Misordered, BlobAt, Put, Relabelled, SameContents, Tidy, TidyAs;
    OpenableFits(b);
    if RsvCount(b, 0).Some? {
      OrderedIsTidy(b, As17(b));
      PutBlob(mem, to, Relabelled(b, bufsize));
      RelabelledContents(b, BlobAt(Put(mem, to, Relabelled(b, bufsize)), to), bufsize);
    }
  }

  /**
   `fdt_open_into`, source and buffer anywhere in one memory and overlapping in any way: the buffer receives
   a version 17 blob with the same reservations, structure and strings in the standard order.
   */
  method OpenInto(mem: array<byte>, from: nat, to: nat, bufsize: nat) returns (err: int)
    requires from + HEADER_SIZE <= mem.Length && Openable(BlobAt(mem[..], from)) && to + bufsize <= mem.Length
      && bufsize < INT_MAX
    requires OpenVerdict(BlobAt(mem[..], from), from, to, bufsize).Returns?
    modifies mem
    ensures var b := BlobAt(old(mem[..]), from);
      && err == OpenVerdict(b, from, to, bufsize).err
      && (err != 0 ==> mem[..] == old(mem[..]))
      && (err == 0 && Misordered(As17(b), ListSize(b)) ==>
            Reorders(old(mem[..]), b, from, to, bufsize) && Reordered(old(mem[..]), mem[..], b, from, to, bufsize))
      && (err == 0 && !Misordered(As17(b), ListSize(b)) ==>
            Hdr(b).totalsize <= bufsize && Straight(old(mem[..]), mem[..], b, to, bufsize))
  {
    hide Hdr, RsvCount, BlobAt, Reordered, Straight, Misordered, Int32, Reorders;
    ghost var mem0, b := mem[..], BlobAt(mem[..], from);
    var num := NumMemRsv(BlobAt(mem[..], from));
    var mem_rsv_size := (num + 1) * RSV_SIZE;
    var struct_size: int;
    if Hdr(BlobAt(mem[..], from)).version >= 17 {
      struct_size := Hdr(BlobAt(mem[..], from)).sizeStruct;
    } else {
      struct_size := StructSize(BlobAt(mem[..], from));
      if struct_size < 0 {
        return struct_size;
      }
    }
    var h := Hdr(BlobAt(mem[..], from)).(version := 17, sizeStruct := struct_size);
    if !Misordered(h, mem_rsv_size) {
      HeaderInside(b);
      err := OpenByMove(mem, from, to, bufsize, struct_size);
      if err == 0 {
        StraightContents(mem0, b, to, bufsize);
      }
    } else {
      err := OpenByReorder(mem, from, to, bufsize, mem_rsv_size, struct_size);
    }
  }
}
