/** fdt/fdt_rw.c: `fdt_open_into` reads the boot CPU after it has written. */
module BootCpus {
  import opened Bytes
  import opened Tokens
  import opened Blobs
  import opened Layouts
  import opened Checks
  import opened Repacks
  import opened Fdt
  import opened FdtPack
  import opened FdtOpen
  import opened Overlaps

  /** The memory with another boot CPU in the old header. */
  function WithBoot(mem: seq<byte>, from: nat, boot: u32): (r: seq<byte>)
    requires from + HEADER_SIZE <= |mem|
    ensures |r| == |mem|
  {
    Put(mem, from + 28, Enc32(boot))
  }

  /** With that boot CPU the blob is reordered into one that has it too. */
  ghost predicate BootKept(mem: seq<byte>, from: nat, to: nat, bufsize: nat, boot: u32)
    requires from + HEADER_SIZE <= |mem|
  {
    var now := WithBoot(mem, from, boot);
    var b := BlobAt(now, from);
    Reorders(now, b, from, to, bufsize) && Hdr(b).bootCpu == boot && OpenBoot(now, b, from, to, bufsize) == boot
  }

  /** Another boot CPU and otherwise the same blob. */
  predicate OnlyBoot(b: seq<byte>, c: seq<byte>, boot: u32) {
    |c| == |b| >= HEADER_SIZE && Hdr(c) == Hdr(b).(bootCpu := boot) && c[32..] == b[32..]
  }

  lemma BootHeader(mem: seq<byte>, from: nat, boot: u32)
    requires from + HEADER_SIZE <= |mem|
    ensures OnlyBoot(BlobAt(mem, from), BlobAt(WithBoot(mem, from, boot), from), boot)
  {
    hide Hdr, Enc32;
    var b := BlobAt(mem, from);
    assert BlobAt(WithBoot(mem, from, boot), from) == Put(b, 28, Enc32(boot));
    HdrWord(b, 7, boot);
  }

  lemma TailSlice(b: seq<byte>, c: seq<byte>, i: nat, j: nat)
    requires |c| == |b| >= 32 && c[32..] == b[32..] && 32 <= i <= j <= |b|
    ensures c[i..j] == b[i..j]
  {
    assert b[i..j] == b[32..][i - 32..j - 32];
    assert c[i..j] == c[32..][i - 32..j - 32];
  }

  lemma SameOpenable(b: seq<byte>, c: seq<byte>, boot: u32)
    requires OnlyBoot(b, c, boot) && Openable(b)
    ensures Openable(c) && Hdr(c).version == Hdr(b).version
  {
    hide Hdr;
  }

  lemma SameSize(b: seq<byte>, c: seq<byte>, boot: u32)
    requires OnlyBoot(b, c, boot) && Openable(b) && Openable(c)
    ensures StructSizeOf(c) == StructSizeOf(b)
  {
    hide Hdr;
    OpenableFits(b);
    if Hdr(b).version == 16 {
      TailSlice(b, c, Hdr(b).offStruct, Hdr(b).totalsize);
    }
  }

  lemma SameCountToo(b: seq<byte>, c: seq<byte>, boot: u32)
    requires OnlyBoot(b, c, boot) && Openable(b) && Openable(c) && RsvCount(b, 0).Some?
    ensures RsvCount(c, 0) == RsvCount(b, 0)
  {
    hide Hdr, RsvCount, RsvList;
    RsvBehind(b);
    CountFits(b, 0);
    TailSlice(b, c, Hdr(b).offRsv, Hdr(b).offRsv + 16 * (RsvCount(b, 0).value + 1));
    RsvSame(b, c);
  }

  lemma RsvBehind(b: seq<byte>)
    requires Openable(b)
    ensures Sized(b) && V16_SIZE <= Hdr(b).offRsv && V16_SIZE <= Hdr(b).offStruct && V16_SIZE <= Hdr(b).offStrings
  {
  }

  lemma SameVerdict(b: seq<byte>, c: seq<byte>, from: nat, to: nat, bufsize: nat, boot: u32)
    requires Openable(b) && Openable(c) && StructSizeOf(b).Size? && StructSizeOf(c) == StructSizeOf(b)
    requires RsvCount(c, 0) == RsvCount(b, 0) && Hdr(c) == Hdr(b).(bootCpu := boot)
    ensures OpenVerdict(c, from, to, bufsize) == OpenVerdict(b, from, to, bufsize)
    ensures Misordered(As17(c), ListSize(c)) <==> Misordered(As17(b), ListSize(b))
    ensures As17(c) == As17(b).(bootCpu := boot) && OpenTmp(c, from, to) == OpenTmp(b, from, to)
  {
    hide Hdr, RsvCount, StructSizeOf, Openable, Int32, Wrap32;
  }

  lemma SameReorders(mem: seq<byte>, b: seq<byte>, from: nat, to: nat, bufsize: nat, boot: u32)
    requires Reorders(mem, b, from, to, bufsize)
    ensures var now := WithBoot(mem, from, boot); var c := BlobAt(now, from);
      && Reorders(now, c, from, to, bufsize) && OnlyBoot(b, c, boot) && RsvCount(b, 0).Some?
        && RsvCount(c, 0) == RsvCount(b, 0)
      && As17(c) == As17(b).(bootCpu := boot) && OpenTmp(c, from, to) == OpenTmp(b, from, to)
  {
    hide Hdr, RsvCount, WithBoot, BlobAt, OpenVerdict, Misordered, Openable, StructSizeOf, OnlyBoot;
    var c := BlobAt(WithBoot(mem, from, boot), from);
    BootHeader(mem, from, boot);
    ReorderFacts(mem, b, from, to, bufsize);
    SameOpenable(b, c, boot);
    SameSize(b, c, boot);
    SameCountToo(b, c, boot);
    OnlyHeader(b, c, boot);
    SameVerdict(b, c, from, to, bufsize, boot);
  }

  lemma OnlyHeader(b: seq<byte>, c: seq<byte>, boot: u32)
    requires OnlyBoot(b, c, boot)
    ensures |c| == |b| >= HEADER_SIZE && Hdr(c) == Hdr(b).(bootCpu := boot)
  {
  }

  /** Nothing that the reordering writes depends on the old boot CPU. */
  lemma BootIgnored(mem: seq<byte>, b: seq<byte>, from: nat, to: nat, bufsize: nat, boot: u32)
    requires Reorders(mem, b, from, to, bufsize)
    ensures var now := WithBoot(mem, from, boot); var c := BlobAt(now, from);
      && Reorders(now, c, from, to, bufsize) && Hdr(c).bootCpu == boot
      && OpenImage(now, c, from, to, bufsize) == OpenImage(mem, b, from, to, bufsize)
  {
    hide Hdr, RsvCount, WithBoot, BlobAt, OpenVerdict, Misordered, Openable, StructSizeOf, OpenHeader, Wanted,
      OnlyBoot, OpenTmp, As17, Reorders, Source;
    InMemory(mem, b, from, to, bufsize);
    var now := WithBoot(mem, from, boot);
    var c := BlobAt(now, from);
    SameReorders(mem, b, from, to, bufsize, boot);
    OnlyHeader(b, c, boot);
    ReorderFacts(mem, b, from, to, bufsize);
    SameBlocks(mem, b, c, from, to, bufsize, boot);
    SameTmp(mem, b, from, to, bufsize, boot);
  }

  lemma SameBlocks(mem: seq<byte>, b: seq<byte>, c: seq<byte>, from: nat, to: nat, bufsize: nat, boot: u32)
    requires Reorders(mem, b, from, to, bufsize) && OnlyBoot(b, c, boot)
    ensures RsvCount(b, 0).Some?
    ensures var h, m := As17(b), RsvSize(b);
      && h.offRsv + m <= |b| && h.offStruct + h.sizeStruct <= |b| && h.offStrings + h.sizeStrings <= |b|
      && Wanted(c, 0, h.(bootCpu := boot), m) == Wanted(b, 0, h, m)
  {
    hide Hdr, RsvCount, OpenVerdict, Misordered, Openable, StructSizeOf, Source, Wanted;
    InMemory(mem, b, from, to, bufsize);
    RsvBehind(b);
    ReorderFacts(mem, b, from, to, bufsize);
    SameWanted(b, c, As17(b), RsvSize(b), boot);
  }

  lemma SameWanted(b: seq<byte>, c: seq<byte>, h: Header, m: nat, boot: u32)
    requires OnlyBoot(b, c, boot) && 32 <= h.offRsv && 32 <= h.offStruct && 32 <= h.offStrings
    requires h.offRsv + m <= |b| && h.offStruct + h.sizeStruct <= |b| && h.offStrings + h.sizeStrings <= |b|
    ensures Wanted(c, 0, h.(bootCpu := boot), m) == Wanted(b, 0, h, m)
  {
    hide Hdr;
    TailSlice(b, c, h.offRsv, h.offRsv + m);
    TailSlice(b, c, h.offStruct, h.offStruct + h.sizeStruct);
    TailSlice(b, c, h.offStrings, h.offStrings + h.sizeStrings);
  }

  lemma SameTmp(mem: seq<byte>, b: seq<byte>, from: nat, to: nat, bufsize: nat, boot: u32)
    requires Reorders(mem, b, from, to, bufsize)
    ensures var tmp := OpenTmp(b, from, to);
      tmp + HEADER_SIZE <= |mem| && WithBoot(mem, from, boot)[tmp..tmp + HEADER_SIZE] == mem[tmp..tmp + HEADER_SIZE]
  {
    hide Hdr, RsvCount, OpenVerdict, Misordered, Openable, StructSizeOf, Source, Enc32, Put;
    ReorderFacts(mem, b, from, to, bufsize);
    HeaderInside(b);
    var tmp := OpenTmp(b, from, to);
    PutSlice(mem, from + 28, Enc32(boot), tmp, tmp + HEADER_SIZE);
  }

  // ---------------------------------------------------------------- when it survives

  lemma UncoveredWord(mem: seq<byte>, from: nat, to: nat, img: seq<byte>, boot: u32)
    requires from + HEADER_SIZE <= |mem| && to + |img| <= |mem| && (to + |img| <= from + 28 || from + 32 <= to)
    ensures Dec32(Put(WithBoot(mem, from, boot), to, img), from + 28) == boot
  {
    hide Dec32, Enc32, Put;
    var now := WithBoot(mem, from, boot);
    PutSlice(now, to, img, from + 28, from + 32);
    PutRead(mem, from + 28, Enc32(boot));
    DecEnc(Put(now, to, img), from + 28, boot);
  }

  /** A byte of the word that the image covers is the image's. */
  lemma CoveredByte(mem: seq<byte>, from: nat, to: nat, img: seq<byte>, p: nat)
    requires from + HEADER_SIZE <= |mem| && to + |img| <= |mem| && from + 28 <= p < from + 32 && to <= p < to + |img|
    ensures Enc32(Dec32(Put(mem, to, img), from + 28))[p - from - 28] == img[p - to]
  {
    hide Dec32, Enc32;
    var c := Put(mem, to, img);
    EncDec(c, from + 28);
    assert c[from + 28..from + 32][p - from - 28] == c[p] == img[p - to];
  }

  lemma SameBytes()
    ensures Enc32(0) == [0, 0, 0, 0] && Enc32(0x0101_0101) == [1, 1, 1, 1]
  {
  }

  /**
   The boot CPU survives a reordering whatever it is, exactly when the new image does not touch the word of
   the old header that holds it.
   */
  lemma BootKeptExactly(mem: seq<byte>, b: seq<byte>, from: nat, to: nat, bufsize: nat)
    requires Reorders(mem, b, from, to, bufsize)
    ensures to + OpenSize(b) <= from + 28 || from + 32 <= to
      <==> forall boot: u32 :: BootKept(mem, from, to, bufsize, boot)
  {
    hide Hdr, BlobAt, Reorders, OpenImage, WithBoot, Dec32, Enc32, Put, Openable, StructSizeOf, Source;
    InMemory(mem, b, from, to, bufsize);
    ReorderFacts(mem, b, from, to, bufsize);
    var img := OpenImage(mem, b, from, to, bufsize);
    forall boot: u32 ensures BootKept(mem, from, to, bufsize, boot)
      <==> Dec32(Put(WithBoot(mem, from, boot), to, img), from + 28) == boot {
      BootIgnored(mem, b, from, to, bufsize, boot);
    }
    if to + OpenSize(b) <= from + 28 || from + 32 <= to {
      forall boot: u32 ensures BootKept(mem, from, to, bufsize, boot) {
        UncoveredWord(mem, from, to, img, boot);
      }
    } else {
      var p := if to <= from + 28 then from + 28 else to;
      var boot: u32 := if img[p - to] == 0 then 0x0101_0101 else 0;
      CoveredByte(WithBoot(mem, from, boot), from, to, img, p);
      SameBytes();
      assert !BootKept(mem, from, to, bufsize, boot);
    }
  }

  lemma InMemory(mem: seq<byte>, b: seq<byte>, from: nat, to: nat, bufsize: nat)
    requires Reorders(mem, b, from, to, bufsize)
    ensures from + HEADER_SIZE <= |mem| && to + bufsize <= |mem| && bufsize < INT_MAX
    ensures Openable(b) && StructSizeOf(b).Size? && Sized(b)
  {
  }

  /** Where the image covers the word, the boot CPU is read from the image. */
  lemma BootFromImage(mem: seq<byte>, b: seq<byte>, from: nat, to: nat, bufsize: nat)
    requires Reorders(mem, b, from, to, bufsize) && to <= from + 28 && from + 32 <= to + OpenSize(b)
    ensures OpenBoot(mem, b, from, to, bufsize) == Dec32(OpenImage(mem, b, from, to, bufsize), from + 28 - to)
  {
    hide Hdr, Reorders, OpenImage, Dec32, BlobAt, Put;
    ReorderFacts(mem, b, from, to, bufsize);
    InMemory(mem, b, from, to, bufsize);
    var img := OpenImage(mem, b, from, to, bufsize);
    PutRead(mem, to, img);
    SliceSlice(Put(mem, to, img), to, to + |img|, from + 28 - to, from + 32 - to);
    DecSlice(Put(mem, to, img), from + 28, img, from + 28 - to);
  }

  /** In a buffer eight bytes behind the old blob every boot CPU becomes 17, the version that was just written. */
  lemma BootIsVersion(mem: seq<byte>, b: seq<byte>, from: nat, bufsize: nat)
    requires Reorders(mem, b, from, from + 8, bufsize)
    ensures OpenBoot(mem, b, from, from + 8, bufsize) == 17
  {
    hide Hdr, Reorders, Dec32, BlobAt, Put, Openable, StructSizeOf, OpenHeader, Source, As17;
    ReorderFacts(mem, b, from, from + 8, bufsize);
    InMemory(mem, b, from, from + 8, bufsize);
    BootFromImage(mem, b, from, from + 8, bufsize);
    var h, m, tmp := As17(b), RsvSize(b), OpenTmp(b, from, from + 8);
    var h0 := mem[tmp..tmp + HEADER_SIZE];
    var img, h4 := OpenImage(mem, b, from, from + 8, bufsize), OpenHeader(h0, m, h.sizeStruct, h.sizeStrings, bufsize);
    OpenHeaderIs(h0, m, h.sizeStruct, h.sizeStrings, bufsize);
    VersionWord(h4);
    assert img[20..24] == h4[20..24];
    DecSlice(img, 20, h4, 20);
  }

  lemma VersionWord(h: seq<byte>)
    requires |h| == HEADER_SIZE
    ensures Hdr(h).version == Dec32(h, 20)
  {
  }

  /** A memory in which this happens: the structure block comes first, and the boot CPU was 5. */
  lemma BootLost()
    ensures exists mem: seq<byte> ::
      Reorders(mem, BlobAt(mem, 0), 0, 8, 144) && Hdr(BlobAt(mem, 0)).bootCpu == 5
        && OpenBoot(mem, BlobAt(mem, 0), 0, 8, 144) == 17
  {
    hide Hdr, RsvCount, Word, Words, OpenBoot;
    var ws: seq<u32> :=
      [FDT_MAGIC, 76, 40, 72, 56, 17, 16, 5, 4, 16, FDT_BEGIN_NODE, 0, FDT_END_NODE, FDT_END, 0, 0, 0, 0, 0];
    var b := Words(ws);
    var mem := b + Zeros(76);
    LossyBoot(ws, b, mem);
    BootIsVersion(mem, mem, 0, 144);
  }

  lemma LossyBoot(ws: seq<u32>, b: seq<byte>, mem: seq<byte>)
    requires ws ==
      [FDT_MAGIC, 76, 40, 72, 56, 17, 16, 5, 4, 16, FDT_BEGIN_NODE, 0, FDT_END_NODE, FDT_END, 0, 0, 0, 0, 0]
    requires b == Words(ws) && mem == b + Zeros(76)
    ensures BlobAt(mem, 0) == mem && Hdr(mem).bootCpu == 5 && Reorders(mem, mem, 0, 8, 144)
  {
    hide Hdr, RsvCount, Word, Words;
    WordsOf(ws, b);
    assert mem[..HEADER_SIZE] == b[..HEADER_SIZE];
    HdrKept(mem, b);
    EmptyList(ws, b, mem);
  }

  lemma EmptyList(ws: seq<u32>, b: seq<byte>, mem: seq<byte>)
    requires |ws| == 19 && ws[16] == 0 && ws[17] == 0 && |b| == 76 && Word(b, 16) == ws[16]
      && Word(b, 17) == ws[17] && mem == b + Zeros(76)
    requires Sized(mem) && Hdr(mem).offRsv == 56 && Hdr(mem).totalsize == 76
    ensures RsvCount(mem, 0) == Some(0)
  {
    hide Hdr, Dec32;
    assert mem[64..68] == b[64..68] && mem[68..72] == b[68..72];
    DecSlice(mem, 64, b, 64);
    DecSlice(mem, 68, b, 68);
  }
}
