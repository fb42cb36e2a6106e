/** fdt/fdt_sw.c: giving an unfinished blob a new buffer, which may overlap the old one. */
module FdtResize {
  import opened Bytes
  import opened Tokens
  import opened Blobs
  import opened Layouts
  import opened SwLayouts
  import opened Fdt
  import opened FdtSw
  import opened FdtPack

  /** The part that stays at the start of the buffer: header, reservations and structure. */
  function HeadSize(h: Header): nat { h.offStruct + h.sizeStruct }

  /** The header in the new buffer; the state is encoded in the strings offset and does not change. */
  function ResizedHeader(h: Header, size: u32): Header {
    h.(totalsize := size, offStrings := if h.offStrings == 0 then 0 else size)
  }

  /** Memory with head and tail in their new places. */
  function Resettled(mem: seq<byte>, to: nat, head: seq<byte>, bufsize: nat, tail: seq<byte>): (r: seq<byte>)
    requires |head| + |tail| <= bufsize && to + bufsize <= |mem|
    ensures |r| == |mem|
  {
    Put(Put(mem, to, head), to + bufsize - |tail|, tail)
  }

  /** Moving the head first leaves the old tail alone when the new buffer does not start behind the old one. */
  lemma HeadFirst(mem: seq<byte>, from: nat, to: nat, h: nat, t: nat, total: nat, bufsize: nat)
    requires h + t <= total && h + t <= bufsize && from + total <= |mem| && to + bufsize <= |mem| && to <= from
    ensures var head, tail := mem[from..from + h], mem[from + total - t..from + total];
      Moved(Moved(mem, to, from, h), to + bufsize - t, from + total - t, t) == Resettled(mem, to, head, bufsize, tail)
  {
    var m := Moved(mem, to, from, h);
    PutSlice(mem, to, mem[from..from + h], from + total - t, from + total);
    assert m[from + total - t..from + total - t + t] == mem[from + total - t..from + total];
  }

  /** And moving the tail first leaves the old head alone when it does. */
  lemma TailFirst(mem: seq<byte>, from: nat, to: nat, h: nat, t: nat, total: nat, bufsize: nat)
    requires h + t <= total && h + t <= bufsize && from + total <= |mem| && to + bufsize <= |mem| && from < to
    ensures var head, tail := mem[from..from + h], mem[from + total - t..from + total];
      Moved(Moved(mem, to + bufsize - t, from + total - t, t), to, from, h) == Resettled(mem, to, head, bufsize, tail)
  {
    hide Put;
    var head, tail := mem[from..from + h], mem[from + total - t..from + total];
    assert mem[from + total - t..from + total - t + t] == tail;
    var m := Moved(mem, to + bufsize - t, from + total - t, t);
    PutSlice(mem, to + bufsize - t, tail, from, from + h);
    PutsCommute(mem, to, head, to + bufsize - t, tail);
  }

  lemma PutsCommute(s: seq<byte>, i: nat, x: seq<byte>, j: nat, y: seq<byte>)
    requires i + |x| <= j && j + |y| <= |s|
    ensures Put(Put(s, i, x), j, y) == Put(Put(s, j, y), i, x)
  {
  }

  /** What the new buffer then starts and ends with, and that nothing outside it has changed. */
  lemma ResettledParts(mem: seq<byte>, to: nat, head: seq<byte>, bufsize: nat, tail: seq<byte>)
    requires |head| + |tail| <= bufsize && to + bufsize <= |mem|
    ensures var c := BlobAt(Resettled(mem, to, head, bufsize, tail), to);
      |c| >= bufsize && c[..|head|] == head && c[bufsize - |tail|..bufsize] == tail
    ensures ChangedWithin(mem, Resettled(mem, to, head, bufsize, tail), to, bufsize)
  {
    var at := to + bufsize - |tail|;
    var r := Resettled(mem, to, head, bufsize, tail);
    forall i | 0 <= i < |head| ensures r[to..][i] == head[i] {
      assert r[to..][i] == r[to + i];
    }
    forall i | 0 <= i < |tail| ensures r[to..][bufsize - |tail| + i] == tail[i] {
      assert r[to..][bufsize - |tail| + i] == r[at + i];
    }
  }

  /** Header words written at the start of a blob in memory. */
  lemma WordInMemory(mem: seq<byte>, to: nat, k: nat, v: u32)
    requires to + HEADER_SIZE <= |mem| && k < 10
    ensures BlobAt(Put(mem, to + 4 * k, Enc32(v)), to) == Put(BlobAt(mem, to), 4 * k, Enc32(v))
  {
    hide Enc32;
  }

  /** The blob in its new buffer: the same reservations, structure and pending strings. */
  lemma ResizedParts(b: seq<byte>, c: seq<byte>, d: seq<byte>, bufsize: u32)
    requires SwSound(b) && bufsize < INT_MAX && bufsize <= |c| == |d|
    requires HeadSize(Hdr(b)) + Hdr(b).sizeStrings <= bufsize
    requires c[..HeadSize(Hdr(b))] == b[..HeadSize(Hdr(b))] && c[bufsize - Hdr(b).sizeStrings..bufsize] == TailOf(b)
    requires Hdr(d) == ResizedHeader(Hdr(b), bufsize)
    requires forall i, j :: HEADER_SIZE <= i <= j <= |c| ==> d[i..j] == c[i..j]
    ensures SwSound(d) && SwRsv(d) == SwRsv(b) && StructOf(d) == StructOf(b) && TailOf(d) == TailOf(b)
  {
    hide Hdr;
    var h, n := Hdr(b), HeadSize(Hdr(b));
    PrefixSlice(b, c, n, SW_HEADER, h.offStruct);
    PrefixSlice(b, c, n, h.offStruct, n);
  }

  lemma PrefixSlice(b: seq<byte>, c: seq<byte>, n: nat, i: nat, j: nat)
    requires n <= |b| && n <= |c| && b[..n] == c[..n] && i <= j <= n
    ensures b[i..j] == c[i..j]
  {
    assert b[i..j] == b[..n][i..j] && c[i..j] == c[..n][i..j];
  }

  /** So it is still being built, in the same state, from the same calls. */
  lemma StillBuilding(b: seq<byte>, d: seq<byte>, rsv: seq<Rsv>, toks: seq<Token>, log: seq<Event>, bufsize: u32)
    requires Building(b, rsv, toks, log) && SwSound(d) && Hdr(d) == ResizedHeader(Hdr(b), bufsize) && bufsize > 0
    requires StructOf(d) == StructOf(b) && TailOf(d) == TailOf(b) && SwRsv(d) == SwRsv(b)
    ensures Building(d, rsv, toks, log)
  {
    hide Hdr, StructOf, TailOf, SwRsv, Enc;
  }

  /** The header words written last, in the new buffer. */
  method FinishResize(mem: array<byte>, to: nat, bufsize: u32)
    requires to + HEADER_SIZE <= mem.Length
    modifies mem
    ensures var c, d := BlobAt(old(mem[..]), to), BlobAt(mem[..], to);
      && |c| == |d| >= HEADER_SIZE && Hdr(d) == ResizedHeader(Hdr(c), bufsize)
      && forall i, j :: HEADER_SIZE <= i <= j <= |c| ==> d[i..j] == c[i..j]
    ensures ChangedWithin(old(mem[..]), mem[..], to, HEADER_SIZE)
  {
    hide Hdr, Put, Dec32, Enc32, Word, BlobAt;
    ghost var mem0, c := mem[..], BlobAt(mem[..], to);
    BlobLength(mem0, to);
    WordAtStart(c, W_TOTALSIZE, bufsize);
    WordInMemory(mem0, to, W_TOTALSIZE, bufsize);
    SetMemWord(mem, to, W_TOTALSIZE, bufsize);
    PutWithin(mem0, to + 4 * W_TOTALSIZE, Enc32(bufsize), to, HEADER_SIZE);
    ghost var mem1, d := mem[..], BlobAt(mem[..], to);
    HeaderWords(mem1, to);
    if Dec32(mem[..], to + 4 * W_OFF_STRINGS) != 0 {
      WordAtStart(d, W_OFF_STRINGS, bufsize);
      WordInMemory(mem1, to, W_OFF_STRINGS, bufsize);
      SetMemWord(mem, to, W_OFF_STRINGS, bufsize);
      PutWithin(mem1, to + 4 * W_OFF_STRINGS, Enc32(bufsize), to, HEADER_SIZE);
    }
  }

  lemma WordAtStart(b: seq<byte>, k: nat, v: u32)
    requires |b| >= HEADER_SIZE && k < 10
    ensures Hdr(Put(b, 4 * k, Enc32(v))) == WithWord(Hdr(b), k, v)
    ensures forall i, j :: HEADER_SIZE <= i <= j <= |b| ==> Put(b, 4 * k, Enc32(v))[i..j] == b[i..j]
  {
    hide Hdr, Put, Enc32;
    HdrWord(b, k, v);
    forall i, j | HEADER_SIZE <= i <= j <= |b| ensures Put(b, 4 * k, Enc32(v))[i..j] == b[i..j] {
      HeaderWrite(b, k, v, i, j);
    }
  }

  lemma HeaderWords(mem: seq<byte>, at: nat)
    requires at + HEADER_SIZE <= |mem|
    ensures |BlobAt(mem, at)| >= HEADER_SIZE
    ensures var h := Hdr(BlobAt(mem, at));
      && Dec32(mem, at + 4 * W_TOTALSIZE) == h.totalsize && Dec32(mem, at + 4 * W_OFF_STRUCT) == h.offStruct
      && Dec32(mem, at + 4 * W_OFF_STRINGS) == h.offStrings
      && Dec32(mem, at + 4 * W_SIZE_STRINGS) == h.sizeStrings && Dec32(mem, at + 4 * W_SIZE_STRUCT) == h.sizeStruct
  {
    hide Dec32, BlobAt;
    BlobLength(mem, at);
    SourceWords(mem, at);
    WordAt(mem, at, W_TOTALSIZE);
  }

  /** What `fdt_resize` may rely on: the parts fit, so its internal check never fails. */
  lemma BuildingSound(b: seq<byte>, rsv: seq<Rsv>, toks: seq<Token>, log: seq<Event>)
    requires Building(b, rsv, toks, log)
    ensures var h := Hdr(b);
      SwSound(b) && SW_HEADER <= HeadSize(h) && HeadSize(h) + h.sizeStrings <= h.totalsize <= |b|
  {
  }

  lemma WithinWider(a: seq<byte>, b: seq<byte>, c: seq<byte>, at: nat, m: nat, n: nat)
    requires ChangedWithin(a, b, at, n) && ChangedWithin(b, c, at, m) && m <= n
    ensures ChangedWithin(a, c, at, n)
  {
  }

  /** The old head and tail, seen from the blob. */
  lemma OldParts(mem: seq<byte>, from: nat, n: nat, t: nat, total: nat)
    requires from + total <= |mem| && n <= total && t <= total
    ensures var b := BlobAt(mem, from);
      |b| == |mem| - from && mem[from..from + n] == b[..n] && mem[from + total - t..from + total] == b[total - t..total]
  {
  }

  lemma SameStart(b: seq<byte>, c: seq<byte>, n: nat)
    requires HEADER_SIZE <= n <= |b| && n <= |c| && b[..n] == c[..n]
    ensures Hdr(b) == Hdr(c)
  {
    hide Hdr;
    assert b[..HEADER_SIZE] == b[..n][..HEADER_SIZE] == c[..HEADER_SIZE];
    HdrKept(b, c);
  }

  lemma TailIs(b: seq<byte>)
    requires SwSound(b)
    ensures Hdr(b).sizeStrings <= Hdr(b).totalsize <= |b|
    ensures TailOf(b) == b[Hdr(b).totalsize - Hdr(b).sizeStrings..Hdr(b).totalsize]
  {
  }

  /**
   `fdt_resize`, for buffers that overlap in any way: the reservations, the nodes and the properties
   written so far are kept, every pending name is found at its negative offset, the state is the same,
   and nothing outside the new buffer changes. It fails exactly when they do not fit.
   */
  method Resize(mem: array<byte>, from: nat, to: nat, bufsize: nat, ghost rsv: seq<Rsv>, ghost toks: seq<Token>,
      ghost log: seq<Event>)
    returns (err: int)
    requires from <= mem.Length && Building(BlobAt(mem[..], from), rsv, toks, log)
    requires to + bufsize <= mem.Length && bufsize < INT_MAX
    modifies mem
    ensures var h := Hdr(BlobAt(old(mem[..]), from));
      && err == (if HeadSize(h) + h.sizeStrings > bufsize then -NOSPACE else 0)
      && (err != 0 ==> mem[..] == old(mem[..]))
      && (err == 0 ==>
            && ChangedWithin(old(mem[..]), mem[..], to, bufsize)
            && Hdr(BlobAt(mem[..], to)) == ResizedHeader(h, bufsize)
            && Building(BlobAt(mem[..], to), rsv, toks, log))
  {
    hide Hdr, Put, Dec32, Enc32, Word, Building, BlobAt, ChangedWithin, StructOf, TailOf, SwRsv, Resettled, Moved;
    ghost var mem0, b := mem[..], BlobAt(mem[..], from);
    BuildingSound(b, rsv, toks, log);
    ghost var h := Hdr(b);
    BlobLength(mem0, from);
    HeaderWords(mem0, from);
    var headsize := Dec32(mem[..], from + 4 * W_OFF_STRUCT) + Dec32(mem[..], from + 4 * W_SIZE_STRUCT);
    var tailsize := Dec32(mem[..], from + 4 * W_SIZE_STRINGS);
    var total := Dec32(mem[..], from + 4 * W_TOTALSIZE);
    if headsize + tailsize > bufsize {
      return -NOSPACE;
    }
    var oldtail, newtail := from + total - tailsize, to + bufsize - tailsize;
    if to <= from {
      Memmove(mem, to, from, headsize);
      Memmove(mem, newtail, oldtail, tailsize);
      HeadFirst(mem0, from, to, headsize, tailsize, total, bufsize);
    } else {
      Memmove(mem, newtail, oldtail, tailsize);
      Memmove(mem, to, from, headsize);
      TailFirst(mem0, from, to, headsize, tailsize, total, bufsize);
    }
    ghost var head, tail := mem0[from..from + headsize], mem0[oldtail..oldtail + tailsize];
    ghost var mem1 := mem[..];
    ResettledParts(mem0, to, head, bufsize, tail);
    OldParts(mem0, from, headsize, tailsize, total);
    SameStart(b, BlobAt(mem1, to), headsize);
    TailIs(b);
    FinishResize(mem, to, bufsize);
    WithinWider(mem0, mem1, mem[..], to, HEADER_SIZE, bufsize);
    err := 0;
    ResizedParts(b, BlobAt(mem1, to), BlobAt(mem[..], to), bufsize);
    StillBuilding(b, BlobAt(mem[..], to), rsv, toks, log, bufsize);
  }
}
