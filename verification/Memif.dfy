/**
 fesvr/memif.cc and fesvr/htif.cc: byte-granular access to target memory that can only be accessed in
 aligned chunks of bounded size.
 */
module Memif {
  import opened Bytes

  function Min(a: nat, b: nat): nat { if a < b then a else b }

  /**
   A backend that keeps the chunk contract: what its callers must observe is required, so every call
   in this module is aligned, a whole number of alignment units and at most the maximum size.
   */
  class ChunkedMem {
    var mem: seq<byte>
    const align: nat
    const max: nat

    ghost predicate Valid()
      reads this
    {
      0 < align && 0 < max && max % align == 0 && |mem| % align == 0
    }

    constructor (mem: seq<byte>, align: nat, max: nat)
      requires 0 < align && 0 < max && max % align == 0 && |mem| % align == 0
      ensures this.mem == mem && this.align == align && this.max == max && Valid()
    {
      this.mem, this.align, this.max := mem, align, max;
    }

    method ReadChunk(taddr: nat, len: nat) returns (dst: seq<byte>)
      requires Valid() && taddr % align == 0 && len % align == 0 && len <= max && taddr + len <= |mem|
      ensures dst == mem[taddr..taddr + len]
    {
      dst := mem[taddr..taddr + len];
    }

    method WriteChunk(taddr: nat, len: nat, src: seq<byte>)
      requires Valid() && taddr % align == 0 && len % align == 0 && len <= max && taddr + len <= |mem| && len <= |src|
      modifies this
      ensures Valid() && |mem| == old(|mem|) && mem == Put(old(mem), taddr, src[..len])
    {
      mem := Put(mem, taddr, src[..len]);
    }

    /** `htif_t::clear_chunk`: zeros, one chunk after the other. */
    method ClearChunk(taddr: nat, len: nat)
      requires Valid() && taddr % align == 0 && len % align == 0 && taddr + len <= |mem|
      modifies this
      ensures Valid() && |mem| == old(|mem|) && mem == Put(old(mem), taddr, Zeros(len))
    {
      ghost var mem0 := mem;
      var zeros := Zeros(max);
      var pos := 0;
      PutNone(mem, taddr);
      while pos < len
        invariant pos % align == 0 && Valid() && |mem| == |mem0|
        invariant pos <= len || pos - len < max
        invariant mem == Put(mem0, taddr, Zeros(Min(pos, len)))
        decreases len - pos
      {
        var n := Min(len - pos, max);
        Aligned(len, pos, align);
        Aligned(taddr + pos, taddr, align);
        AlignedPlus(taddr, pos, align);
        WriteChunk(taddr + pos, n, zeros);
        PutNext(mem0, taddr, Zeros(pos), zeros[..n]);
        assert Zeros(pos) + zeros[..n] == Zeros(pos + n);
        AlignedPlus(pos, max, align);
        pos := pos + max;
      }
    }
  }

  /** Putting later bytes first. */
  lemma PutBefore(s: seq<byte>, at: nat, x: seq<byte>, y: seq<byte>)
    requires at + |x| + |y| <= |s|
    ensures Put(Put(s, at + |x|, y), at, x) == Put(s, at, x + y)
  {
  }

  lemma Aligned(a: nat, b: nat, align: nat)
    requires 0 < align && b % align == 0 && b <= a
    ensures (a - b) % align == a % align
  {
    ModPlus(a - b, b, align);
  }

  lemma AlignedPlus(a: nat, b: nat, align: nat)
    requires 0 < align && a % align == 0 && b % align == 0
    ensures (a + b) % align == 0
  {
    ModPlus(a, b, align);
  }

  lemma ModPlus(a: nat, b: nat, align: nat)
    requires 0 < align && b % align == 0
    ensures (a + b) % align == a % align
  {
    var q, p := b / align, a / align;
    assert a + b == (p + q) * align + a % align;
    ModUnique(a + b, p + q, a % align, align);
  }

  lemma ModUnique(x: int, q: int, r: int, d: int)
    requires 0 < d && 0 <= r < d && x == q * d + r
    ensures x % d == r
  {
    var e := x / d - q;
    assert e * d == r - x % d;
    Multiples(1, e, d);
    Multiples(e, -1, d);
  }

  lemma Multiples(p: int, q: int, d: int)
    requires 0 < d
    ensures p <= q ==> p * d <= q * d
  {
    if p <= q {
      assert (q - p) * d >= 0;
    }
  }

  /** The start of the unit that contains an address, and what is left of the unit. */
  lemma UnitStart(addr: nat, align: nat)
    requires 0 < align
    ensures addr % align <= addr && (addr - addr % align) % align == 0 && (addr + (align - addr % align)) % align == 0
  {
    var q := addr / align;
    assert addr == q * align + addr % align;
    ModUnique(addr - addr % align, q, 0, align);
    ModUnique(addr + (align - addr % align), q + 1, 0, align);
  }

  lemma UnitFits(addr: nat, align: nat, size: nat)
    requires 0 < align && size % align == 0 && addr % align == 0 && addr < size
    ensures addr + align <= size
  {
    var p, q := addr / align, size / align;
    assert addr == p * align && size == q * align;
    Multiples(q, p, align);
    Multiples(p + 1, q, align);
  }

  /** The unaligned front of a read: the part of the first unit from `addr` on. */
  method ReadFront(m: ChunkedMem, addr: nat, len: nat, dst: array<byte>) returns (this_len: nat)
    requires m.Valid() && addr + len <= |m.mem| && len <= dst.Length
    modifies dst
    ensures this_len <= len && (this_len < len ==> (addr + this_len) % m.align == 0)
    ensures dst[..] == Put(old(dst[..]), 0, m.mem[addr..addr + this_len])
  {
    var align := m.align;
    this_len := 0;
    PutNone(dst[..], 0);
    if len != 0 && addr % align != 0 {
      var off := addr % align;
      this_len := Min(len, align - off);
      UnitStart(addr, align);
      UnitFits(addr - off, align, |m.mem|);
      MaxUnit(m.max, align);
      var chunk := m.ReadChunk(addr - off, align);
      Memcpy(dst, 0, chunk[off..off + this_len]);
      assert chunk[off..off + this_len] == m.mem[addr..addr + this_len];
    }
  }

  /** The partial unit at the end of a read. */
  method ReadBack(m: ChunkedMem, addr: nat, len: nat, dst: array<byte>, bytes: nat) returns (rest: nat)
    requires m.Valid() && addr + len <= |m.mem| && bytes + len <= dst.Length && (len > 0 ==> addr % m.align == 0)
    modifies dst
    ensures rest <= len && rest % m.align == 0
    ensures dst[..] == Put(old(dst[..]), bytes + rest, m.mem[addr + rest..addr + len])
  {
    var align := m.align;
    rest := len;
    if len % align != 0 {
      var this_len := len % align;
      var start := len - this_len;
      UnitStart(len, align);
      AlignedPlus(addr, start, align);
      UnitFits(addr + start, align, |m.mem|);
      MaxUnit(m.max, align);
      var chunk := m.ReadChunk(addr + start, align);
      Memcpy(dst, bytes + start, chunk[..this_len]);
      rest := start;
      assert chunk[..this_len] == m.mem[addr + rest..addr + len];
    } else {
      PutNone(dst[..], bytes + len);
    }
  }

  /** The aligned middle, in chunks of at most the maximum size. */
  method ReadChunks(m: ChunkedMem, addr: nat, len: nat, dst: array<byte>, bytes: nat)
    requires m.Valid() && addr + len <= |m.mem| && bytes + len <= dst.Length
    requires len % m.align == 0 && (len > 0 ==> addr % m.align == 0)
    modifies dst
    ensures dst[..] == Put(old(dst[..]), bytes, m.mem[addr..addr + len])
  {
    hide Put;
    var align := m.align;
    ghost var tail := dst[..];
    var pos := 0;
    PutNone(tail, bytes);
    assert m.mem[addr..addr + 0] == [];
    while pos < len
      invariant pos % align == 0 && (pos <= len || pos - len < m.max)
      invariant dst[..] == Put(tail, bytes, m.mem[addr..addr + Min(pos, len)])
      decreases len - pos
    {
      var n := Min(m.max, len - pos);
      Aligned(len, pos, align);
      AlignedPlus(addr, pos, align);
      var chunk := m.ReadChunk(addr + pos, n);
      Memcpy(dst, bytes + pos, chunk);
      PutNext(tail, bytes, m.mem[addr..addr + pos], chunk);
      assert m.mem[addr..addr + pos] + chunk == m.mem[addr..addr + pos + n];
      AlignedPlus(pos, m.max, align);
      pos := pos + m.max;
    }
  }

  /** `memif_t::read`: exactly the requested bytes, wherever they start and end. */
  method Read(m: ChunkedMem, addr0: nat, len0: nat, dst: array<byte>)
    requires m.Valid() && addr0 + len0 <= |m.mem| && len0 <= dst.Length
    modifies dst
    ensures dst[..] == Put(old(dst[..]), 0, m.mem[addr0..addr0 + len0])
  {
    hide Put;
    ghost var before := dst[..];
    var bytes := ReadFront(m, addr0, len0, dst);
    var addr, all := addr0 + bytes, len0 - bytes;
    var len := ReadBack(m, addr, all, dst, bytes);
    ReadChunks(m, addr, len, dst, bytes);
    ThreePieces(before, m.mem, addr0, bytes, len, all);
  }

  /** The unaligned front, the partial unit at the end and the aligned middle make the whole. */
  lemma ThreePieces(before: seq<byte>, mem: seq<byte>, addr0: nat, bytes: nat, len: nat, all: nat)
    requires addr0 + bytes + all <= |mem| && bytes + all <= |before| && len <= all
    ensures var addr := addr0 + bytes;
      var mid := Put(before, 0, mem[addr0..addr0 + bytes]);
      Put(Put(mid, bytes + len, mem[addr + len..addr + all]), bytes, mem[addr..addr + len])
        == Put(before, 0, mem[addr0..addr + all])
  {
    var addr := addr0 + bytes;
    var mid := Put(before, 0, mem[addr0..addr0 + bytes]);
    PutBefore(mid, bytes, mem[addr..addr + len], mem[addr + len..addr + all]);
    assert mem[addr..addr + len] + mem[addr + len..addr + all] == mem[addr..addr + all];
    PutNext(before, 0, mem[addr0..addr0 + bytes], mem[addr..addr + all]);
    assert mem[addr0..addr0 + bytes] + mem[addr..addr + all] == mem[addr0..addr + all];
  }

  lemma MaxUnit(max: nat, align: nat)
    requires 0 < align && 0 < max && max % align == 0
    ensures align <= max && align % align == 0
  {
    var q := max / align;
    assert max == q * align;
    Multiples(q, 0, align);
    Multiples(1, q, align);
    ModUnique(align, 1, 0, align);
  }

  // ---------------------------------------------------------------- writing

  /** The unaligned front of a write: the first unit is read, patched and written back. */
  method WriteFront(m: ChunkedMem, addr: nat, len: nat, src: seq<byte>) returns (this_len: nat)
    requires m.Valid() && addr + len <= |m.mem| && len == |src|
    modifies m
    ensures m.Valid() && |m.mem| == |old(m.mem)|
    ensures this_len <= len && (this_len < len ==> (addr + this_len) % m.align == 0)
    ensures m.mem == Put(old(m.mem), addr, src[..this_len])
  {
    var align := m.align;
    this_len := 0;
    PutNone(m.mem, addr);
    if len != 0 && addr % align != 0 {
      var off := addr % align;
      this_len := Min(len, align - off);
      UnitStart(addr, align);
      UnitFits(addr - off, align, |m.mem|);
      MaxUnit(m.max, align);
      var chunk := m.ReadChunk(addr - off, align);
      chunk := Put(chunk, off, src[..this_len]);
      PatchUnit(m.mem, addr - off, align, off, src[..this_len]);
      m.WriteChunk(addr - off, align, chunk);
    }
  }

  /** Writing back a patched unit changes only the patch. */
  lemma PatchUnit(mem: seq<byte>, at: nat, n: nat, off: nat, x: seq<byte>)
    requires at + n <= |mem| && off + |x| <= n
    ensures Put(mem, at, Put(mem[at..at + n], off, x)[..n]) == Put(mem, at + off, x)
  {
  }

  /** The partial unit at the end of a write. */
  method WriteBack(m: ChunkedMem, addr: nat, len: nat, src: seq<byte>) returns (rest: nat)
    requires m.Valid() && addr + len <= |m.mem| && len == |src| && (len > 0 ==> addr % m.align == 0)
    modifies m
    ensures m.Valid() && |m.mem| == |old(m.mem)|
    ensures rest <= len && rest % m.align == 0
    ensures m.mem == Put(old(m.mem), addr + rest, src[rest..])
  {
    var align := m.align;
    rest := len;
    if len % align != 0 {
      var this_len := len % align;
      var start := len - this_len;
      UnitStart(len, align);
      AlignedPlus(addr, start, align);
      UnitFits(addr + start, align, |m.mem|);
      MaxUnit(m.max, align);
      var chunk := m.ReadChunk(addr + start, align);
      chunk := Put(chunk, 0, src[start..]);
      PatchUnit(m.mem, addr + start, align, 0, src[start..]);
      m.WriteChunk(addr + start, align, chunk);
      rest := start;
    } else {
      PutNone(m.mem, addr + len);
    }
  }

  /** Whether there is anything to write and all of it is zero. */
  method AllZero(src: seq<byte>) returns (all_zero: bool)
    ensures all_zero <==> src != [] && src == Zeros(|src|)
  {
    all_zero := |src| != 0;
    var i := 0;
    while i < |src|
      invariant 0 <= i <= |src|
      invariant all_zero <==> src != [] && forall k :: 0 <= k < i ==> src[k] == 0
    {
      all_zero := all_zero && src[i] == 0;
      i := i + 1;
    }
    if all_zero {
      assert src == Zeros(|src|);
    } else if src != [] {
      assert exists k :: 0 <= k < |src| && src[k] != 0;
    }
  }

  /** The aligned middle, in chunks of at most the maximum size. */
  method WriteChunks(m: ChunkedMem, addr: nat, src: seq<byte>)
    requires m.Valid() && addr + |src| <= |m.mem| && |src| % m.align == 0 && (src != [] ==> addr % m.align == 0)
    modifies m
    ensures m.Valid() && |m.mem| == |old(m.mem)|
    ensures m.mem == Put(old(m.mem), addr, src)
  {
    hide Put;
    var align, len, max_chunk := m.align, |src|, m.max;
    ghost var mem0 := m.mem;
    var pos := 0;
    PutNone(mem0, addr);
    while pos < len
      invariant pos % align == 0 && (pos <= len || pos - len < m.max) && m.Valid() && |m.mem| == |mem0|
      invariant m.mem == Put(mem0, addr, src[..Min(pos, len)])
      decreases len - pos
    {
      var n := Min(max_chunk, len - pos);
      Aligned(len, pos, align);
      AlignedPlus(addr, pos, align);
      m.WriteChunk(addr + pos, n, src[pos..pos + n]);
      assert src[pos..pos + n][..n] == src[pos..pos + n];
      PutNext(mem0, addr, src[..pos], src[pos..pos + n]);
      assert src[..pos] + src[pos..pos + n] == src[..pos + n];
      AlignedPlus(pos, max_chunk, align);
      pos := pos + max_chunk;
    }
    assert src[..len] == src;
  }

  /** `memif_t::write`: exactly the given bytes are stored, also when they are all zero. */
  method Write(m: ChunkedMem, addr0: nat, src: seq<byte>)
    requires m.Valid() && addr0 + |src| <= |m.mem|
    modifies m
    ensures m.Valid() && m.mem == Put(old(m.mem), addr0, src)
  {
    hide Put;
    ghost var mem0 := m.mem;
    var bytes := WriteFront(m, addr0, |src|, src);
    var addr, rest := addr0 + bytes, src[bytes..];
    var len := WriteBack(m, addr, |rest|, rest);
    var all_zero := AllZero(rest[..len]);
    if all_zero {
      m.ClearChunk(addr, len);
    } else {
      WriteChunks(m, addr, rest[..len]);
    }
    WrittenPieces(mem0, addr0, src, bytes, len);
  }

  lemma WrittenPieces(mem: seq<byte>, addr: nat, src: seq<byte>, bytes: nat, len: nat)
    requires addr + |src| <= |mem| && bytes + len <= |src|
    ensures var rest := src[bytes..];
      Put(Put(Put(mem, addr, src[..bytes]), addr + bytes + len, rest[len..]), addr + bytes, rest[..len])
        == Put(mem, addr, src)
  {
    var rest := src[bytes..];
    var mid := Put(mem, addr, src[..bytes]);
    PutBefore(mid, addr + bytes, rest[..len], rest[len..]);
    assert rest[..len] + rest[len..] == rest;
    PutNext(mem, addr, src[..bytes], rest);
    assert src[..bytes] + rest == src;
  }
}
