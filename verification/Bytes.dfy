/**
 Byte strings, big-endian words and the few memory primitives the C code relies on.
 A blob is a `seq<byte>` when it is only read and an `array<byte>` when it is edited.
 */
module Bytes {

  type byte = x: int | 0 <= x < 0x100
  type u32 = x: int | 0 <= x < 0x1_0000_0000
  type u64 = x: int | 0 <= x < 0x1_0000_0000_0000_0000

  datatype Option<+T> = None | Some(value: T)

  /** Unsigned 32-bit wrap-around. */
  function Wrap32(x: int): u32 { x % 0x1_0000_0000 }

  /** The next multiple of four (`FDT_TAGALIGN`). */
  function Align4(n: nat): (r: nat)
    ensures n <= r < n + 4 && r % 4 == 0
  {
    (n + 3) / 4 * 4
  }

  /** Aligning relative to an aligned base. */
  lemma AlignShift(s: nat, n: nat)
    requires s % 4 == 0
    ensures Align4(s + n) == s + Align4(n)
  {
    assert s == s / 4 * 4;
    assert (s + n + 3) / 4 == s / 4 + (n + 3) / 4;
  }

  lemma AlignMono(a: nat, b: nat)
    requires a <= b
    ensures Align4(a) <= Align4(b)
  {
  }

  lemma AlignedSum(a: nat, b: nat)
    requires a % 4 == 0 && b % 4 == 0
    ensures (a + b) % 4 == 0
  {
  }

  /** A slice of a slice. */
  lemma SliceSlice(s: seq<byte>, i: nat, j: nat, a: nat, b: nat)
    requires i <= j <= |s| && a <= b <= j - i
    ensures s[i..j][a..b] == s[i + a..i + b]
  {
    var x := s[i..j];
    var y := x[a..b];
    forall k | 0 <= k < |y| ensures y[k] == s[i + a..i + b][k] {
      assert y[k] == x[a + k] == s[i + (a + k)];
    }
    assert y == s[i + a..i + b];
  }

  /** The middle part of a concatenation, found by its position. */
  lemma Middle(s: seq<byte>, a: seq<byte>, x: seq<byte>, b: seq<byte>)
    requires a + x + b <= s
    ensures |a| + |x| <= |s| && s[|a|..|a| + |x|] == x
  {
    var t := a + x + b;
    forall k | 0 <= k < |x| ensures s[|a|..|a| + |x|][k] == x[k] {
      assert s[|a| + k] == t[|a| + k];
    }
  }

  // ---------------------------------------------------------------- big-endian words

  function Enc32(v: u32): (b: seq<byte>)
    ensures |b| == 4
  {
    [v / 0x100_0000, v / 0x1_0000 % 0x100, v / 0x100 % 0x100, v % 0x100]
  }

  function Dec32(b: seq<byte>, k: nat): u32
    requires k + 4 <= |b|
  {
    b[k] as int * 0x100_0000 + b[k + 1] as int * 0x1_0000 + b[k + 2] as int * 0x100 + b[k + 3]
  }

  /** Storing a word and loading it back gives the word. */
  lemma DecEnc(b: seq<byte>, k: nat, v: u32)
    requires k + 4 <= |b| && b[k..k + 4] == Enc32(v)
    ensures Dec32(b, k) == v
  {
    assert b[k] == b[k..k + 4][0] && b[k + 1] == b[k..k + 4][1];
    assert b[k + 2] == b[k..k + 4][2] && b[k + 3] == b[k..k + 4][3];
    WordDigits(v);
  }

  /** The first byte is the most significant. */
  lemma BigEndian(a: byte, b: byte, c: byte, d: byte)
    ensures Dec32([a, b, c, d], 0) == ((a as int * 256 + b) * 256 + c) * 256 + d
    ensures Enc32(0x0102_0304) == [1, 2, 3, 4]
  {
  }

  lemma WordDigits(v: u32)
    ensures v / 0x100_0000 * 0x100_0000 + v / 0x1_0000 % 0x100 * 0x1_0000 + v / 0x100 % 0x100 * 0x100 + v % 0x100 == v
  {
    var a, b := v / 0x100, v / 0x1_0000;
    assert a / 0x100 == b && b / 0x100 == v / 0x100_0000;
    assert b == b / 0x100 * 0x100 + b % 0x100;
    assert a == b * 0x100 + a % 0x100;
  }

  /** Loading four bytes and storing the word gives the bytes. */
  lemma EncDec(b: seq<byte>, k: nat)
    requires k + 4 <= |b|
    ensures Enc32(Dec32(b, k)) == b[k..k + 4]
  {
    var v := Dec32(b, k);
    assert v / 0x100 == b[k] as int * 0x1_0000 + b[k + 1] as int * 0x100 + b[k + 2];
    assert v / 0x1_0000 == b[k] as int * 0x100 + b[k + 1];
  }

  lemma DecSlice(a: seq<byte>, i: nat, b: seq<byte>, j: nat)
    requires i + 4 <= |a| && j + 4 <= |b| && a[i..i + 4] == b[j..j + 4]
    ensures Dec32(a, i) == Dec32(b, j)
  {
    var x := a[i..i + 4];
    assert a[i] == x[0] && a[i + 1] == x[1] && a[i + 2] == x[2] && a[i + 3] == x[3];
    assert b[j] == x[0] && b[j + 1] == x[1] && b[j + 2] == x[2] && b[j + 3] == x[3];
  }

  /** Words stored one after the other. */
  function Words(ws: seq<u32>): (b: seq<byte>)
    ensures |b| == 4 * |ws|
  {
    if ws == [] then [] else Enc32(ws[0]) + Words(ws[1..])
  }

  lemma {:induction false} WordsAt(ws: seq<u32>, k: nat)
    requires k < |ws|
    ensures Words(ws)[4 * k..4 * k + 4] == Enc32(ws[k]) && Dec32(Words(ws), 4 * k) == ws[k]
  {
    hide Dec32, Enc32;
    var b, r := Words(ws), Words(ws[1..]);
    assert b == Enc32(ws[0]) + r;
    if k == 0 {
      assert b[0..4] == Enc32(ws[0]);
    } else {
      WordsAt(ws[1..], k - 1);
      assert b[4 * k..4 * k + 4] == r[4 * (k - 1)..4 * (k - 1) + 4];
    }
    DecEnc(b, 4 * k, ws[k]);
  }

  // ---------------------------------------------------------------- memory primitives

  /** `s` with the bytes `x` written at `at` (`memcpy`). */
  function Put(s: seq<byte>, at: nat, x: seq<byte>): (r: seq<byte>)
    requires at + |x| <= |s|
    ensures |r| == |s|
  {
    s[..at] + x + s[at + |x|..]
  }

  /** `s` after `memmove(dst, src, n)`: the source is read before anything is written. */
  function Moved(s: seq<byte>, dst: nat, src: nat, n: nat): (r: seq<byte>)
    requires dst + n <= |s| && src + n <= |s|
    ensures |r| == |s|
  {
    Put(s, dst, s[src..src + n])
  }

  lemma MovedByte(s: seq<byte>, dst: nat, src: nat, n: nat, i: nat)
    requires dst + n <= |s| && src + n <= |s| && i < |s|
    ensures Moved(s, dst, src, n)[i] == if dst <= i < dst + n then s[src + (i - dst)] else s[i]
  {
  }

  lemma PutNone(s: seq<byte>, at: nat)
    requires at <= |s|
    ensures Put(s, at, []) == s
  {
  }

  lemma PutNext(s: seq<byte>, at: nat, x: seq<byte>, y: seq<byte>)
    requires at + |x| + |y| <= |s|
    ensures Put(Put(s, at, x), at + |x|, y) == Put(s, at, x + y)
  {
  }

  function Zeros(n: nat): (z: seq<byte>)
    ensures |z| == n
  {
    seq(n, _ => 0)
  }

  method Memcpy(buf: array<byte>, at: nat, x: seq<byte>)
    requires at + |x| <= buf.Length
    modifies buf
    ensures buf[..] == Put(old(buf[..]), at, x)
  {
    var i := 0;
    while i < |x|
      invariant 0 <= i <= |x|
      invariant buf[..at] == old(buf[..at])
      invariant buf[at..at + i] == x[..i]
      invariant buf[at + i..] == old(buf[at + i..])
    {
      buf[at + i] := x[i];
      i := i + 1;
    }
    assert buf[..] == buf[..at] + buf[at..at + |x|] + buf[at + |x|..];
  }

  /** `memmove`: the right-hand sides are all read before the first write, so overlap is harmless. */
  method Memmove(buf: array<byte>, dst: nat, src: nat, n: nat)
    requires dst + n <= buf.Length && src + n <= buf.Length
    modifies buf
    ensures buf[..] == Moved(old(buf[..]), dst, src, n)
  {
    forall k | 0 <= k < n {
      buf[dst + k] := buf[src + k];
    }
    assert buf[..] == Moved(old(buf[..]), dst, src, n);
  }

  // ---------------------------------------------------------------- C strings

  /** Index of the first NUL at or after `k`, or `|s|`. */
  function NulFrom(s: seq<byte>, k: nat): (j: nat)
    requires k <= |s|
    ensures k <= j <= |s|
    ensures j < |s| ==> s[j] == 0
    ensures forall i :: k <= i < j ==> s[i] != 0
    decreases |s| - k
  {
    if k == |s| || s[k] == 0 then k else NulFrom(s, k + 1)
  }

  predicate NoNul(s: seq<byte>) { 0 !in s }

  /** The C string starting at `k`, when it is terminated inside `s`. */
  function StrAt(s: seq<byte>, k: int): Option<seq<byte>>
  {
    if 0 <= k < |s| && NulFrom(s, k) < |s| then Some(s[k..NulFrom(s, k)]) else None
  }

  lemma StrAtIs(s: seq<byte>, k: nat, x: seq<byte>)
    requires NoNul(x) && k + |x| + 1 <= |s| && s[k..k + |x| + 1] == x + [0]
    ensures StrAt(s, k) == Some(x)
  {
    var y := s[k..k + |x| + 1];
    assert forall i :: 0 <= i <= |x| ==> s[k + i] == y[i];
    assert s[k + |x|] == 0;
    assert forall i :: 0 <= i < |x| ==> s[k + i] == x[i];
    assert s[k..k + |x|] == x;
  }

  /** Appending to a string table leaves every name that already resolves as it was. */
  lemma StrAtPrefix(s: seq<byte>, t: seq<byte>, k: int)
    requires s <= t && StrAt(s, k).Some?
    ensures StrAt(t, k) == StrAt(s, k)
  {
    var j := NulFrom(s, k);
    var x := s[k..j];
    assert t[k..k + |x| + 1] == s[k..k + |x| + 1] == x + [0];
    StrAtIs(t, k, x);
  }
}
