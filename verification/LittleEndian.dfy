/** Little-endian byte strings as numbers. */
module LittleEndian {
  import opened Bytes

  function Pow256(n: nat): (p: nat)
    ensures p >= 1
  {
    if n == 0 then 1 else 0x100 * Pow256(n - 1)
  }

  function Le(b: seq<byte>): nat { if b == [] then 0 else b[0] + 0x100 * Le(b[1..]) }

  function LeBytes(v: nat, n: nat): (b: seq<byte>)
    ensures |b| == n
  {
    if n == 0 then [] else [(v % 0x100) as byte] + LeBytes(v / 0x100, n - 1)
  }

  /** The first byte is the least significant. */
  lemma LeFour(a: byte, b: byte, c: byte, d: byte)
    ensures Le([a, b, c, d]) == a + 0x100 * b as int + 0x1_0000 * c as int + 0x100_0000 * d as int
  {
    var s := [a, b, c, d];
    assert s[1..] == [b, c, d] && [b, c, d][1..] == [c, d] && [c, d][1..] == [d];
    assert Le([d]) == d as int && Le([c, d]) == c + 0x100 * d as int;
  }

  lemma {:induction false} LeBound(b: seq<byte>)
    ensures Le(b) < Pow256(|b|)
  {
    if b != [] {
      LeBound(b[1..]);
    }
  }

  lemma {:induction false} BytesOfLe(b: seq<byte>)
    ensures LeBytes(Le(b), |b|) == b
  {
    if b != [] {
      BytesOfLe(b[1..]);
      assert Le(b) / 0x100 == Le(b[1..]) && Le(b) % 0x100 == b[0];
    }
  }

  lemma {:induction false} LeOfBytes(v: nat, n: nat)
    requires v < Pow256(n)
    ensures Le(LeBytes(v, n)) == v
  {
    if n > 0 {
      LeOfBytes(v / 0x100, n - 1);
      assert LeBytes(v, n)[1..] == LeBytes(v / 0x100, n - 1);
    }
  }

  /** Low bytes, then high bytes. */
  lemma {:induction false} LeSplit(lo: nat, hi: nat, m: nat, n: nat)
    requires lo < Pow256(m)
    ensures LeBytes(lo + Pow256(m) * hi, m + n) == LeBytes(lo, m) + LeBytes(hi, n)
  {
    if m > 0 {
      var p := Pow256(m - 1);
      assert Pow256(m) * hi == 0x100 * (p * hi);
      DivMod(lo, p * hi);
      LeSplit(lo / 0x100, hi, m - 1, n);
    } else {
      assert Pow256(0) * hi == hi;
      assert LeBytes(lo, 0) == [];
    }
  }

  lemma DivMod(lo: nat, q: nat)
    ensures (lo + 0x100 * q) % 0x100 == lo % 0x100 && (lo + 0x100 * q) / 0x100 == lo / 0x100 + q
  {
  }

  lemma Powers()
    ensures Pow256(4) == 0x1_0000_0000 && Pow256(8) == 0x1_0000_0000_0000_0000
  {
    assert Pow256(2) == 0x1_0000 && Pow256(4) == 0x1_0000_0000 && Pow256(6) == 0x1_0000_0000_0000;
  }
}
