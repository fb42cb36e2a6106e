/**
 Machine words as the integers they stand for: sums, differences, order, shifts and bits. Each bit-vector fact is
 a lemma of its own, and the arguments about integers see the operations only through such lemmas.
 */
module BitValues {
  function Unsigned(x: bv32): (r: int)
    ensures 0 <= r < 0x1_0000_0000
  {
    x as int
  }

  /** The integer in two's complement. */
  function Signed(x: bv32): int {
    if Unsigned(x) < 0x8000_0000 then Unsigned(x) else Unsigned(x) - 0x1_0000_0000
  }

  function Power(n: nat): (p: nat)
    ensures p > 0
  {
    if n == 0 then 1 else 2 * Power(n - 1)
  }

  /** Bit `k` of a word. */
  function BitAt(x: bv32, k: nat): (b: int)
    ensures b == 0 || b == 1
  {
    (Unsigned(x) / Power(k)) % 2
  }

  function Sum(x: bv32, y: bv32): bv32 { x + y }
  function Minus(x: bv32, y: bv32): bv32 { x - y }
  function Not(x: bv32): bv32 { x ^ 0xffff_ffff }
  function Flip(x: bv32): bv32 { x ^ 0x8000_0000 }
  predicate AtMost(x: bv32, y: bv32) { x <= y }
  predicate Below(x: bv32, y: bv32) { x < y }

  // ---------------------------------------------------------------- sums

  // One more bit holds the carry.

  function Wide(x: bv33): int { x as int }
  function Total(x: bv32, y: bv32): bv33 { (x as bv33) + (y as bv33) }
  function Extend(x: bv32): bv33 { x as bv33 }
  function Carried(x: bv32): bv33 { 0x1_0000_0000 | (x as bv33) }
  predicate Overflow(x: bv32, y: bv32) { ((x as bv33) + (y as bv33)) & 0x1_0000_0000 != 0 }

  lemma WideTotal(x: bv32, y: bv32)
    ensures Wide(Total(x, y)) == Unsigned(x) + Unsigned(y)
  {
  }

  lemma WideExtended(x: bv32)
    ensures Wide(Extend(x)) == Unsigned(x) && Wide(Carried(x)) == 0x1_0000_0000 + Unsigned(x)
  {
  }

  lemma FitBits(x: bv32, y: bv32)
    requires !Overflow(x, y)
    ensures (x as bv33) + (y as bv33) == (x + y) as bv33
  {
  }

  lemma FitSum(x: bv32, y: bv32)
    requires (x as bv33) + (y as bv33) == (x + y) as bv33
    ensures (x as bv33) + (y as bv33) == Sum(x, y) as bv33
  {
  }

  lemma Fit(x: bv32, y: bv32)
    requires !Overflow(x, y)
    ensures Total(x, y) == Extend(Sum(x, y))
  {
    hide Overflow, Sum;
    FitBits(x, y);
    FitSum(x, y);
  }

  lemma CarryBits(x: bv32, y: bv32)
    requires Overflow(x, y)
    ensures (x as bv33) + (y as bv33) == 0x1_0000_0000 | ((x + y) as bv33)
  {
  }

  lemma Carry(x: bv32, y: bv32)
    requires Overflow(x, y)
    ensures Total(x, y) == Carried(Sum(x, y))
  {
    CarryBits(x, y);
  }

  lemma SumCases(x: bv32, y: bv32)
    ensures Unsigned(x) + Unsigned(y) == Unsigned(Sum(x, y))
      || Unsigned(x) + Unsigned(y) == Unsigned(Sum(x, y)) + 0x1_0000_0000
  {
    hide *;
    WideTotal(x, y);
    WideExtended(Sum(x, y));
    if Overflow(x, y) {
      Carry(x, y);
    } else {
      Fit(x, y);
    }
  }

  /** Addition is addition modulo 2^32. */
  lemma SumValue(x: bv32, y: bv32)
    ensures Unsigned(Sum(x, y)) == (Unsigned(x) + Unsigned(y)) % 0x1_0000_0000
  {
    hide *;
    SumCases(x, y);
  }

  lemma Restored(x: bv32, y: bv32)
    ensures Sum(Minus(x, y), y) == x && Sum(y, Minus(x, y)) == x
  {
  }

  /** Subtraction is subtraction modulo 2^32. */
  lemma MinusValue(x: bv32, y: bv32)
    ensures Unsigned(Minus(x, y)) == (Unsigned(x) - Unsigned(y)) % 0x1_0000_0000
  {
    hide *;
    Restored(x, y);
    SumCases(Minus(x, y), y);
  }

  // ---------------------------------------------------------------- order

  lemma NoCarryBits(x: bv32, y: bv32)
    requires x <= x + y
    ensures (x as bv33) + (y as bv33) == (x + y) as bv33
  {
  }

  lemma NoCarry(x: bv32, y: bv32)
    requires AtMost(x, Sum(x, y))
    ensures Total(x, y) == Extend(Sum(x, y))
  {
    NoCarryBits(x, y);
  }

  lemma Exact(x: bv32, y: bv32)
    requires AtMost(x, Sum(x, y))
    ensures Unsigned(Sum(x, y)) == Unsigned(x) + Unsigned(y)
  {
    hide *;
    NoCarry(x, y);
    WideTotal(x, y);
    WideExtended(Sum(x, y));
  }

  lemma Ordered(x: bv32, y: bv32)
    requires AtMost(x, y)
    ensures Unsigned(x) <= Unsigned(y)
  {
    hide *;
    Restored(y, x);
    Exact(x, Minus(y, x));
  }

  lemma Either(x: bv32, y: bv32)
    ensures AtMost(x, y) || Below(y, x)
    ensures Below(x, y) ==> AtMost(x, y) && x != y
  {
  }

  lemma Distinct(x: bv32, y: bv32)
    requires Unsigned(x) == Unsigned(y)
    ensures x == y
  {
    assert (x as int) as bv32 == x && (y as int) as bv32 == y;
  }

  /** The order of words is that of their integers. */
  lemma OrderValue(x: bv32, y: bv32)
    ensures Below(x, y) <==> Unsigned(x) < Unsigned(y)
  {
    hide *;
    Either(x, y);
    Either(y, x);
    if Below(x, y) {
      Ordered(x, y);
      if Unsigned(x) == Unsigned(y) {
        Distinct(x, y);
      }
    } else {
      Ordered(y, x);
    }
  }

  lemma FlipSum(x: bv32)
    ensures Flip(x) == Sum(x, 0x8000_0000)
  {
  }

  lemma Constants()
    ensures Unsigned(0) == 0 && Unsigned(1) == 1 && Unsigned(31) == 31
    ensures Unsigned(0x8000_0000) == 0x8000_0000 && Unsigned(0xffff_ffff) == 0xffff_ffff
  {
  }

  lemma FlipValue(x: bv32)
    ensures Unsigned(Flip(x)) == Signed(x) + 0x8000_0000
  {
    hide Unsigned, Flip, Sum;
    FlipSum(x);
    Constants();
    SumValue(x, 0x8000_0000);
  }

  /** With the sign bits flipped it is the order of the signed integers. */
  lemma SignedOrder(x: bv32, y: bv32)
    ensures Below(Flip(x), Flip(y)) <==> Signed(x) < Signed(y)
  {
    hide Unsigned, Flip, Below;
    OrderValue(Flip(x), Flip(y));
    FlipValue(x);
    FlipValue(y);
  }

  lemma Ones(x: bv32)
    ensures Sum(x, Not(x)) == 0xffff_ffff && AtMost(x, Sum(x, Not(x)))
  {
  }

  lemma NotValue(x: bv32)
    ensures Unsigned(Not(x)) == 0xffff_ffff - Unsigned(x)
  {
    hide *;
    Ones(x);
    Constants();
    Exact(x, Not(x));
  }

  // ---------------------------------------------------------------- halves

  function Half(x: bv32): bv32 { x >> 1 }
  function Double(x: bv32): bv32 { x << 1 }

  // A word is its upper 31 bits and its last one.

  function Upper(x: bv32): bv31 { (x >> 1) as bv31 }
  function Last(x: bv32): bv1 { (x & 1) as bv1 }
  function Pair(h: bv31, b: bv1): bv32 { ((h as bv32) << 1) | (b as bv32) }
  function UpperValue(h: bv31): int { h as int }
  function LastValue(b: bv1): int { b as int }

  lemma Paired(h: bv31, b: bv1)
    ensures Unsigned(Pair(h, b)) == 2 * UpperValue(h) + LastValue(b)
  {
  }

  lemma Parts(x: bv32)
    ensures x == Pair(Upper(x), Last(x))
  {
  }

  lemma PartValues(x: bv32)
    ensures Unsigned(Half(x)) == UpperValue(Upper(x)) && 0 <= LastValue(Last(x)) <= 1
  {
  }

  lemma HalfValue(x: bv32)
    ensures Unsigned(Half(x)) == Unsigned(x) / 2 && LastValue(Last(x)) == Unsigned(x) % 2
  {
    hide *;
    Parts(x);
    Paired(Upper(x), Last(x));
    PartValues(x);
  }

  lemma DoubleSum(x: bv32)
    ensures Double(x) == Sum(x, x)
  {
  }

  lemma DoubleValue(x: bv32)
    ensures Unsigned(Double(x)) == 2 * Unsigned(x) % 0x1_0000_0000
  {
    hide *;
    DoubleSum(x);
    SumValue(x, x);
  }

  // ---------------------------------------------------------------- shifts

  function ShiftUp(x: bv32, n: bv32): bv32 { x << (n & 0x1f) }
  function ShiftDown(x: bv32, n: bv32): bv32 { x >> (n & 0x1f) }

  lemma UpNext(x: bv32, n: bv32)
    requires n < 31
    ensures ShiftUp(x, n + 1) == Double(ShiftUp(x, n))
  {
  }

  lemma DownNext(x: bv32, n: bv32)
    requires n < 31
    ensures ShiftDown(x, n + 1) == Half(ShiftDown(x, n))
  {
  }

  lemma NoShift(x: bv32)
    ensures ShiftUp(x, 0) == x && ShiftDown(x, 0) == x
  {
  }

  lemma OneLess(n: bv32)
    requires n != 0
    ensures Unsigned(Minus(n, 1)) == Unsigned(n) - 1
  {
    hide *;
    Constants();
    if Unsigned(n) == 0 {
      Distinct(n, 0);
    }
    MinusValue(n, 1);
  }

  lemma Longer(x: bv32, n: bv32)
    requires Below(Minus(n, 1), 31)
    ensures ShiftUp(x, n) == Double(ShiftUp(x, Minus(n, 1))) && ShiftDown(x, n) == Half(ShiftDown(x, Minus(n, 1)))
  {
    hide Double, Half, ShiftUp, ShiftDown;
    UpNext(x, n - 1);
    DownNext(x, n - 1);
  }

  lemma AtLeastOnce(p: int, e: int)
    requires p > 0 && e >= 1
    ensures p * e >= p && p * -e <= -p
  {
  }

  lemma Quotient(u: int, p: int, q: int, r: int)
    requires u == p * q + r && 0 <= r < p
    ensures u / p == q
  {
    var d := u / p;
    assert p * (d - q) == r - u % p;
    if d > q {
      AtLeastOnce(p, d - q);
    } else if d < q {
      AtLeastOnce(p, q - d);
    }
  }

  lemma HalfOf(u: int, p: int)
    requires p > 0
    ensures (u / p) / 2 == u / (2 * p)
  {
    var q, r := u / p, u % p;
    var h, b := q / 2, q % 2;
    Regroup(u, p, h, b, r);
    Quotient(u, 2 * p, h, p * b + r);
  }

  lemma Regroup(u: int, p: int, h: int, b: int, r: int)
    requires u == p * (2 * h + b) + r && (b == 0 || b == 1) && 0 <= r < p
    ensures u == (2 * p) * h + (p * b + r) && 0 <= p * b + r < 2 * p
  {
  }

  lemma DoubleOf(u: int, p: int)
    ensures 2 * (u * p % 0x1_0000_0000) % 0x1_0000_0000 == u * (2 * p) % 0x1_0000_0000
  {
    assert u * (2 * p) == 2 * (u * p);
  }

  lemma {:induction false} ShortShift(x: bv32, n: bv32)
    requires Unsigned(n) < 32
    ensures Unsigned(ShiftUp(x, n)) == Unsigned(x) * Power(Unsigned(n)) % 0x1_0000_0000
    ensures Unsigned(ShiftDown(x, n)) == Unsigned(x) / Power(Unsigned(n))
    decreases Unsigned(n)
  {
    hide Unsigned, ShiftUp, ShiftDown, Minus, Below, Double, Half;
    Constants();
    if n == 0 {
      NoShift(x);
    } else {
      var m := Minus(n, 1);
      OneLess(n);
      OrderValue(m, 31);
      Longer(x, n);
      ShortShift(x, m);
      var p := Power(Unsigned(m));
      DoubleValue(ShiftUp(x, m));
      DoubleOf(Unsigned(x), p);
      HalfValue(ShiftDown(x, m));
      HalfOf(Unsigned(x), p);
    }
  }

  // The amount is the last five bits.

  function Front(n: bv32): bv27 { (n >> 5) as bv27 }
  function Tail(n: bv32): bv5 { (n & 0x1f) as bv5 }
  function Merge(h: bv27, l: bv5): bv32 { ((h as bv32) << 5) | (l as bv32) }
  function FrontValue(h: bv27): int { h as int }
  function TailValue(l: bv5): int { l as int }
  function TailWord(l: bv5): bv32 { l as bv32 }

  lemma AmountParts(n: bv32)
    ensures n == Merge(Front(n), Tail(n))
  {
  }

  lemma Merged(h: bv27, l: bv5)
    ensures Unsigned(Merge(h, l)) == 32 * FrontValue(h) + TailValue(l) && 0 <= TailValue(l) < 32
    ensures Unsigned(TailWord(l)) == TailValue(l)
  {
  }

  lemma TailShift(x: bv32, h: bv27, l: bv5)
    ensures ShiftUp(x, Merge(h, l)) == ShiftUp(x, TailWord(l))
    ensures ShiftDown(x, Merge(h, l)) == ShiftDown(x, TailWord(l))
  {
  }

  lemma TailEnough(x: bv32, n: bv32)
    ensures Unsigned(TailWord(Tail(n))) == Unsigned(n) % 32
    ensures ShiftUp(x, n) == ShiftUp(x, TailWord(Tail(n))) && ShiftDown(x, n) == ShiftDown(x, TailWord(Tail(n)))
  {
    hide *;
    AmountParts(n);
    Merged(Front(n), Tail(n));
    TailShift(x, Front(n), Tail(n));
  }

  /** A shift is a multiplication modulo 2^32, or a division, by the power of two that five bits of `n` give. */
  lemma ShiftValue(x: bv32, n: bv32)
    ensures Unsigned(ShiftUp(x, n)) == Unsigned(x) * Power(Unsigned(n) % 32) % 0x1_0000_0000
    ensures Unsigned(ShiftDown(x, n)) == Unsigned(x) / Power(Unsigned(n) % 32)
  {
    hide *;
    TailEnough(x, n);
    ShortShift(x, TailWord(Tail(n)));
  }

  /** A shift that brings in copies of the sign: of a negative number it shifts the complement. */
  function ShiftSigned(x: bv32, n: bv32): bv32 {
    if Signed(x) < 0 then Not(ShiftDown(Not(x), n)) else ShiftDown(x, n)
  }

  lemma NegativeQuotient(v: int, p: int)
    requires p > 0 && 0 <= v < 0x8000_0000
    ensures 0 <= v / p <= v && (-1 - v) / p == -1 - v / p
  {
    var q, r := v / p, v % p;
    assert -1 - v == p * (-1 - q) + (p - 1 - r) by {
      assert p * (-1 - q) == -p - p * q;
    }
    Quotient(-1 - v, p, -1 - q, p - 1 - r);
    AtMostOnce(v, p);
  }

  lemma AtMostOnce(v: int, p: int)
    requires p > 0 && 0 <= v
    ensures 0 <= v / p <= v
  {
    var q := v / p;
    if q < 0 {
      AtLeastOnce(p, -q);
    }
    Grows(p, q);
  }

  lemma Grows(p: int, q: int)
    requires p > 0
    ensures q >= 0 ==> p * q >= q
  {
  }

  /** It is the division of the signed integer, rounded down. */
  lemma SignedShiftValue(x: bv32, n: bv32)
    ensures Signed(ShiftSigned(x, n)) == Signed(x) / Power(Unsigned(n) % 32)
  {
    hide Unsigned, Not, ShiftDown, Power;
    var p := Power(Unsigned(n) % 32);
    if Signed(x) < 0 {
      NotValue(x);
      ShiftValue(Not(x), n);
      NotValue(ShiftDown(Not(x), n));
      NegativeQuotient(Unsigned(Not(x)), p);
    } else {
      ShiftValue(x, n);
      AtMostOnce(Unsigned(x), p);
    }
  }

  // ---------------------------------------------------------------- bits

  function And(x: bv32, y: bv32): bv32 { x & y }
  function Or(x: bv32, y: bv32): bv32 { x | y }
  function Xor(x: bv32, y: bv32): bv32 { x ^ y }

  lemma HalfAnd(x: bv32, y: bv32)
    ensures Half(And(x, y)) == And(Half(x), Half(y))
  {
  }

  lemma HalfOr(x: bv32, y: bv32)
    ensures Half(Or(x, y)) == Or(Half(x), Half(y))
  {
  }

  lemma HalfXor(x: bv32, y: bv32)
    ensures Half(Xor(x, y)) == Xor(Half(x), Half(y))
  {
  }

  lemma LastBits(x: bv32, y: bv32)
    ensures LastValue(Last(And(x, y))) == LastValue(Last(x)) * LastValue(Last(y))
    ensures LastValue(Last(Or(x, y))) == if LastValue(Last(x)) + LastValue(Last(y)) == 0 then 0 else 1
    ensures LastValue(Last(Xor(x, y))) == if LastValue(Last(x)) == LastValue(Last(y)) then 0 else 1
  {
  }

  lemma BitNext(x: bv32, k: nat)
    ensures BitAt(x, k + 1) == BitAt(Half(x), k) && BitAt(x, 0) == LastValue(Last(x))
  {
    hide Unsigned, Half;
    HalfValue(x);
    NextQuotient(Unsigned(x), Power(k));
  }

  lemma NextQuotient(u: int, p: int)
    requires p > 0
    ensures (u / 2) / p == u / (2 * p)
  {
    var q, r := u / 2, u % 2;
    var h, b := q / p, q % p;
    assert 2 * q == 2 * (p * h + b) == (2 * p) * h + 2 * b;
    Quotient(u, 2 * p, h, 2 * b + r);
  }

  /** The logical operations act bit by bit. */
  lemma {:induction false} LogicBits(x: bv32, y: bv32, k: nat)
    ensures BitAt(And(x, y), k) == BitAt(x, k) * BitAt(y, k)
    ensures BitAt(Or(x, y), k) == if BitAt(x, k) + BitAt(y, k) == 0 then 0 else 1
    ensures BitAt(Xor(x, y), k) == if BitAt(x, k) == BitAt(y, k) then 0 else 1
    decreases k
  {
    hide *;
    if k == 0 {
      LastBits(x, y);
      forall z: bv32 ensures BitAt(z, 0) == LastValue(Last(z)) {
        BitNext(z, 0);
      }
    } else {
      LogicBits(Half(x), Half(y), k - 1);
      HalfAnd(x, y);
      HalfOr(x, y);
      HalfXor(x, y);
      forall z: bv32 ensures BitAt(z, k) == BitAt(Half(z), k - 1) {
        BitNext(z, k - 1);
      }
    }
  }
}
