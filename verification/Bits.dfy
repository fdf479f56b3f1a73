/** Powers of two and the bitwise operators, on unbounded naturals. */
module Bits {
  function Pow2(n: nat): (p: nat)
    ensures p >= 1
  {
    if n == 0 then 1 else 2 * Pow2(n - 1)
  }

  lemma Pow2Of32()
    ensures Pow2(8) == 0x100 && Pow2(16) == 0x1_0000 && Pow2(24) == 0x100_0000 && Pow2(32) == 0x1_0000_0000
    ensures Pow2(20) == 0x10_0000
  {
    assert Pow2(0) == 1;
    SixteenFold(0);
    SixteenFold(4);
    SixteenFold(8);
    SixteenFold(12);
    SixteenFold(16);
    SixteenFold(20);
    SixteenFold(24);
    SixteenFold(28);
  }

  lemma SixteenFold(n: nat)
    ensures Pow2(n + 4) == 0x10 * Pow2(n)
  {
    assert Pow2(n + 3) == 2 * Pow2(n + 2) && Pow2(n + 1) == 2 * Pow2(n);
  }

  lemma {:induction false} Pow2Monotone(m: nat, n: nat)
    requires m <= n
    ensures Pow2(m) <= Pow2(n)
    decreases n
  {
    if m < n {
      Pow2Monotone(m, n - 1);
    }
  }

  // --- And ---

  /** Bitwise and. */
  function And(a: nat, b: nat): nat {
    if a == 0 || b == 0 then 0
    else (if a % 2 == 1 && b % 2 == 1 then 1 else 0) + 2 * And(a / 2, b / 2)
  }

  lemma {:induction false} AndAllOnes(a: nat, w: nat)
    requires a < Pow2(w)
    ensures And(a, Pow2(w) - 1) == a
    decreases w
  {
    if w > 0 && a > 0 {
      AndAllOnes(a / 2, w - 1);
      assert (Pow2(w) - 1) / 2 == Pow2(w - 1) - 1;
    }
  }

  lemma {:induction false} AndHighOnes(a: nat, w: nat, h: nat)
    requires a < Pow2(w) && h <= w
    ensures Pow2(h) <= Pow2(w)
    ensures And(a, Pow2(w) - Pow2(h)) == a / Pow2(h) * Pow2(h)
    decreases w
  {
    hide And;
    Pow2Monotone(h, w);
    if h == 0 {
      AndAllOnes(a, w);
    } else {
      AndHighOnes(a / 2, w - 1, h - 1);
      AndEven(a, Pow2(w - 1) - Pow2(h - 1));
      HalveTwice(a, Pow2(h - 1));
    }
  }

  lemma AndEven(a: nat, m: nat)
    ensures And(a, 2 * m) == 2 * And(a / 2, m)
  {
    assert 2 * m % 2 == 0 && 2 * m / 2 == m;
    if a > 0 && m > 0 {
      assert And(a, 2 * m) == 2 * And(a / 2, 2 * m / 2);
    } else {
      assert And(a, 2 * m) == 0 && And(a / 2, m) == 0;
    }
  }

  lemma HalveTwice(a: nat, p: nat)
    requires p >= 1
    ensures 2 * (a / 2 / p * p) == a / (2 * p) * (2 * p)
  {
    var q, r := a / 2 / p, a / 2 % p;
    assert a / 2 == q * p + r;
    assert a == q * (2 * p) + (2 * r + a % 2);
    assert 0 <= 2 * r + a % 2 < 2 * p;
    QuotientIs(a, 2 * p, q, 2 * r + a % 2);
  }

  lemma QuotientIs(a: nat, d: nat, q: nat, r: nat)
    requires d >= 1 && a == q * d + r && r < d
    ensures a / d == q
  {
    var x := a / d;
    assert (x - q) * d == r - a % d;
    if x > q {
      AtLeastOnce(x - q, d);
    } else if x < q {
      AtLeastOnce(q - x, d);
    }
  }

  lemma AtLeastOnce(k: nat, d: nat)
    requires k >= 1
    ensures k * d >= d
  {
  }

  // --- Exclusive or ---

  function Xor(a: nat, b: nat): nat {
    if a == 0 && b == 0 then 0
    else (if a % 2 == b % 2 then 0 else 1) + 2 * Xor(a / 2, b / 2)
  }

  lemma {:induction false} XorBounded(a: nat, b: nat, bits: nat)
    requires a < Pow2(bits) && b < Pow2(bits)
    ensures Xor(a, b) < Pow2(bits)
  {
    if bits > 0 && (a != 0 || b != 0) {
      XorBounded(a / 2, b / 2, bits - 1);
    }
  }

  lemma {:induction false} XorSymmetric(a: nat, b: nat)
    ensures Xor(a, b) == Xor(b, a)
  {
    if a != 0 || b != 0 {
      XorSymmetric(a / 2, b / 2);
    }
  }

  /** A different operand gives a different result. */
  lemma {:induction false} XorInjective(a: nat, b: nat, c: nat)
    requires Xor(a, b) == Xor(a, c)
    ensures b == c
    decreases a + b + c
  {
    if a != 0 || b != 0 || c != 0 {
      assert Xor(a, b) % 2 == (if a % 2 == b % 2 then 0 else 1);
      assert Xor(a, c) % 2 == (if a % 2 == c % 2 then 0 else 1);
      assert Xor(a / 2, b / 2) == Xor(a, b) / 2 && Xor(a / 2, c / 2) == Xor(a, c) / 2;
      XorInjective(a / 2, b / 2, c / 2);
    }
  }

  /** Bit `k` of a number. */
  function Bit(a: nat, k: nat): nat {
    a / Pow2(k) % 2
  }

  lemma BitOfHalf(a: nat, k: nat)
    requires k > 0
    ensures Bit(a, k) == Bit(a / 2, k - 1)
  {
    var p := Pow2(k - 1);
    var q, r := a / 2 / p, a / 2 % p;
    assert a / 2 == q * p + r;
    assert a == q * (2 * p) + (2 * r + a % 2);
    QuotientIs(a, 2 * p, q, 2 * r + a % 2);
  }

  /** Every bit of an exclusive or is the parity of the two operands' bits. */
  lemma {:induction false} XorBit(a: nat, b: nat, k: nat)
    ensures Bit(Xor(a, b), k) == (Bit(a, k) + Bit(b, k)) % 2
    decreases k
  {
    XorHalves(a, b);
    if k == 0 {
      LowestBit(a);
      LowestBit(b);
      LowestBit(Xor(a, b));
    } else {
      hide Bit, Xor;
      BitOfHalf(a, k);
      BitOfHalf(b, k);
      BitOfHalf(Xor(a, b), k);
      XorBit(a / 2, b / 2, k - 1);
    }
  }

  lemma {:induction false} XorHalves(a: nat, b: nat)
    ensures Xor(a, b) / 2 == Xor(a / 2, b / 2)
    ensures Xor(a, b) % 2 == (a % 2 + b % 2) % 2
  {
    var bit := if a % 2 == b % 2 then 0 else 1;
    XorUnfolds(a, b);
    hide Xor;
    BitBelow(bit, Xor(a / 2, b / 2));
  }

  lemma {:induction false} XorUnfolds(a: nat, b: nat)
    ensures Xor(a, b) == (if a % 2 == b % 2 then 0 else 1) + 2 * Xor(a / 2, b / 2)
  {
    if a == 0 && b == 0 {
      assert Xor(0, 0) == 0;
    }
  }

  lemma BitBelow(bit: nat, x: nat)
    requires bit < 2
    ensures (bit + 2 * x) / 2 == x && (bit + 2 * x) % 2 == bit
  {
  }

  lemma LowestBit(a: nat)
    ensures Bit(a, 0) == a % 2
  {
    assert Pow2(0) == 1;
  }
}
