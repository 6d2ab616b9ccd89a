/** Powers of two, and division by them. */
module PowersOfTwo {

  function Pow2(n: nat): (r: nat)
    ensures r >= 1
  {
    if n == 0 then 1 else 2 * Pow2(n - 1)
  }

  lemma Pow2Succ(n: nat)
    ensures Pow2(0) == 1 && Pow2(n + 1) == 2 * Pow2(n)
  {
  }

  lemma {:induction false} Pow2Add(a: nat, b: nat)
    ensures Pow2(a + b) == Pow2(a) * Pow2(b)
  {
    if b == 0 {
    } else {
      Pow2Add(a, b - 1);
      assert Pow2(a + b) == 2 * Pow2(a + (b - 1));
      assert Pow2(a) * (2 * Pow2(b - 1)) == 2 * (Pow2(a) * Pow2(b - 1));
    }
  }

  lemma {:induction false} Pow2Monotone(a: nat, b: nat)
    requires a <= b
    ensures Pow2(a) <= Pow2(b)
    ensures a < b ==> 2 * Pow2(a) <= Pow2(b)
  {
    if a < b {
      Pow2Monotone(a, b - 1);
    }
  }

  /** `v * 2^a` shifted on by `b` more bits, and the same read backwards. */
  lemma Rescale(v: nat, a: nat, b: nat, z: nat)
    requires z == v * Pow2(a)
    ensures v * Pow2(a + b) == z * Pow2(b)
  {
    hide Pow2;
    Pow2Add(a, b);
    assert v * (Pow2(a) * Pow2(b)) == (v * Pow2(a)) * Pow2(b);
  }

  lemma Lift(v: nat, a: nat, b: nat, z: nat)
    requires v == z * Pow2(a)
    ensures v * Pow2(b) == z * Pow2(a + b)
  {
    hide Pow2;
    Pow2Add(a, b);
    assert z * (Pow2(a) * Pow2(b)) == (z * Pow2(a)) * Pow2(b);
  }

  lemma Pow2Values()
    ensures Pow2(16) == 0x1_0000 && Pow2(21) == 0x20_0000 && Pow2(23) == 0x80_0000
    ensures Pow2(31) == 0x8000_0000 && Pow2(32) == 0x1_0000_0000 && Pow2(52) == 0x10_0000_0000_0000
  {
    assert Pow2(4) == 0x10 && Pow2(5) == 0x20 && Pow2(7) == 0x80 && Pow2(8) == 0x100;
    Pow2Add(8, 8);
    Pow2Add(16, 5);
    Pow2Add(16, 7);
    Pow2Add(23, 8);
    Pow2Add(16, 16);
    Pow2Add(32, 16);
    Pow2Add(48, 4);
  }

  /** A non-zero multiple of `d` is at least `d` away from zero. */
  lemma MultipleIsFar(c: int, d: int)
    requires d > 0
    ensures c >= 1 ==> c * d >= d
    ensures c <= -1 ==> c * d <= -d
  {
    if c >= 1 {
      assert (c - 1) * d >= 0;
    } else if c <= -1 {
      assert (-1 - c) * d >= 0;
    }
  }

  lemma FactorBelow(a: int, b: int, d: int)
    requires d > 0 && a * d < b * d
    ensures a < b
  {
    assert (b - a) * d == b * d - a * d;
    MultipleIsFar(b - a, d);
  }

  /** The quotient and the remainder are the only way to split a number by `d`. */
  lemma DivModUnique(n: int, d: int, q: int, r: int)
    requires d > 0 && 0 <= r < d && n == q * d + r
    ensures n / d == q && n % d == r
  {
    var q', r' := n / d, n % d;
    assert n == d * q' + r';
    assert (q - q') * d == r' - r;
    MultipleIsFar(q - q', d);
  }

  lemma ShiftBound(v: nat, n: nat, m: nat)
    requires v > 0 && v * Pow2(n) < Pow2(m)
    ensures n < m
  {
    hide Pow2;
    MultipleIsFar(v, Pow2(n));
    if m <= n {
      Pow2Monotone(m, n);
    }
  }
}
