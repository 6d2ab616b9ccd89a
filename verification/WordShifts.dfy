/** Shifts of a two-word integer, and the fields of a two-word pattern. */
module WordShifts {
  import opened PowersOfTwo
  import opened Words

  /** A word shifted left: the bits above the word, and those that stay. */
  lemma ShiftOut(v: nat, p: nat, c: nat)
    requires p > 0 && c > 0 && p * c == WORD
    ensures v * c == v / p * WORD + v % p * c && 0 <= v % p * c <= WORD - c
    ensures Wrap(v * c) == v % p * c
  {
    var q, r := v / p, v % p;
    assert v == q * p + r;
    assert (q * p + r) * c == q * (p * c) + r * c;
    assert (p - 1 - r) * c >= 0;
    assert (p - 1 - r) * c == p * c - c - r * c;
    DivModUnique(v * c, WORD, q, r * c);
  }

  /** Two words shifted left by `i` bits, as `high << i | low >> (32 - i), low << i`: the low
      `i` bits of the first operand are zero, so the bitwise or is a sum. */
  lemma ShiftLeftWide(a: nat, low: uint32, i: nat)
    requires 1 <= i <= 31
    ensures var up := low / Pow2(32 - i);
            && 0 <= up < Pow2(i)
            && Wide(a * Pow2(i) + up, Wrap(low * Pow2(i))) == Wide(a, low) * Pow2(i)
  {
    hide Pow2;
    var d, p := Pow2(32 - i), Pow2(i);
    Pow2Values();
    Pow2Add(32 - i, i);
    ShiftOut(low, d, p);
    assert low / d * d <= low;
    FactorBelow(low / d, p, d);
  }

  /** Bits shifted in below a shifted word do not reach its leading bit. */
  lemma FillLowBits(a: nat, i: nat, up: nat)
    requires i <= 20 && 0x10_0000 <= a * Pow2(i) < 0x20_0000 && up < Pow2(i)
    ensures a * Pow2(i) + up < 0x20_0000
  {
    hide Pow2;
    Pow2Add(21 - i, i);
    Pow2Values();
    var c, d := Pow2(21 - i), Pow2(i);
    FactorBelow(a, c, d);
    MultipleIsFar(c - a, d);
    assert (c - a) * d == c * d - a * d;
  }

  /** Exponent and fraction field of a two-word pattern. */
  lemma FieldsOfWide(x0: nat, x1: uint32)
    ensures Wide(x0, x1) / 0x10_0000_0000_0000 == x0 / 0x10_0000
    ensures Wide(x0, x1) % 0x10_0000_0000_0000 == Wide(x0 % 0x10_0000, x1)
  {
    var e, f := x0 / 0x10_0000, x0 % 0x10_0000;
    assert Wide(x0, x1) == e * 0x10_0000_0000_0000 + Wide(f, x1);
    DivModUnique(Wide(x0, x1), 0x10_0000_0000_0000, e, Wide(f, x1));
  }

  lemma ShrinkBy(v: nat, p: nat)
    requires p > 0
    ensures 0 <= v / p <= v && (v < p ==> v / p == 0)
  {
    var q := v / p;
    MultipleIsFar(q, p);
    assert v == p * q + v % p;
    MultipleIsFar(p, if q > 0 then q else 1);
  }

  lemma DivideWide(high: nat, low: uint32, p: nat, c: nat)
    requires p > 0 && c > 0 && p * c == WORD
    ensures Wide(high, low) / p == high * c + low / p && low / p < c
  {
    var lq, lr := low / p, low % p;
    assert low == lq * p + lr;
    FactorBelow(lq, c, p);
    assert (high * c) * p == high * (p * c);
    assert (high * c + lq) * p == (high * c) * p + lq * p;
    DivModUnique(Wide(high, low), p, high * c + lq, lr);
  }

  /** Two words shifted right by `n` bits, as `high >> n, low >> n | high << (32 - n)`; the
      operands of the bitwise or have no bit in common. */
  lemma ShiftRightWide(high: nat, low: uint32, n: nat)
    requires 1 <= n <= 31
    ensures low / Pow2(n) < Pow2(32 - n) && Wrap(high * Pow2(32 - n)) % Pow2(32 - n) == 0
    ensures 0 <= low / Pow2(n) + Wrap(high * Pow2(32 - n)) < WORD
    ensures 0 <= high / Pow2(n) <= high && (high < Pow2(n) ==> high / Pow2(n) == 0)
    ensures Wide(high / Pow2(n), low / Pow2(n) + Wrap(high * Pow2(32 - n))) == Wide(high, low) / Pow2(n)
  {
    hide Pow2;
    var p, c := Pow2(n), Pow2(32 - n);
    Pow2Values();
    Pow2Add(n, 32 - n);
    ShiftOut(high, p, c);
    ShrinkBy(high, p);
    DivideWide(high, low, p, c);
    DivModUnique(high % p * c, c, high % p, 0);
  }

  /** A shift by a whole word and more drops the low word. */
  lemma ShiftRightWord(high: nat, low: uint32, n: nat)
    requires n >= 32
    ensures 0 <= high / Pow2(n - 32) <= high
    ensures high / Pow2(n - 32) == Wide(high, low) / Pow2(n)
  {
    hide Pow2;
    var p := Pow2(n - 32);
    Pow2Values();
    Pow2Add(n - 32, 32);
    ShrinkBy(high, p);
    var hq, hr := high / p, high % p;
    assert high == hq * p + hr;
    assert hr * WORD + low < p * WORD;
    assert Wide(high, low) == hq * (p * WORD) + (hr * WORD + low);
    DivModUnique(Wide(high, low), p * WORD, hq, hr * WORD + low);
  }
}
