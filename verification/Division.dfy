/** 64-bit unsigned division by shift and subtract: kernel/libc/__udivdi3.c, __umoddi3.c. */
module Division {
  import opened PowersOfTwo

  const LIMIT: nat := 0x1_0000_0000_0000_0000
  type uint64 = x: int | 0 <= x < LIMIT

  datatype Quotient = Value(q: uint64) | DivisionByZero

  /** The divisor stays the original one times the quotient bit; nothing is shifted out. */
  ghost predicate Aligned(den0: nat, den: nat, qbit: nat, k: nat) {
    qbit == Pow2(k) && den == den0 * qbit
  }

  lemma DoubleAligned(den0: nat, den: nat, qbit: nat, k: nat)
    requires den0 > 0 && Aligned(den0, den, qbit, k) && den < LIMIT
    ensures qbit < LIMIT && Aligned(den0, 2 * den, 2 * qbit, k + 1)
  {
    hide Pow2;
    Pow2Succ(k);
    MultipleIsFar(den0, qbit);
    assert den0 * (2 * qbit) == 2 * (den0 * qbit);
  }

  lemma HalveAligned(den0: nat, den: nat, qbit: nat, k: nat)
    requires Aligned(den0, den, qbit, k) && k > 0
    ensures den % 2 == 0 && qbit % 2 == 0 && Aligned(den0, den / 2, qbit / 2, k - 1)
  {
    hide Pow2;
    Pow2Succ(k - 1);
    assert den0 * (2 * Pow2(k - 1)) == 2 * (den0 * Pow2(k - 1));
  }

  /** Quotient and remainder exist for every divisor but zero, and are the only pair with
      `num == q * den + r` and `r < den` (`DivModUnique`). */
  method Udivdi3(num0: uint64, den0: uint64) returns (quotient: Quotient)
    ensures den0 == 0 <==> quotient.DivisionByZero?
    ensures den0 != 0 ==>
              var r := num0 - quotient.q * den0;
              0 <= r < den0 && quotient.q == num0 / den0 && r == num0 % den0
  {
    hide Pow2;
    var num: uint64, den: uint64 := num0, den0;
    var quot: uint64, qbit: uint64 := 0, 1;
    if den == 0 {
      return DivisionByZero;
    }
    ghost var k := 0;
    Pow2Succ(0);
    while den < 0x8000_0000_0000_0000
      invariant 0 < den && k >= 0 && Aligned(den0, den, qbit, k)
      decreases LIMIT - den
    {
      DoubleAligned(den0, den, qbit, k);
      DoubleAligned(den0, 2 * den, 2 * qbit, k + 1);
      den := (den * 2) % LIMIT;
      qbit := (qbit * 2) % LIMIT;
      k := k + 1;
    }
    while qbit != 0
      invariant k >= -1 && (k == -1 <==> qbit == 0)
      invariant k >= 0 ==> Aligned(den0, den, qbit, k) && num < 2 * den
      invariant k == -1 ==> num < den0
      invariant num0 == quot * den0 + num
      decreases k
    {
      if k > 0 {
        HalveAligned(den0, den, qbit, k);
      } else {
        Pow2Succ(0);
      }
      if den <= num {
        AddBit(num0, quot, qbit, den0, num);
        num := num - den;
        quot := quot + qbit;
      }
      den := den / 2;
      qbit := qbit / 2;
      k := k - 1;
    }
    DivModUnique(num0, den0, quot, num);
    quotient := Value(quot);
  }

  lemma AddBit(num0: nat, quot: nat, qbit: nat, den0: nat, num: nat)
    requires 0 < den0 && num0 < LIMIT && num0 == quot * den0 + num && den0 * qbit <= num
    ensures quot + qbit < LIMIT && num0 == (quot + qbit) * den0 + (num - den0 * qbit)
  {
    assert (quot + qbit) * den0 == quot * den0 + den0 * qbit;
    MultipleIsFar(den0, if quot + qbit > 0 then quot + qbit else 1);
  }

  /** `num - __udivdi3(num, den) * den` in wrapping arithmetic. */
  method Umoddi3(num: uint64, den: uint64) returns (rest: Quotient)
    ensures den == 0 <==> rest.DivisionByZero?
    ensures den != 0 ==> rest.q == num % den
  {
    var quotient := Udivdi3(num, den);
    match quotient
    case DivisionByZero => rest := DivisionByZero;
    case Value(q) => rest := Value((num - q * den) % LIMIT);
  }
}
