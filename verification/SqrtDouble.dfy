/** Double-precision square root on two 32-bit words: libpok/libm/e_sqrt.c. */
module SqrtDouble {
  import opened PowersOfTwo
  import opened FloatFormat
  import opened SquareRoot
  import opened Words
  import opened WordShifts

  const HIDDEN: nat := 0x10_0000_0000_0000

  /** One iteration of the first loop before the remainder is doubled: the low word of the
      trial root is zero, so comparing high words is comparing the two-word integers. */
  lemma HighStep(n: nat, q: nat, r: uint32, ix0: nat, ix1: uint32)
    requires r == 1 || (0 < r && r % 2 == 0)
    requires r <= 0x20_0000 && n < 0x40_0000_0000_0000 * 0x40_0000_0000_0000
    requires Settled(n, Wide(q, 0), Wide(r, 0), Wide(ix0, ix1))
    ensures q < 0x40_0000 && ix0 < 0x200_0000
    ensures var weight := if r == 1 then SIGN else Wide(r / 2, 0);
            if 2 * q + r <= ix0 then
              Settled(n, Wide(q + r, 0), weight, 2 * Wide(ix0 - (2 * q + r), ix1))
            else
              Settled(n, Wide(q, 0), weight, 2 * Wide(ix0, ix1))
  {
    hide Settled;
    DigitBounds(n, Wide(q, 0), Wide(r, 0), Wide(ix0, ix1), 0x40_0000_0000_0000);
    TrialWide(q, r, ix0, ix1);
    Digit(n, Wide(q, 0), Wide(r, 0), Wide(ix0, ix1));
  }

  lemma TrialWide(q: nat, r: nat, ix0: nat, ix1: uint32)
    ensures Wide(q + r, 0) == Wide(q, 0) + Wide(r, 0)
    ensures 2 * q + r <= ix0 <==> 2 * Wide(q, 0) + Wide(r, 0) <= Wide(ix0, ix1)
    ensures Wide(ix0 - (2 * q + r), ix1) == Wide(ix0, ix1) - (2 * Wide(q, 0) + Wide(r, 0))
    ensures r == 1 ==> Wide(r, 0) / 2 == SIGN
    ensures r % 2 == 0 ==> Wide(r, 0) / 2 == Wide(r / 2, 0) && Wide(r, 0) % 2 == 0
  {
    if r % 2 == 0 {
      DivModUnique(Wide(r, 0), 2, Wide(r / 2, 0), 0);
    }
  }

  /** The first loop, e_sqrt.c:152-161: 22 digits of the root of `n`, its high word. */
  method HighDigits(i0: int32, i1: uint32, ghost n: nat) returns (q: int32, ix0: int32, ix1: uint32)
    requires 0x20_0000 <= i0 && Wide(i0, i1) <= 0x7f_ffff_ffff_fffc
    requires n == Wide(i0, i1) * 0x20_0000_0000_0000
    ensures 0 <= q < 0x40_0000 && 0 <= ix0
    ensures Settled(n, Wide(q, 0), SIGN, Wide(ix0, ix1))
  {
    hide Pow2;
    hide Settled;
    ix0, ix1 := i0, i1;
    q := 0;
    var s0: int32 := 0;
    var r: uint32 := 0x20_0000;
    ghost var k := 22;
    Pow2Values();
    Pow2Succ(0);
    StartDigits(Wide(i0, i1), 0x20_0000_0000_0000);
    while r != 0
      invariant 0 <= q && 0 <= ix0 && s0 == 2 * q
      invariant k >= 0 && (k == 0 <==> r == 0) && (k > 0 ==> r == Pow2(k - 1)) && r <= 0x20_0000
      invariant Settled(n, Wide(q, 0), if r == 0 then SIGN else Wide(r, 0), Wide(ix0, ix1))
      decreases k
    {
      if k >= 2 { Pow2Succ(k - 2); }
      HighStep(n, q, r, ix0, ix1);
      var t := s0 + r;
      if t <= ix0 {
        s0 := t + r;
        ix0 := ix0 - t;
        q := q + r;
      }
      DoubleWide(ix0, ix1);
      ix0 := ix0 + ix0 + ix1 / SIGN;
      ix1 := Wrap(ix1 + ix1);
      r := r / 2;
      k := k - 1;
    }
    DigitBounds(n, Wide(q, 0), SIGN, Wide(ix0, ix1), 0x40_0000_0000_0000);
  }

  /** The digits of weight `r` and below of the low word of the root are still zero. */
  ghost predicate Room(q1: uint32, r: nat) {
    q1 <= WORD - 2 * r && (r < SIGN && q1 < SIGN ==> q1 <= SIGN - 2 * r)
  }

  /** Only the first digit of the low word makes the doubled root carry, and the test of the
      source, on the sign bits before and after, detects it. */
  lemma CarryOut(q: nat, q1: uint32, s0: int, s1: uint32, r: nat)
    requires r == SIGN || (0 < r && 2 * r <= SIGN)
    requires Room(q1, r) && Wide(s0, s1) == 2 * Wide(q, q1)
    ensures s1 + r < WORD && q1 + r < WORD && Wrap(s1 + r) == s1 + r && Wrap(q1 + r) == q1 + r
    ensures var t1 := Wrap(s1 + r);
            var s1' := Wrap(t1 + r);
            var carry := if t1 >= SIGN && s1' < SIGN then 1 else 0;
            Wide(s0 + carry, s1') == 2 * Wide(q, q1 + r)
    ensures Room(q1, r / 2) && Room(q1 + r, r / 2)
  {
    var top := if q1 < SIGN then 0 else 1;
    assert s1 == 2 * q1 - top * WORD && s0 == 2 * q + top;
    if r == SIGN {
      assert Wrap(s1 + r + r) == 0;
    } else {
      assert s1 + r + r < WORD;
    }
  }

  lemma CompareWide(h: int, l: uint32, h': int, l': uint32)
    ensures (h < h' || (h == h' && l <= l')) <==> Wide(h, l) <= Wide(h', l')
  {
  }

  /** One iteration of the second loop before the remainder is doubled. */
  lemma LowStep(n: nat, q: nat, q1: uint32, s0: nat, s1: uint32, r: uint32, ix0: nat, ix1: uint32)
    requires r == SIGN || r == 1 || (0 < r && r % 2 == 0 && 2 * r <= SIGN)
    requires Room(q1, r) && Wide(s0, s1) == 2 * Wide(q, q1)
    requires Settled(n, Wide(q, q1), r, Wide(ix0, ix1))
    requires n < 0x40_0000_0000_0000 * 0x40_0000_0000_0000
    ensures Wide(q, q1) >= 0 && Wide(ix0, ix1) >= 0
    ensures s1 + r < WORD && q1 + r < WORD && q < 0x40_0000 && ix0 < 0x200_0000 && s0 < 0x80_0000
    ensures Room(q1, r / 2) && Room(q1 + r, r / 2)
    ensures Wrap(q1 + r) == q1 + r
    ensures var t1 := Wrap(s1 + r);
            if s0 < ix0 || (s0 == ix0 && t1 <= ix1) then
              var s1' := Wrap(t1 + r);
              var carry := if t1 >= SIGN && s1' < SIGN then 1 else 0;
              var rest := ix0 - s0 - (if ix1 < t1 then 1 else 0);
              && rest >= 0 && Wide(s0 + carry, s1') == 2 * Wide(q, q1 + r)
              && Settled(n, Wide(q, q1 + r), r / 2, 2 * Wide(rest, Wrap(ix1 - t1)))
            else
              Settled(n, Wide(q, q1), r / 2, 2 * Wide(ix0, ix1))
  {
    hide Settled;
    hide Room;
    hide Wrap;
    DigitBounds(n, Wide(q, q1), r, Wide(ix0, ix1), 0x40_0000_0000_0000);
    CarryOut(q, q1, s0, s1, r);
    Digit(n, Wide(q, q1), r, Wide(ix0, ix1));
    var t1 := Wrap(s1 + r);
    CompareWide(s0, t1, ix0, ix1);
    SubtractWide(ix0, ix1, s0, t1);
  }

  lemma NoDigitYet(q: int)
    ensures Room(0, SIGN) && Wide(2 * q, 0) == 2 * Wide(q, 0)
  {
  }

  /** The second loop, e_sqrt.c:164-181: the low word of the root, with carries between the
      words of the doubled root and borrows between those of the remainder. */
  method LowDigits(q: int32, i0: int32, i1: uint32, ghost n: nat)
    returns (q1: uint32, ix0: int32, ix1: uint32)
    requires 0 <= q < 0x40_0000 && 0 <= i0 && Settled(n, Wide(q, 0), SIGN, Wide(i0, i1))
    requires n < 0x40_0000_0000_0000 * 0x40_0000_0000_0000
    ensures 0 <= ix0 && IsRoot(n, Wide(q, q1), Wide(ix0, ix1))
  {
    hide Pow2;
    hide Settled;
    hide IsRoot;
    hide Room;
    hide Wide;
    hide Wrap;
    ix0, ix1 := i0, i1;
    q1 := 0;
    var s0: int32, s1: uint32 := 2 * q, 0;
    var r: uint32 := SIGN;
    ghost var k := 32;
    Pow2Values();
    Pow2Succ(0);
    NoDigitYet(q);
    while r != 0
      invariant 0 <= ix0 && 0 <= s0
      invariant k >= 0 && (k == 0 <==> r == 0) && (k > 0 ==> r == Pow2(k - 1)) && r <= SIGN
      invariant Wide(s0, s1) == 2 * Wide(q, q1)
      invariant Room(q1, r) && (r == SIGN || 2 * r <= SIGN)
      invariant Settled(n, Wide(q, q1), r, Wide(ix0, ix1))
      decreases k
    {
      if k >= 2 { Pow2Succ(k - 2); }
      LowStep(n, q, q1, s0, s1, r, ix0, ix1);
      var t1 := Wrap(s1 + r);
      var t := s0;
      if t < ix0 || (t == ix0 && t1 <= ix1) {
        s1 := Wrap(t1 + r);
        if t1 >= SIGN && s1 < SIGN {
          s0 := s0 + 1;
        }
        ix0 := ix0 - t;
        if ix1 < t1 {
          ix0 := ix0 - 1;
        }
        ix1 := Wrap(ix1 - t1);
        q1 := Wrap(q1 + r);
      }
      DoubleWide(ix0, ix1);
      ix0 := ix0 + ix0 + ix1 / SIGN;
      ix1 := Wrap(ix1 + ix1);
      r := r / 2;
      k := k - 1;
    }
    FinishDigits(n, Wide(q, q1), Wide(ix0, ix1));
  }

  /** The subnormal inputs on which e_sqrt.c:136 shifts a 32-bit word by 32, which C leaves
      undefined: the leading one arrives at its place without a single-bit shift. */
  predicate ShiftsByWord(x0: int32, x1: uint32) {
    x0 == 0 && (x1 >= SIGN || 0x400 <= x1 < 0x800)
  }

  lemma Move21(x: uint32)
    ensures Wide(x / 0x800, Wrap(x * 0x20_0000)) == x * 0x20_0000
    ensures x < 0x800 ==> Wrap(x * 0x20_0000) == x * 0x20_0000
    ensures x < 0x800 ==> x * 0x20_0000 / 0x800 == x * 0x400
    ensures x < 0x800 ==> Wrap(x * 0x20_0000 * 0x20_0000) == 0
  {
    var up, rest := x / 0x800, x % 0x800;
    DivModUnique(x * 0x20_0000, WORD, up, rest * 0x20_0000);
    if x < 0x800 {
      DivModUnique(x * 0x20_0000, 0x800, x * 0x400, 0);
      DivModUnique(x * 0x20_0000 * 0x20_0000, WORD, x * 0x400, 0);
    }
  }

  /** A subnormal of the low word alone is moved up by 21 bits at a time, at most twice. */
  method MoveUp(x1: uint32) returns (ix0: int32, ix1: uint32, m: int32)
    requires 0 < x1
    ensures 0 < ix0 < 0x20_0000 && (m == -21 || m == -42)
    ensures Wide(ix0, ix1) == x1 * Pow2(-m)
    ensures ix0 >= 0x10_0000 <==> ShiftsByWord(0, x1)
  {
    hide Pow2;
    ix0, ix1, m := 0, x1, 0;
    Move21(x1);
    Pow2Values();
    Pow2Add(21, 21);
    while ix0 == 0
      invariant m == 0 || m == -21 || m == -42
      invariant m == 0 ==> ix0 == 0 && ix1 == x1
      invariant m == -21 ==> ix0 == x1 / 0x800 && ix1 == Wrap(x1 * 0x20_0000)
      invariant m == -42 ==> x1 < 0x800 && ix0 == x1 * 0x400 && ix1 == 0
      decreases m + 42
    {
      m := m - 21;
      ix0 := ix1 / 0x800;
      ix1 := Wrap(ix1 * 0x20_0000);
    }
  }

  /** Single-bit shifts of the high word until the leading bit is in place; the low word then
      follows in one shift by the same count `i`, which the source leaves undefined at 0. */
  method ShiftIntoPlace(a: int32, low: uint32) returns (i: int32, ix0: int32, ix1: uint32)
    requires 0 < a < 0x20_0000
    ensures 0 <= i <= 20 && (i == 0 <==> a >= 0x10_0000)
    ensures i > 0 ==> HIDDEN <= Wide(ix0, ix1) < 2 * HIDDEN
    ensures i > 0 ==> Wide(ix0, ix1) == Wide(a, low) * Pow2(i)
  {
    hide Pow2;
    ix0, ix1, i := a, low, 0;
    Pow2Values();
    Pow2Succ(0);
    Pow2Succ(20);
    while ix0 / 0x10_0000 % 2 == 0
      invariant 0 <= i <= 20 && 0 < ix0 < 0x20_0000
      invariant ix0 == a * Pow2(i) && ix0 >= Pow2(i)
      invariant i > 0 ==> a < 0x10_0000
      decreases 0x20_0000 - ix0
    {
      Pow2Succ(i);
      assert a * (2 * Pow2(i)) == 2 * ix0;
      ix0 := ix0 * 2;
      i := i + 1;
    }
    if i > 0 {
      ShiftLeftWide(a, low, i);
      FillLowBits(a, i, low / Pow2(32 - i));
      ix0 := ix0 + ix1 / Pow2(32 - i);
      ix1 := Wrap(ix1 * Pow2(i));
    }
  }

  /** Subnormals, unless the normalisation meets the shift by 32. */
  method NormaliseSubnormal(x0: int32, x1: uint32)
    returns (defined: bool, ix0: int32, ix1: uint32, m: int32)
    requires 0 <= x0 < 0x10_0000 && Wide(x0, x1) > 0
    ensures defined <==> !ShiftsByWord(x0, x1)
    ensures defined ==>
              && HIDDEN <= Wide(ix0, ix1) < 2 * HIDDEN && -51 <= m <= 0
              && Wide(x0, x1) * Pow2(1074) == Wide(ix0, ix1) * Pow2((m + 1073) as nat)
  {
    hide Pow2;
    Pow2Values();
    ix0, ix1, m := x0, x1, 0;
    ghost var v := Wide(x0, x1);
    if ix0 == 0 {
      ix0, ix1, m := MoveUp(x1);
    } else {
      Pow2Succ(0);
    }
    ghost var moved, w := -m, Wide(ix0, ix1);
    assert w == v * Pow2(moved);
    var i;
    i, ix0, ix1 := ShiftIntoPlace(ix0, ix1);
    m := m - (i - 1);
    if i == 0 {
      return false, ix0, ix1, m;
    }
    ghost var z := Wide(ix0, ix1);
    Rescale(v, moved, i, w);
    Pow2Succ(52);
    ShiftBound(v, moved + i, 53);
    Rescale(v, moved + i, 1074 - moved - i, z);
    defined := true;
  }

  /** Significand and unbiased exponent of a positive finite pattern. */
  method Normalise(x0: int32, x1: uint32)
    returns (defined: bool, ix0: int32, ix1: uint32, m: int32)
    requires 0 <= x0 < 0x7ff0_0000 && Wide(x0, x1) > 0
    ensures defined <==> !ShiftsByWord(x0, x1)
    ensures defined ==>
              && HIDDEN <= Wide(ix0, ix1) < 2 * HIDDEN && -1074 <= m <= 1023
              && Mag(HIDDEN, Wide(x0, x1)) * Pow2(1074) == Wide(ix0, ix1) * Pow2((m + 2096) as nat)
  {
    hide Pow2;
    ix0, ix1 := x0, x1;
    m := ix0 / 0x10_0000;
    if m == 0 {
      defined, ix0, ix1, m := NormaliseSubnormal(x0, x1);
      if !defined {
        return;
      }
    } else {
      defined := true;
      ghost var v := Wide(x0, x1);
      var k, z := Normalised(HIDDEN, v);
      FieldsOfWide(x0, x1);
      Lift(Mag(HIDDEN, v), k, 1074, z);
    }
    m := m - 1023;
    ix0 := ix0 % 0x10_0000 + 0x10_0000;
  }

  datatype Root = Words(high: int32, low: uint32) | NotANumber | Undefined

  lemma ParityWide(high: int, low: uint32)
    ensures Wide(high, low) % 2 == low % 2
  {
    DivModUnique(Wide(high, low), 2, high * SIGN + low / 2, low % 2);
  }

  /** The last digit is dropped after rounding, with the carry between the words written out. */
  method RoundWords(q: int32, q1: uint32, inexact: bool, mode: RoundingMode)
    returns (high: int32, low: uint32)
    requires 0 <= q < 0x40_0000
    ensures 0 <= high <= 0x20_0000
    ensures Wide(high, low) == RoundDigits(mode, Wide(q, q1), inexact)
  {
    high, low := q, q1;
    ghost var d := Wide(q, q1);
    ParityWide(q, q1);
    if inexact {
      if mode == ToNearest || mode == Upward {
        if low == 0xffff_ffff {
          low := 0;
          high := high + 1;
        } else if mode == Upward {
          if low == 0xffff_fffe {
            high := high + 1;
          }
          low := Wrap(low + 2);
        } else {
          low := low + low % 2;
        }
      }
    }
    ghost var up := if !inexact || mode == Downward || mode == TowardZero then 0
                    else if mode == ToNearest || q1 == 0xffff_ffff then d % 2 else 2;
    assert Wide(high, low) == d + up;
    assert (d + up) / 2 == RoundDigits(mode, d, inexact);
    HalveWide(high, low);
    low := low / 2 + (if high % 2 == 1 then SIGN else 0);
    high := high / 2;
  }

  lemma HalveWide(high: int, low: uint32)
    ensures Wide(high, low) / 2 == Wide(high / 2, low / 2 + (if high % 2 == 1 then SIGN else 0))
  {
  }

  /** The root of a positive finite number, unless its normalisation is undefined. */
  method PositiveRoot(x0: int32, x1: uint32, mode: RoundingMode) returns (root: Root)
    requires 0 <= x0 < 0x7ff0_0000 && Wide(x0, x1) > 0
    ensures root.Undefined? <==> ShiftsByWord(x0, x1)
    ensures !root.Undefined? ==>
              && root.Words? && 0 <= root.high < 0x7ff0_0000
              && RoundsRoot(HIDDEN, mode, Mag(HIDDEN, Wide(x0, x1)) * Pow2(1074), Wide(root.high, root.low))
  {
    hide Pow2;
    hide Mag;
    hide RoundsRoot;
    hide IsRoot;
    hide Settled;
    hide RoundDigits;
    hide ShiftsByWord;
    var defined, ix0, ix1, m := Normalise(x0, x1);
    if !defined {
      return Undefined;
    }
    ghost var z, odd := Wide(ix0, ix1), m % 2;
    if m % 2 == 1 {
      DoubleWide(ix0, ix1);
      ix0 := ix0 + ix0 + ix1 / SIGN;
      ix1 := Wrap(ix1 + ix1);
    }
    m := m / 2;
    DoubleWide(ix0, ix1);
    ix0 := ix0 + ix0 + ix1 / SIGN;
    ix1 := Wrap(ix1 + ix1);
    ghost var i := Wide(ix0, ix1);
    assert i == (2 + 2 * odd) * z;
    ghost var n: nat := i * 0x20_0000_0000_0000;
    var q, i0, i1 := HighDigits(ix0, ix1, n);
    var q1;
    q1, ix0, ix1 := LowDigits(q, i0, i1, n);
    DigitRange(i, n, Wide(q, q1), Wide(ix0, ix1));
    ghost var digits, rem := Wide(q, q1), Wide(ix0, ix1);
    Pow2Values();
    RootPattern(52, HIDDEN, Mag(HIDDEN, Wide(x0, x1)) * Pow2(1074), z, (m + 1022) as nat, odd, mode, digits, rem);
    var high, low := RoundWords(q, q1, !(ix0 == 0 && ix1 == 0), mode);
    ix0 := high + 0x3fe0_0000;
    ix0 := ix0 + m * 0x10_0000;
    root := Words(ix0, low);
  }

  lemma DigitRange(i: nat, n: nat, q: nat, rem: nat)
    requires 0x20_0000_0000_0000 <= i <= 0x7f_ffff_ffff_fffc && n == i * 0x20_0000_0000_0000
    requires IsRoot(n, q, rem)
    ensures 0x20_0000_0000_0000 <= q <= 0x3f_ffff_ffff_fffe
  {
    InexactRemainder(n, q, rem);
    CompareRoot(n, q, 0x20_0000_0000_0000);
    CompareRoot(n, q, 0x3f_ffff_ffff_ffff);
  }

  /** The whole function, on the two words of `x`. `NotANumber` stands for the results that the
      source leaves to NaN arithmetic, `Undefined` for a shift by the width of the word. */
  method Sqrt(x0: int32, x1: uint32, mode: RoundingMode) returns (root: Root)
    ensures 0 <= x0 < 0x7ff0_0000 && Wide(x0, x1) > 0 ==>
              && (root.Undefined? <==> ShiftsByWord(x0, x1))
              && (!root.Undefined? ==>
                    && root.Words? && 0 <= root.high < 0x7ff0_0000
                    && RoundsRoot(HIDDEN, mode, Mag(HIDDEN, Wide(x0, x1)) * Pow2(1074), Wide(root.high, root.low)))
    ensures (x0 == 0 || x0 == -0x8000_0000 || x0 == 0x7ff0_0000) && x1 == 0 ==> root == Words(x0, x1)
    ensures x0 >= 0x7ff0_0000 && !(x0 == 0x7ff0_0000 && x1 == 0) ==> root == NotANumber
    ensures x0 < 0 && !(x0 == -0x8000_0000 && x1 == 0) ==> root == NotANumber
  {
    hide Pow2;
    hide Mag;
    hide RoundsRoot;
    if Wrap(x0) / 0x10_0000 % 0x800 == 0x7ff {
      return if x0 == 0x7ff0_0000 && x1 == 0 then Words(x0, x1) else NotANumber;
    }
    if x0 <= 0 {
      if Wrap(x0) % SIGN == 0 && x1 == 0 {
        return Words(x0, x1);
      } else if x0 < 0 {
        return NotANumber;
      }
    }
    root := PositiveRoot(x0, x1, mode);
  }
}
