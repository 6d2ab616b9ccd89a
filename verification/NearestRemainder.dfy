/** IEEE remainder, built on the truncating one: libpok/libm/e_remainder.c.

    After the two calls of `fabs` the source works with floating-point additions and
    subtractions. Here such a number is its exact integer value in units of 2^-1074, and every
    operation carries the obligation that its exact result is representable: only then is the
    value of the result the one that the hardware returns, whatever the rounding mode. The sign of a
    zero does depend on the mode, and is kept beside the value. */
module NearestRemainder {
  import opened PowersOfTwo
  import opened FloatFormat
  import opened Words
  import opened FmodDouble
  import opened ExactRemainder

  ghost predicate Representable(v: int) {
    exists b: nat :: b < INFINITE && (Mag(HIDDEN, b) == v || Mag(HIDDEN, b) == -v)
  }

  function Plus(a: int, b: int): int
    requires Representable(a + b)
  {
    a + b
  }

  function Minus(a: int, b: int): int
    requires Representable(a - b)
  {
    a - b
  }

  /** The sign of the difference of two positive numbers: that of an exact zero is minus only when
      rounding downward (IEEE 754-2008, section 6.3). */
  predicate NegativeDifference(mode: RoundingMode, a: int, b: int) {
    a < b || (a == b && mode == Downward)
  }

  function Half(a: int): int
    requires a % 2 == 0 && Representable(a / 2)
  {
    a / 2
  }

  lemma MultiplesAreRepresentable(w: nat, k: nat, bound: nat)
    requires w <= 2 * HIDDEN && bound < INFINITE
    requires w * Pow2(k) <= Mag(HIDDEN, bound)
    ensures Representable(w * Pow2(k))
    decreases k
  {
    hide Pow2;
    hide Mag;
    if w >= HIDDEN {
      MagAt(HIDDEN, k, w);
      var b := w + k * HIDDEN;
      if bound < b {
        MagMonotone(HIDDEN, bound, b);
      }
    } else if k == 0 {
      Pow2Succ(0);
      SubnormalMag(w);
    } else {
      Pow2Succ(k - 1);
      assert w * (2 * Pow2(k - 1)) == (2 * w) * Pow2(k - 1);
      MultiplesAreRepresentable(2 * w, k - 1, bound);
    }
  }

  lemma SubnormalMag(b: nat)
    requires b < HIDDEN
    ensures Mag(HIDDEN, b) == b
  {
  }

  /** Significand and exponent of any finite pattern. */
  lemma Decompose(b: nat) returns (z: nat, k: nat)
    requires b < INFINITE
    ensures z < 2 * HIDDEN && Mag(HIDDEN, b) == z * Pow2(k)
  {
    if b < HIDDEN {
      z, k := b, 0;
    } else {
      k, z := Normalised(HIDDEN, b);
    }
  }

  lemma CommonExponent(z: nat, k: nat, z': nat, k': nat)
    requires k <= k'
    ensures z' * Pow2(k') == (z' * Pow2(k' - k)) * Pow2(k)
  {
    hide Pow2;
    Rescale(z', k' - k, k, z' * Pow2(k' - k));
  }

  lemma DifferenceFits(v: nat, z: nat, w: nat, k: nat, bound: nat)
    requires v == z * Pow2(k) && z < 2 * HIDDEN && w <= 2 * z
    requires bound < INFINITE && v <= Mag(HIDDEN, bound)
    ensures Representable(v - w * Pow2(k)) && Representable(w * Pow2(k) - v)
  {
    hide Pow2;
    hide Mag;
    hide Representable;
    var d := if w <= z then z - w else w - z;
    assert d * Pow2(k) <= z * Pow2(k);
    MultiplesAreRepresentable(d, k, bound);
    Distribute(z, w, Pow2(k));
    Distribute(w, z, Pow2(k));
    Mirror(d * Pow2(k));
  }

  lemma Mirror(v: int)
    requires Representable(v)
    ensures Representable(-v)
  {
    hide Pow2;
    hide Mag;
    var b: nat :| b < INFINITE && (Mag(HIDDEN, b) == v || Mag(HIDDEN, b) == -v);
  }

  lemma SterbenzOrdered(a: nat, b: nat, za: nat, ka: nat, zb: nat, kb: nat)
    requires a < INFINITE && za < 2 * HIDDEN && ka <= kb
    requires Mag(HIDDEN, a) == za * Pow2(ka) && Mag(HIDDEN, b) == zb * Pow2(kb)
    requires Mag(HIDDEN, b) <= 2 * Mag(HIDDEN, a)
    ensures Representable(Mag(HIDDEN, a) - Mag(HIDDEN, b))
    ensures Representable(Mag(HIDDEN, b) - Mag(HIDDEN, a))
  {
    hide Pow2;
    hide Mag;
    hide Representable;
    CommonExponent(za, ka, zb, kb);
    var w := zb * Pow2(kb - ka);
    Distribute(2 * za, 1, Pow2(ka));
    assert (2 * za) * Pow2(ka) == 2 * (za * Pow2(ka));
    FactorBelow(w, 2 * za + 1, Pow2(ka));
    DifferenceFits(Mag(HIDDEN, a), za, w, ka, a);
  }

  /** Numbers within a factor of two of each other have a representable difference. */
  lemma Sterbenz(a: nat, b: nat)
    requires a < INFINITE && b < INFINITE
    requires Mag(HIDDEN, a) <= 2 * Mag(HIDDEN, b) && Mag(HIDDEN, b) <= 2 * Mag(HIDDEN, a)
    ensures Representable(Mag(HIDDEN, a) - Mag(HIDDEN, b))
  {
    hide Pow2;
    hide Mag;
    hide Representable;
    var za, ka := Decompose(a);
    var zb, kb := Decompose(b);
    if ka <= kb {
      SterbenzOrdered(a, b, za, ka, zb, kb);
    } else {
      SterbenzOrdered(b, a, zb, kb, za, ka);
    }
  }

  /** `r` is `x - n * p` for the integer `n` nearest to `x / p`, the even one of two
      (IEEE 754-2008, section 5.3.1). */
  ghost predicate NearestRemainder(x: int, p: nat, r: int) {
    exists n: int :: IsQuotient(x, p, r, n)
  }

  ghost predicate IsQuotient(x: int, p: nat, r: int, n: int) {
    r == x - n * p && 0 <= 2 * r + p <= 2 * p && (2 * r == p || 2 * r + p == 0 ==> n % 2 == 0)
  }

  /** The definition leaves no choice. */
  lemma NearestRemainderUnique(x: int, p: nat, r: int, r': int)
    requires p > 0 && NearestRemainder(x, p, r) && NearestRemainder(x, p, r')
    ensures r == r'
  {
    var n :| IsQuotient(x, p, r, n);
    var n' :| IsQuotient(x, p, r', n');
    Distribute(n', n, p);
    MultipleIsFar(n' - n, p);
    MultipleIsFar(n' - n - 1, p);
    MultipleIsFar(n' - n + 1, p);
    Distribute(n' - n, 1, p);
  }

  /** Reducing by `2p` first keeps the parity of the quotient. */
  lemma ReduceTwice(v: nat, p: nat, y: nat, r: int)
    requires p > 0 && y == v % (2 * p)
    requires r == if 2 * y <= p then y else if 2 * (y - p) < p then y - p else y - 2 * p
    ensures NearestRemainder(v, p, r) && NearestRemainder(0 - v, p, -r)
  {
    var c := v / (2 * p);
    var d := if 2 * y <= p then 0 else if 2 * (y - p) < p then 1 else 2;
    assert v == (2 * p) * c + y;
    assert (2 * p) * c == (2 * c) * p;
    Distribute(2 * c, d, p);
    assert IsQuotient(v, p, r, 2 * c + d);
    Distribute(0, 2 * c + d, p);
    assert IsQuotient(0 - v, p, -r, 0 - (2 * c + d));
  }

  /** `p + p`, which does not overflow for the patterns the source adds. */
  function DoublePattern(b: nat): nat {
    if b < HIDDEN then 2 * b else b + HIDDEN
  }

  lemma DoublePatternMag(b: nat)
    ensures Mag(HIDDEN, DoublePattern(b)) == 2 * Mag(HIDDEN, b)
  {
    hide Pow2;
    if b < HIDDEN {
      SubnormalMag(b);
      Pow2Succ(0);
      if 2 * b >= HIDDEN {
        MagAt(HIDDEN, 0, 2 * b);
      }
    } else {
      var k, z := Normalised(HIDDEN, b);
      MagAt(HIDDEN, k + 1, z);
      Pow2Succ(k);
      assert z * (2 * Pow2(k)) == 2 * (z * Pow2(k));
    }
  }

  datatype Rest = Number(negative: bool, magnitude: nat) | Invalid

  lemma PatternIsRepresentable(b: nat)
    requires b < INFINITE
    ensures Representable(Mag(HIDDEN, b))
  {
  }

  /** Below 2^-1020 every value is a multiple of the unit and doubling is exact. */
  lemma SmallDoubles(b: nat, y: nat)
    requires b < 2 * HIDDEN && y < INFINITE && Mag(HIDDEN, y) < 2 * Mag(HIDDEN, b)
    ensures Representable(Mag(HIDDEN, y) + Mag(HIDDEN, y))
  {
    hide Pow2;
    hide Mag;
    DoublePatternMag(b);
    if y >= 3 * HIDDEN {
      MagMonotone(HIDDEN, DoublePattern(b), y);
    }
    DoublePatternMag(y);
    PatternIsRepresentable(DoublePattern(y));
  }

  lemma SmallValueDoubles(r: int, b: nat)
    requires b < 2 * HIDDEN && Representable(r)
    requires r <= Mag(HIDDEN, b) && -r <= Mag(HIDDEN, b)
    ensures Representable(r + r)
  {
    hide Pow2;
    hide Mag;
    var c: nat :| c < INFINITE && (Mag(HIDDEN, c) == r || Mag(HIDDEN, c) == -r);
    if b < c {
      MagMonotone(HIDDEN, b, c);
    }
    DoublePatternMag(c);
    PatternIsRepresentable(DoublePattern(c));
    Mirror(2 * Mag(HIDDEN, c));
  }

  lemma SecondSubtraction(r: int, b: nat)
    requires b < INFINITE && Representable(r)
    requires 0 < r <= Mag(HIDDEN, b) <= 2 * r
    ensures Representable(r - Mag(HIDDEN, b))
  {
    hide Pow2;
    hide Mag;
    var c: nat :| c < INFINITE && (Mag(HIDDEN, c) == r || Mag(HIDDEN, c) == -r);
    Sterbenz(c, b);
  }

  lemma HalfIsRepresentable(b: nat)
    requires 2 * HIDDEN <= b < INFINITE
    ensures Mag(HIDDEN, b) % 2 == 0 && Representable(Mag(HIDDEN, b) / 2)
  {
    hide Pow2;
    hide Mag;
    DoublePatternMag(b - HIDDEN);
    PatternIsRepresentable(b - HIDDEN);
  }

  /** The steps after `fabs`, e_remainder.c:70-81: at most two subtractions, and which
      comparison guards them depends on whether half of p is a normal number. */
  method Subtract(y: nat, hp: int32, lp: uint32, mode: RoundingMode) returns (r: int, minus: bool)
    requires 0 <= hp && 0 < Wide(hp, lp) < INFINITE
    requires y < INFINITE && Mag(HIDDEN, y) < 2 * Mag(HIDDEN, Wide(hp, lp))
    ensures var v, p := Mag(HIDDEN, y), Mag(HIDDEN, Wide(hp, lp));
            r == if 2 * v <= p then v else if 2 * (v - p) < p then v - p else v - 2 * p
    ensures Representable(r)
    ensures minus <==> r < 0 || (mode == Downward && Mag(HIDDEN, y) == Mag(HIDDEN, Wide(hp, lp)))
  {
    hide Pow2;
    hide Mag;
    hide Representable;
    ghost var b: nat := Wide(hp, lp);
    var p := Mag(HIDDEN, Wide(hp, lp));
    r, minus := Mag(HIDDEN, y), false;
    PatternIsRepresentable(y);
    if hp < 0x0020_0000 {
      SmallDoubles(b, y);
      if Plus(r, r) > p {
        Sterbenz(y, b);
        r, minus := Minus(r, p), NegativeDifference(mode, r, p);
        SmallValueDoubles(r, b);
        if Plus(r, r) >= p {
          SecondSubtraction(r, b);
          r, minus := Minus(r, p), NegativeDifference(mode, r, p);
        }
      }
    } else {
      HalfIsRepresentable(b);
      var half := Half(p);
      if r > half {
        Sterbenz(y, b);
        r, minus := Minus(r, p), NegativeDifference(mode, r, p);
        if r >= half {
          SecondSubtraction(r, b);
          r, minus := Minus(r, p), NegativeDifference(mode, r, p);
        }
      }
    }
  }

  /** The largest divisors exceed half of every finite number. */
  lemma LargeDivisor(b: nat, c: nat)
    requires b < INFINITE && 0x7fe0_0000_0000_0000 <= c
    ensures Mag(HIDDEN, b) < 2 * Mag(HIDDEN, c)
  {
    hide Pow2;
    hide Mag;
    DoublePatternMag(c);
    MagMonotone(HIDDEN, b, DoublePattern(c));
  }

  /** `x = __ieee754_fmod(x, p + p)`, e_remainder.c:66-67, and then `fabs`. */
  method ReduceByDouble(x: int32, xl: uint32, p: int32, pl: uint32) returns (y: nat)
    requires Pattern(x, xl) < INFINITE && 0 < Pattern(p, pl) && Abs(p) <= 0x7fdf_ffff
    ensures y < INFINITE && Mag(HIDDEN, Pattern(p, pl)) > 0
    ensures Mag(HIDDEN, y) == Mag(HIDDEN, Pattern(x, xl)) % (2 * Mag(HIDDEN, Pattern(p, pl)))
  {
    hide Pow2;
    hide Mag;
    var double := DoublePattern(Pattern(p, pl));
    DoublePatternMag(Pattern(p, pl));
    var dh: int32, dl: uint32 := double / WORD, double % WORD;
    assert Wide(dh, dl) == double;
    var sp: int32 := if p < 0 then -0x8000_0000 else 0;
    var reduced := Fmod(x, xl, dh + sp, dl);
    y := Pattern(reduced.high, reduced.low);
  }

  /** The remainder is zero, and is the exact difference of two equal numbers. */
  ghost predicate EqualDifference(a: nat, b: nat) {
    var v, m := Mag(HIDDEN, a), Mag(HIDDEN, b);
    a != b && m > 0 && v % (2 * m) == m
  }

  /** The whole function. A zero result has the sign of x, unless it is rounded downward and is the
      difference of two equal numbers. */
  method Remainder(x: int32, xl: uint32, p: int32, pl: uint32, mode: RoundingMode) returns (result: Rest)
    ensures Pattern(x, xl) < INFINITE && 0 < Pattern(p, pl) < INFINITE ==>
              var v, m := Mag(HIDDEN, Pattern(x, xl)), Mag(HIDDEN, Pattern(p, pl));
              && result.Number?
              && NearestRemainder(if x < 0 then 0 - v else v, m,
                                  if result.negative then 0 - result.magnitude else result.magnitude)
              && Representable(result.magnitude)
              && (result.magnitude == 0 ==>
                    ((result.negative <==> x < 0)
                     <==> !(mode == Downward && EqualDifference(Pattern(x, xl), Pattern(p, pl)))))
    ensures Pattern(x, xl) < INFINITE && Pattern(p, pl) == INFINITE ==>
              result == Number(x < 0, Mag(HIDDEN, Pattern(x, xl)))
    ensures Pattern(x, xl) >= INFINITE || Pattern(p, pl) == 0 || Pattern(p, pl) > INFINITE ==>
              result == Invalid
  {
    hide Pow2;
    hide Mag;
    hide Representable;
    hide NearestRemainder;
    var hx, hp := Abs(x), Abs(p);
    if hp == 0 && pl == 0 {
      return Invalid;
    }
    if hx >= 0x7ff0_0000 || (hp >= 0x7ff0_0000 && !(hp == 0x7ff0_0000 && pl == 0)) {
      return Invalid;
    }
    if hp == 0x7ff0_0000 {
      // Neither the early return nor the comparison with half of infinity is taken.
      return Number(x < 0, Mag(HIDDEN, Wide(hx, xl)));
    }
    ghost var v, m := Mag(HIDDEN, Wide(hx, xl)), Mag(HIDDEN, Wide(hp, pl));
    MagZero(HIDDEN);
    MagMonotone(HIDDEN, 0, Wide(hp, pl));
    var y := Wide(hx, xl);
    if hp <= 0x7fdf_ffff {
      y := ReduceByDouble(x, xl, p, pl);
    } else {
      LargeDivisor(Wide(hx, xl), Wide(hp, pl));
      DivModUnique(v, 2 * m, 0, v);
    }
    if hx == hp && xl == pl {
      DivModUnique(v, 2 * m, 0, v);
      ReduceTwice(v, m, v, 0);
      PatternIsRepresentable(0);
      return Number(x < 0, 0);
    }
    var r, minus := Subtract(y, hp, pl, mode);
    ReduceTwice(v, m, Mag(HIDDEN, y), r);
    result := Number(minus != (x < 0), if r < 0 then -r else r);
    if r < 0 {
      Mirror(r);
    }
  }

  /** 3.0 by 1.0 is such a difference: rounding downward, the source returns minus zero. */
  lemma ThreeByOne()
    ensures EqualDifference(Pattern(0x4008_0000, 0), Pattern(0x3ff0_0000, 0))
  {
    hide Pow2;
    var u := Pow2(1022);
    Pow2Succ(1022);
    MagFields(HIDDEN, Pattern(0x4008_0000, 0), 1024, HIDDEN / 2);
    MagFields(HIDDEN, Pattern(0x3ff0_0000, 0), 1023, 0);
    var v, m := Mag(HIDDEN, Pattern(0x4008_0000, 0)), Mag(HIDDEN, Pattern(0x3ff0_0000, 0));
    assert v == 3 * m && m > 0;
    DivModUnique(v, 2 * m, 1, m);
  }
}
