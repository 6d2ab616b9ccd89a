/** The mathematics shared by the single- and double-precision square roots: one digit step
    of the bit-by-bit loop, and what the final rounding achieves. */
module SquareRoot {
  import opened PowersOfTwo
  import opened FloatFormat

  /** Digits above weight `r` are settled: `q` is the root so far, `rem` what is left of `n`
      in units of `r`. */
  ghost predicate Partial(n: nat, q: nat, r: nat, rem: nat) {
    r * rem + q * q == n < (q + 2 * r) * (q + 2 * r)
  }

  /** All digits are settled; `rem` has been doubled once too often, as the loop does. */
  ghost predicate IsRoot(n: nat, q: nat, rem: nat) {
    rem == 2 * (n - q * q) && q * q <= n < (q + 1) * (q + 1)
  }

  ghost predicate Settled(n: nat, q: nat, r: nat, rem: nat) {
    if r == 0 then IsRoot(n, q, rem) else Partial(n, q, r, rem)
  }

  /** `q` includes the digit of weight `r`. */
  ghost predicate Chosen(n: nat, q: nat, r: nat, rem: nat) {
    r * rem + q * q == n < (q + r) * (q + r)
  }

  lemma TakeDigit(n: nat, q: nat, r: nat, rem: nat)
    requires Partial(n, q, r, rem) && 2 * q + r <= rem
    ensures Chosen(n, q + r, r, rem - (2 * q + r))
  {
    assert r * (rem - (2 * q + r)) == r * rem - 2 * (r * q) - r * r;
    assert (q + r) * (q + r) == q * q + 2 * (r * q) + r * r;
    assert (q + r) + r == q + 2 * r;
  }

  lemma SkipDigit(n: nat, q: nat, r: nat, rem: nat)
    requires Partial(n, q, r, rem) && rem < 2 * q + r && r > 0
    ensures Chosen(n, q, r, rem)
  {
    assert r * (2 * q + r) == 2 * (r * q) + r * r;
    assert (q + r) * (q + r) == q * q + 2 * (r * q) + r * r;
    assert r * (2 * q + r - rem) > 0;
  }

  lemma HalveWeight(n: nat, q: nat, r: nat, rem: nat)
    requires r == 1 || (r > 0 && r % 2 == 0)
    requires Chosen(n, q, r, rem)
    ensures Settled(n, q, r / 2, 2 * rem)
  {
    var h := r / 2;
    if h != 0 {
      assert h * (2 * rem) == (2 * h) * rem;
    }
  }

  /** One iteration: compare, subtract, double the remainder, halve the digit weight. */
  lemma Digit(n: nat, q: nat, r: nat, rem: nat)
    requires r == 1 || (r > 0 && r % 2 == 0)
    requires Settled(n, q, r, rem)
    ensures 2 * q + r <= rem ==> Settled(n, q + r, r / 2, 2 * (rem - (2 * q + r)))
    ensures rem < 2 * q + r ==> Settled(n, q, r / 2, 2 * rem)
  {
    if 2 * q + r <= rem {
      TakeDigit(n, q, r, rem);
      HalveWeight(n, q + r, r, rem - (2 * q + r));
    } else {
      SkipDigit(n, q, r, rem);
      HalveWeight(n, q, r, rem);
    }
  }

  lemma StartDigits(i: nat, r: nat)
    requires r > 0 && i < 4 * r
    ensures Settled(i * r, 0, r, i)
  {
    assert r * (4 * r - i) > 0;
  }

  lemma SquareMonotone(a: nat, b: nat)
    ensures a < b <==> a * a < b * b
    ensures a <= b <==> a * a <= b * b
  {
    if a < b {
      assert b * b - a * a == (b - a) * (b + a);
    } else {
      assert a * a - b * b == (a - b) * (a + b);
    }
  }

  /** How large the settled digits and the remainder can be. */
  lemma DigitBounds(n: nat, q: nat, r: nat, rem: nat, bound: nat)
    requires Settled(n, q, r, rem) && n < bound * bound
    ensures q < bound && rem <= 4 * (q + r)
  {
    SquareMonotone(q, bound);
    if r > 0 {
      assert (q + 2 * r) * (q + 2 * r) == q * q + r * (4 * (q + r));
      assert r * rem < r * (4 * (q + r));
      assert r * (4 * (q + r) - rem) > 0;
    } else {
      assert (q + 1) * (q + 1) == q * q + 2 * q + 1;
    }
  }

  /** How a candidate root `a` compares with the root of `n` whose floor is `q`. */
  lemma CompareRoot(n: nat, q: nat, a: nat)
    requires q * q <= n < (q + 1) * (q + 1)
    ensures a <= q ==> a * a <= n && (a < q || n != q * q ==> a * a < n)
    ensures q < a ==> n < a * a
  {
    SquareMonotone(a, q);
    SquareMonotone(q + 1, a);
  }

  lemma FinishDigits(n: nat, q: nat, rem: nat)
    requires Settled(n, q, 0, rem)
    ensures IsRoot(n, q, rem) && q * q <= n < (q + 1) * (q + 1)
  {
  }

  lemma InexactRemainder(n: nat, q: nat, rem: nat)
    requires IsRoot(n, q, rem)
    ensures q * q <= n < (q + 1) * (q + 1)
    ensures rem != 0 <==> n != q * q
  {
  }

  /** The last step of the source: adjust the digits for the rounding mode, drop the extra bit. */
  function RoundDigits(mode: RoundingMode, q: nat, inexact: bool): nat {
    (if !inexact then q
     else match mode
       case ToNearest => q + q % 2
       case Upward => q + 2
       case Downward => q
       case TowardZero => q) / 2
  }

  /** `b` is the correctly rounded root of `square` (IEEE 754-2008, sections 4.3 and 5.4.1),
      said of all patterns `w`: rounding to nearest compares with the midpoint between `b` and
      `w` and admits no tie. */
  ghost predicate RoundsRoot(h: nat, mode: RoundingMode, square: nat, b: nat)
    requires h > 0
  {
    match mode
    case ToNearest =>
      forall w: nat | w != b ::
        var sum := Mag(h, w) + Mag(h, b);
        if w < b then sum * sum < 4 * square else 4 * square < sum * sum
    case Upward =>
      square <= Mag(h, b) * Mag(h, b) && forall w: nat | w < b :: Mag(h, w) * Mag(h, w) < square
    case Downward =>
      Mag(h, b) * Mag(h, b) <= square && forall w: nat | b < w :: square < Mag(h, w) * Mag(h, w)
    case TowardZero =>
      Mag(h, b) * Mag(h, b) <= square && forall w: nat | b < w :: square < Mag(h, w) * Mag(h, w)
  }

  lemma ScaleSquare(a: nat, n: nat, u: nat)
    requires u > 0
    ensures (a * u) * (a * u) < n * (u * u) <==> a * a < n
    ensures (a * u) * (a * u) <= n * (u * u) <==> a * a <= n
  {
    assert (a * u) * (a * u) == (a * a) * (u * u);
    assert u * u > 0;
    assert (n - a * a) * (u * u) == n * (u * u) - (a * a) * (u * u);
    MultipleIsFar(n - a * a, u * u);
  }

  lemma OddRootIsInexact(n: nat, q: nat)
    requires n % 4 == 0 && q % 2 == 1
    ensures n != q * q
  {
    var e := q / 2;
    assert q * q == 4 * (e * e + e) + 1;
  }

  /** Half-digit bounds on the rounded significand `z`, in each rounding mode. */
  ghost predicate Bracket(mode: RoundingMode, n: nat, q: nat, z: nat) {
    && q / 2 <= z <= q / 2 + 1
    && match mode
       case ToNearest =>
         && n < (2 * z + 1) * (2 * z + 1)
         && (z == q / 2 ==> (2 * z) * (2 * z) <= n)
         && (z > 0 ==> (2 * z - 1) * (2 * z - 1) < n)
       case Upward =>
         && n <= (2 * z) * (2 * z)
         && (z == q / 2 ==> (2 * z) * (2 * z) <= n)
         && (z > 0 ==> (2 * z - 2) * (2 * z - 2) < n)
       case Downward => (2 * z) * (2 * z) <= n < (2 * z + 2) * (2 * z + 2)
       case TowardZero => (2 * z) * (2 * z) <= n < (2 * z + 2) * (2 * z + 2)
  }

  /** There is no tie because a square divisible by four has no odd root. */
  lemma RoundDigitsBracket(mode: RoundingMode, n: nat, q: nat)
    requires q * q <= n < (q + 1) * (q + 1) && n % 4 == 0 && q > 0
    ensures Bracket(mode, n, q, RoundDigits(mode, q, n != q * q))
  {
    var z := RoundDigits(mode, q, n != q * q);
    if q % 2 == 1 {
      OddRootIsInexact(n, q);
    }
    CompareRoot(n, q, 2 * z);
    match mode
    case ToNearest =>
      CompareRoot(n, q, 2 * z + 1);
      if z > 0 { CompareRoot(n, q, 2 * z - 1); }
    case Upward =>
      if z > 0 { CompareRoot(n, q, 2 * z - 2); }
    case Downward =>
      CompareRoot(n, q, 2 * z + 2);
    case TowardZero =>
      CompareRoot(n, q, 2 * z + 2);
  }

  /** What the neighbours of a pattern stand for. */
  lemma Below(h: nat, k: nat, z: nat, w: nat)
    requires 0 < h <= z <= 2 * h
    requires w < z + k * h
    ensures Mag(h, w) < z * Pow2(k)
    ensures z > h ==> Mag(h, w) <= (z - 1) * Pow2(k)
  {
    MagAt(h, k, z);
    MagMonotone(h, w, z + k * h);
    if z > h {
      MagAt(h, k, z - 1);
      MagMonotone(h, w, z - 1 + k * h);
    }
  }

  lemma Above(h: nat, k: nat, z: nat, w: nat)
    requires 0 < h <= z <= 2 * h
    requires 0 <= z + k * h < w
    ensures (z + 1) * Pow2(k) <= Mag(h, w)
  {
    if z < 2 * h {
      MagAt(h, k, z + 1);
      MagMonotone(h, z + 1 + k * h, w);
    } else {
      MagAt(h, k + 1, h + 1);
      assert h + 1 + (k + 1) * h == z + 1 + k * h;
      MagMonotone(h, z + 1 + k * h, w);
      DoubleUlp(z, h, k);
    }
  }

  lemma DoubleUlp(z: nat, h: nat, k: nat)
    requires z == 2 * h
    ensures (z + 1) * Pow2(k) <= (h + 1) * Pow2(k + 1)
  {
    var u := Pow2(k);
    assert (h + 1) * (2 * u) == (z + 1) * u + u;
  }

  lemma ScaledBelow(x: nat, a: nat, n: nat, u: nat)
    requires u > 0 && x <= a * u && a * a <= n
    ensures x * x <= n * (u * u)
    ensures a * a < n || x < a * u ==> x * x < n * (u * u)
  {
    ScaleSquare(a, n, u);
    SquareMonotone(x, a * u);
  }

  lemma ScaledAbove(x: nat, a: nat, n: nat, u: nat)
    requires u > 0 && a * u <= x && n <= a * a
    ensures n * (u * u) <= x * x
    ensures n < a * a ==> n * (u * u) < x * x
  {
    ScaleSquare(a, n, u);
    SquareMonotone(a * u, x);
  }

  lemma NearestBelow(h: nat, k: nat, n: nat, a: nat, z: nat, w: nat)
    requires 0 < h <= z <= 2 * h && w < z + k * h
    requires if z > h then a == 2 * z - 1 && a * a < n else a == 2 * z && a * a <= n
    ensures (Mag(h, w) + z * Pow2(k)) * (Mag(h, w) + z * Pow2(k)) < n * (Pow2(k) * Pow2(k))
  {
    hide Mag;
    hide Pow2;
    var u := Pow2(k);
    Below(h, k, z, w);
    assert (z - 1) * u + z * u == (2 * z - 1) * u;
    assert z * u + z * u == (2 * z) * u;
    ScaledBelow(Mag(h, w) + z * u, a, n, u);
  }

  lemma NearestAbove(h: nat, k: nat, n: nat, z: nat, w: nat)
    requires 0 < h <= z <= 2 * h && 0 <= z + k * h < w
    requires n < (2 * z + 1) * (2 * z + 1)
    ensures n * (Pow2(k) * Pow2(k)) < (Mag(h, w) + z * Pow2(k)) * (Mag(h, w) + z * Pow2(k))
  {
    hide Mag;
    hide Pow2;
    var u := Pow2(k);
    Above(h, k, z, w);
    assert (z + 1) * u + z * u == (2 * z + 1) * u;
    ScaledAbove(Mag(h, w) + z * u, 2 * z + 1, n, u);
  }

  lemma NearestNeighbours(h: nat, k: nat, n: nat, q: nat, z: nat, w: nat)
    requires 0 < h <= z <= 2 * h && 2 * h <= q
    requires Bracket(ToNearest, n, q, z)
    requires w != z + k * h
    ensures k * h >= 0
    ensures var sum := Mag(h, w) + Mag(h, z + k * h);
            var square4 := n * (Pow2(k) * Pow2(k));
            if w < z + k * h then sum * sum < square4 else square4 < sum * sum
  {
    hide Mag;
    hide Pow2;
    MagAt(h, k, z);
    if w < z + k * h {
      NearestBelow(h, k, n, if z > h then 2 * z - 1 else 2 * z, z, w);
    } else {
      NearestAbove(h, k, n, z, w);
    }
  }

  lemma StrictlyBelow(h: nat, k: nat, n: nat, z: nat, w: nat)
    requires 0 < h < z <= 2 * h && w < z + k * h
    requires (2 * z - 2) * (2 * z - 2) < n
    ensures (2 * Mag(h, w)) * (2 * Mag(h, w)) < n * (Pow2(k) * Pow2(k))
  {
    hide Mag;
    hide Pow2;
    Below(h, k, z, w);
    assert 2 * ((z - 1) * Pow2(k)) == (2 * z - 2) * Pow2(k);
    ScaledBelow(2 * Mag(h, w), 2 * z - 2, n, Pow2(k));
  }

  lemma BelowLeast(h: nat, k: nat, n: nat, w: nat)
    requires 0 < h && w < h + k * h
    requires (2 * h) * (2 * h) <= n
    ensures (2 * Mag(h, w)) * (2 * Mag(h, w)) < n * (Pow2(k) * Pow2(k))
  {
    hide Mag;
    hide Pow2;
    Below(h, k, h, w);
    assert 2 * (h * Pow2(k)) == (2 * h) * Pow2(k);
    ScaledBelow(2 * Mag(h, w), 2 * h, n, Pow2(k));
  }

  lemma UpwardNeighbours(h: nat, k: nat, n: nat, q: nat, z: nat, w: nat)
    requires 0 < h <= z <= 2 * h && 2 * h <= q
    requires Bracket(Upward, n, q, z)
    requires w < z + k * h
    ensures (2 * Mag(h, w)) * (2 * Mag(h, w)) < n * (Pow2(k) * Pow2(k))
  {
    hide Mag;
    hide Pow2;
    if z > h {
      StrictlyBelow(h, k, n, z, w);
    } else {
      BelowLeast(h, k, n, w);
    }
  }

  lemma DownwardNeighbours(h: nat, k: nat, n: nat, z: nat, w: nat)
    requires 0 < h <= z <= 2 * h
    requires n < (2 * z + 2) * (2 * z + 2)
    requires 0 <= z + k * h < w
    ensures n * (Pow2(k) * Pow2(k)) < (2 * Mag(h, w)) * (2 * Mag(h, w))
  {
    hide Mag;
    hide Pow2;
    Above(h, k, z, w);
    assert 2 * ((z + 1) * Pow2(k)) == (2 * z + 2) * Pow2(k);
    ScaledAbove(2 * Mag(h, w), 2 * z + 2, n, Pow2(k));
  }

  lemma QuarterSquares(m: nat, square: nat)
    ensures (2 * m) * (2 * m) <= 4 * square <==> m * m <= square
    ensures 4 * square <= (2 * m) * (2 * m) <==> square <= m * m
  {
    assert (2 * m) * (2 * m) == 4 * (m * m);
  }

  lemma UpwardEnd(n: nat, z: nat, u: nat, square: nat)
    requires u > 0 && n <= (2 * z) * (2 * z) && 4 * square == n * (u * u)
    ensures square <= (z * u) * (z * u)
  {
    assert (2 * z) * u == 2 * (z * u);
    ScaledAbove(2 * (z * u), 2 * z, n, u);
    QuarterSquares(z * u, square);
  }

  lemma DownwardEnd(n: nat, z: nat, u: nat, square: nat)
    requires u > 0 && (2 * z) * (2 * z) <= n && 4 * square == n * (u * u)
    ensures (z * u) * (z * u) <= square
  {
    assert (2 * z) * u == 2 * (z * u);
    ScaledBelow(2 * (z * u), 2 * z, n, u);
    QuarterSquares(z * u, square);
  }

  /** From the integer root of the scaled significand to the correctly rounded result. */
  lemma CorrectRounding(h: nat, k: nat, mode: RoundingMode, n: nat, q: nat, square: nat)
    requires 0 < h && 2 * h <= q <= 4 * h - 2
    requires q * q <= n < (q + 1) * (q + 1) && n % 4 == 0
    requires 4 * square == n * (Pow2(k) * Pow2(k))
    ensures k * h >= 0
    ensures var z := RoundDigits(mode, q, n != q * q);
            h <= z <= 2 * h && RoundsRoot(h, mode, square, z + k * h)
  {
    hide Mag;
    hide Pow2;
    var z := RoundDigits(mode, q, n != q * q);
    RoundDigitsBracket(mode, n, q);
    BracketRounds(h, k, mode, n, q, z, square);
  }

  lemma BracketRounds(h: nat, k: nat, mode: RoundingMode, n: nat, q: nat, z: nat, square: nat)
    requires 0 < h <= z <= 2 * h <= q && Bracket(mode, n, q, z)
    requires 4 * square == n * (Pow2(k) * Pow2(k))
    ensures k * h >= 0 && RoundsRoot(h, mode, square, z + k * h)
  {
    hide Mag;
    hide Pow2;
    var u := Pow2(k);
    MagAt(h, k, z);
    var b := z + k * h;
    match mode
    case ToNearest =>
      forall w: nat | w != b
        ensures var sum := Mag(h, w) + Mag(h, b);
                if w < b then sum * sum < 4 * square else 4 * square < sum * sum
      {
        NearestNeighbours(h, k, n, q, z, w);
      }
    case Upward =>
      UpwardEnd(n, z, u, square);
      forall w: nat | w < b ensures Mag(h, w) * Mag(h, w) < square {
        UpwardNeighbours(h, k, n, q, z, w);
      }
    case _ =>
      DownwardEnd(n, z, u, square);
      forall w: nat | b < w ensures square < Mag(h, w) * Mag(h, w) {
        DownwardNeighbours(h, k, n, z, w);
      }
  }

  /** The significand `z` at an exponent made even: its square root in units of `2^k`. */
  lemma SquareScale(p: nat, z: nat, k: nat, odd: nat, square: nat)
    requires odd < 2 && square == z * Pow2(2 * k + p + odd)
    ensures 4 * square == (2 + 2 * odd) * z * (2 * Pow2(p)) * (Pow2(k) * Pow2(k))
  {
    hide Pow2;
    Pow2Add(k, k);
    Pow2Add(k + k, p);
    Pow2Succ(2 * k + p);
    var w := Pow2(k) * Pow2(k);
    var o := 1 + odd;
    assert Pow2(2 * k + p + odd) == o * (w * Pow2(p));
    assert 4 * (z * (o * (w * Pow2(p)))) == 2 * o * z * (2 * Pow2(p)) * w;
  }

  /** The digits, rounded and given the halved exponent, are the correctly rounded root. */
  lemma RootPattern(p: nat, h: nat, square: nat, z: nat, k: nat, odd: nat,
                    mode: RoundingMode, q: nat, rem: nat)
    requires odd < 2 && h == Pow2(p) && square == z * Pow2(2 * k + p + odd)
    requires h % 4 == 0 && 2 * h <= q <= 4 * h - 2
    requires IsRoot((2 + 2 * odd) * z * (2 * h), q, rem)
    ensures k * h >= 0
    ensures var rounded := RoundDigits(mode, q, rem != 0);
            h <= rounded <= 2 * h && RoundsRoot(h, mode, square, rounded + k * h)
  {
    hide *;
    var n := (2 + 2 * odd) * z * (2 * h);
    ScaledIsEven(odd, z, h);
    InexactRemainder(n, q, rem);
    SquareScale(p, z, k, odd, square);
    CorrectRounding(h, k, mode, n, q, square);
  }

  lemma ScaledIsEven(odd: nat, z: nat, h: nat)
    ensures ((2 + 2 * odd) * z * (2 * h)) % 4 == 0
  {
    assert (2 + 2 * odd) * z * (2 * h) == 4 * ((1 + odd) * z * h);
  }
}
