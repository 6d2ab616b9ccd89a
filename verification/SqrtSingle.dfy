/** Single-precision square root: libpok/libm/e_sqrtf.c. */
module SqrtSingle {
  import opened PowersOfTwo
  import opened FloatFormat
  import opened SquareRoot
  import opened Words

  const HIDDEN: nat := 0x80_0000

  datatype Root = Word(bits: int32) | NotANumber

  /** Significand `z` and unbiased exponent `m` of a positive finite pattern. */
  method Normalise(x: int32) returns (z: int32, m: int32)
    requires 0 < x < 0x7f80_0000
    ensures 0x80_0000 <= z < 0x100_0000 && -149 <= m <= 127
    ensures Mag(HIDDEN, x) * Pow2(149) == z * Pow2((m + 275) as nat)
  {
    hide Pow2;
    z := x;
    m := z / 0x80_0000;
    if m == 0 {
      var i := 0;
      Pow2Succ(0);
      while z / 0x80_0000 % 2 == 0
        invariant 0 <= i <= 23 && 0 < z < 0x100_0000
        invariant z == x * Pow2(i) && z >= Pow2(i)
        decreases 0x100_0000 - z
      {
        Pow2Succ(i);
        if i == 23 { Pow2Values(); }
        assert x * (2 * Pow2(i)) == 2 * z;
        z := z * 2;
        i := i + 1;
      }
      m := m - (i - 1);
      Rescale(x, i, 149 - i, z);
      m := m - 127;
    } else {
      var k, s := Normalised(HIDDEN, x);
      Lift(Mag(HIDDEN, x), k, 149, s);
      m := m - 127;
      z := z % 0x80_0000 + 0x80_0000;
    }
  }

  /** The bit-by-bit loop: 25 digits of the root of `i * 2^24`. */
  method Digits(i: int32) returns (q: int32, rem: int32)
    requires 0x100_0000 <= i <= 0x3ff_fffc
    ensures 0x100_0000 <= q <= 0x1ff_fffe && 0 <= rem
    ensures IsRoot(i * 0x100_0000, q, rem)
  {
    hide Pow2;
    hide Settled;
    ghost var n: nat := i * 0x100_0000;
    ghost var k := 25;
    rem := i;
    var s: int32 := 0;
    q := 0;
    var r: uint32 := 0x100_0000;
    Pow2Values();
    Pow2Succ(23);
    StartDigits(i, 0x100_0000);
    while r != 0
      invariant 0 <= q && 0 <= rem && s == 2 * q
      invariant k >= 0 && (k == 0 <==> r == 0)
      invariant k > 0 ==> r == Pow2(k - 1)
      invariant r <= 0x100_0000
      invariant Settled(n, q, r, rem)
      decreases k
    {
      DigitBounds(n, q, r, rem, 0x200_0000);
      Pow2Succ(0);
      if k >= 2 { Pow2Succ(k - 2); }
      Digit(n, q, r, rem);
      var t := s + r;
      if t <= rem {
        s := t + r;
        rem := rem - t;
        q := q + r;
      }
      rem := rem + rem;
      r := r / 2;
      k := k - 1;
    }
    FinishDigits(n, q, rem);
    CompareRoot(n, q, 0x100_0000);
    CompareRoot(n, q, 0x1ff_ffff);
  }

  /** The root of a positive finite number. */
  method PositiveRoot(x: int32, mode: RoundingMode) returns (bits: int32)
    requires 0 < x < 0x7f80_0000
    ensures 0 <= bits < 0x7f80_0000
    ensures RoundsRoot(HIDDEN, mode, Mag(HIDDEN, x) * Pow2(149), bits)
  {
    hide Pow2;
    hide Mag;
    hide RoundsRoot;
    hide IsRoot;
    var ix, m := Normalise(x);
    ghost var z, e := ix, m;
    if m % 2 == 1 {
      ix := ix + ix;
    }
    m := m / 2;
    ix := ix + ix;
    var q, rem := Digits(ix);
    Pow2Values();
    RootPattern(23, HIDDEN, Mag(HIDDEN, x) * Pow2(149), z, (m + 126) as nat, e % 2, mode, q, rem);
    if rem != 0 {
      if mode == ToNearest || mode == Upward {
        if mode == Upward {
          q := q + 2;
        } else {
          q := q + q % 2;
        }
      }
    }
    ix := q / 2 + 0x3f00_0000;
    ix := ix + m * 0x80_0000;
    bits := ix;
  }

  /** The whole function. A result that C leaves to the NaN arithmetic is `NotANumber`. */
  method Sqrtf(x: int32, mode: RoundingMode) returns (root: Root)
    ensures 0 < x < 0x7f80_0000 ==>
              root.Word? && 0 <= root.bits < 0x7f80_0000
              && RoundsRoot(HIDDEN, mode, Mag(HIDDEN, x) * Pow2(149), root.bits)
    ensures x == 0 || x == -0x8000_0000 || x == 0x7f80_0000 ==> root == Word(x)
    ensures x > 0x7f80_0000 || -0x8000_0000 < x < 0 ==> root == NotANumber
  {
    hide Pow2;
    hide Mag;
    hide RoundsRoot;
    if Wrap(x) / 0x80_0000 % 0x100 == 0xff {
      return if x == 0x7f80_0000 then Word(x) else NotANumber;
    }
    if x <= 0 {
      if Wrap(x) % 0x8000_0000 == 0 {
        return Word(x);
      } else if x < 0 {
        return NotANumber;
      }
    }
    var bits := PositiveRoot(x, mode);
    root := Word(bits);
  }
}
