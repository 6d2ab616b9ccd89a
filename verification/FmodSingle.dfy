/** Single-precision floating-point remainder: libpok/libm/e_fmodf.c. */
module FmodSingle {
  import opened PowersOfTwo
  import opened FloatFormat
  import opened ExactRemainder
  import opened Words

  const HIDDEN: nat := 0x80_0000
  const INFINITE: nat := 0x7f80_0000

  datatype Result = Word(bits: int32) | NotANumber

  /** `ilogb` of a positive pattern and its significand shifted to the hidden bit. */
  method Align(h: int32) returns (z: int32, e: int32)
    requires 0 < h < INFINITE
    ensures HIDDEN <= z < 2 * HIDDEN && -149 <= e <= 127
    ensures Mag(HIDDEN, h) * Pow2(23) == z * Pow2((e + 149) as nat)
  {
    hide Pow2;
    Pow2Values();
    if h < 0x80_0000 {
      e := ShiftToSign(h * 0x100, -126);
    } else {
      e := h / 0x80_0000 - 127;
    }
    if e >= -126 {
      var k, s := Normalised(HIDDEN, h);
      Lift(Mag(HIDDEN, h), k, 23, s);
      z := 0x80_0000 + h % 0x80_0000;
    } else {
      var n := -126 - e;
      assert h * 0x100 * Pow2(n) == 0x100 * (h * Pow2(n));
      z := h * Pow2(n);
      Pow2Succ(23);
      ShiftBound(h, n, 24);
      Rescale(h, n, 23 - n, z);
    }
  }

  /** The fixed-point loop, e_fmodf.c:92-106. `zero` is the early return. */
  method Reduce(x: int32, y: int32, n: int32) returns (zero: bool, r: int32)
    requires HIDDEN <= x < 2 * HIDDEN && HIDDEN <= y < 2 * HIDDEN && n >= 0
    ensures 0 <= r < y && (zero ==> r == 0)
    ensures r == (x * Pow2(n)) % y
  {
    hide Pow2;
    var hx, left := x, n;
    while left != 0
      invariant 0 <= left && 0 <= hx && Reduced(x, y, n, hx, left)
      decreases left
    {
      ReduceStep(x, y, n, hx, left);
      var hz := hx - y;
      if hz < 0 {
        hx := hx + hx;
      } else {
        if hz == 0 {
          return true, 0;
        }
        hx := hz + hz;
      }
      left := left - 1;
    }
    ReduceEnd(x, y, n, hx);
    var hz := hx - y;
    if hz >= 0 {
      hx := hz;
    }
    return false, hx;
  }

  /** Normalise the remainder and pack it, e_fmodf.c:111-123. */
  method Pack(r: int32, e: int32, ghost v: nat) returns (bits: int32)
    requires 0 < r < 2 * HIDDEN && -149 <= e <= 127
    requires v * Pow2(23) == r * Pow2((e + 149) as nat)
    ensures 0 <= bits < INFINITE && Mag(HIDDEN, bits) == v
  {
    hide Pow2;
    hide Mag;
    Pow2Values();
    MultipleIsFar(r, Pow2((e + 149) as nat));
    var hx, iy := r, e;
    while hx < 0x80_0000
      invariant 0 < hx < 2 * HIDDEN && -149 <= iy <= 127
      invariant v * Pow2(23) == hx * Pow2((iy + 149) as nat)
      decreases HIDDEN - hx
    {
      LowerExponent(23, HIDDEN, v, hx, (iy + 149) as nat);
      hx := hx + hx;
      iy := iy - 1;
    }
    if iy >= -126 {
      PackNormal(23, HIDDEN, v, hx, (iy + 149) as nat);
      bits := hx - 0x80_0000 + (iy + 127) * 0x80_0000;
    } else {
      var n := -126 - iy;
      PackSubnormal(23, HIDDEN, v, hx, (iy + 149) as nat);
      bits := hx / Pow2(n);
    }
  }

  /** The remainder of two positive magnitudes, the larger by the smaller. */
  method Remainder(hx: int32, hy: int32) returns (bits: int32)
    requires 0 < hy < hx < INFINITE
    ensures 0 <= bits < INFINITE && Mag(HIDDEN, hy) > 0
    ensures Mag(HIDDEN, bits) == Mag(HIDDEN, hx) % Mag(HIDDEN, hy)
  {
    hide Pow2;
    MagMonotone(HIDDEN, 0, hy);
    MagMonotone(HIDDEN, hy, hx);
    ghost var vx, vy := Mag(HIDDEN, hx), Mag(HIDDEN, hy);
    var zx, ix := Align(hx);
    var zy, iy := Align(hy);
    ghost var a, b := (ix + 149) as nat, (iy + 149) as nat;
    ExponentOrder(HIDDEN, 23, vx, vy, zx, a, zy, b);
    var zero, r := Reduce(zx, zy, ix - iy);
    ResidueIsRemainder(23, vx, vy, zx, a, zy, b, r);
    if zero || r == 0 {
      SameFactor(vx % vy, 0, Pow2(23));
      return 0;
    }
    bits := Pack(r, iy, vx % vy);
  }

  /** The whole function. For finite operands the result is exact (ISO C99, 7.12.10.1): its
      magnitude is the remainder of the magnitudes, its sign that of x. */
  method Fmodf(x: int32, y: int32) returns (result: Result)
    ensures Abs(x) < INFINITE && 0 < Abs(y) < INFINITE ==>
              && result.Word? && (result.bits < 0 <==> x < 0)
              && Abs(result.bits) < INFINITE
              && Mag(HIDDEN, Abs(y)) > 0
              && Mag(HIDDEN, Abs(result.bits)) == Mag(HIDDEN, Abs(x)) % Mag(HIDDEN, Abs(y))
    ensures Abs(x) < INFINITE && Abs(y) == INFINITE ==> result == Word(x)
    ensures Abs(x) >= INFINITE || Abs(y) == 0 || Abs(y) > INFINITE ==> result == NotANumber
  {
    hide Pow2;
    hide Mag;
    var sx: int32 := if x < 0 then -0x8000_0000 else 0;
    var hx, hy := x - sx, Abs(y);
    if hy == 0 || hx >= 0x7f80_0000 || hy > 0x7f80_0000 {
      return NotANumber;
    }
    MagMonotone(HIDDEN, 0, hy);
    MagZero(HIDDEN);
    MagMonotone(HIDDEN, 0, hx);
    ghost var vx, vy := Mag(HIDDEN, hx), Mag(HIDDEN, hy);
    if hx < hy {
      MagMonotone(HIDDEN, hx, hy);
      DivModUnique(vx, vy, 0, vx);
      return Word(x);
    }
    if hx == hy {
      DivModUnique(vx, vy, 1, 0);
      return Word(sx);
    }
    var bits := Remainder(hx, hy);
    result := Word(bits + sx);
  }
}
