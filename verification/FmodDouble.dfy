/** Double-precision floating-point remainder on two 32-bit words: libpok/libm/e_fmod.c. */
module FmodDouble {
  import opened PowersOfTwo
  import opened FloatFormat
  import opened ExactRemainder
  import opened Words
  import opened WordShifts

  const HIDDEN: nat := 0x10_0000_0000_0000
  const INFINITE: nat := 0x7ff0_0000_0000_0000

  datatype Result = Words(high: int32, low: uint32) | NotANumber

  /** The magnitude of a two-word number, as a pattern without sign. */
  function Pattern(high: int32, low: uint32): (r: nat) {
    Wide(Abs(high), low)
  }

  /** The binary exponent, e_fmod.c:65-87. */
  method Exponent(h: int32, l: uint32) returns (e: int32)
    requires 0 <= h && 0 < Wide(h, l) < INFINITE
    ensures h >= 0x10_0000 ==> e == h / 0x10_0000 - 1023
    ensures h < 0x10_0000 ==> -1074 <= e < -1022
    ensures 0 < h < 0x10_0000 ==> -1022 - e <= 20 && 0x10_0000 <= h * Pow2(-1022 - e) < 0x20_0000
    ensures h == 0 ==> -1022 - e >= 21 && SIGN <= l * Pow2(-1043 - e) < WORD
  {
    hide Pow2;
    if h < 0x10_0000 {
      if h == 0 {
        e := ShiftToSign(l, -1043);
      } else {
        e := ShiftToSign(h * 0x800, -1022);
        assert h * 0x800 * Pow2(-1022 - e) == 0x800 * (h * Pow2(-1022 - e));
        Pow2Values();
        ShiftBound(h, -1022 - e, 21);
      }
    } else {
      e := h / 0x10_0000 - 1023;
    }
  }

  /** The significand shifted to the hidden bit, e_fmod.c:90-112. */
  method Align(h: int32, l: uint32) returns (zh: int32, zl: uint32, e: int32)
    requires 0 <= h && 0 < Wide(h, l) < INFINITE
    ensures 0 <= zh && HIDDEN <= Wide(zh, zl) < 2 * HIDDEN && -1074 <= e <= 1023
    ensures Mag(HIDDEN, Wide(h, l)) * Pow2(52) == Wide(zh, zl) * Pow2((e + 1074) as nat)
  {
    hide Pow2;
    e := Exponent(h, l);
    Pow2Values();
    ghost var v: nat := Wide(h, l);
    FieldsOfWide(h, l);
    if e >= -1022 {
      zh, zl := 0x10_0000 + h % 0x10_0000, l;
      var k, s := Normalised(HIDDEN, v);
      Lift(Mag(HIDDEN, v), k, 52, s);
    } else {
      var n := -1022 - e;
      if n <= 31 {
        ShiftLeftWide(h, l, n);
        if h > 0 {
          FillLowBits(h, n, l / Pow2(32 - n));
        } else {
          ShiftLowWord(l, n);
        }
        zh, zl := h * Pow2(n) + l / Pow2(32 - n), Wrap(l * Pow2(n));
      } else {
        ShiftLowWord(l, n);
        zh, zl := l * Pow2(n - 32), 0;
      }
      Rescale(v, n, 52 - n, Wide(zh, zl));
    }
  }

  /** A low word alone, moved so that its leading bit becomes the hidden bit. */
  lemma ShiftLowWord(l: uint32, n: nat)
    requires n >= 21 && SIGN <= l * Pow2(n - 21) < WORD
    ensures l * Pow2(n) == l * Pow2(n - 21) * 0x20_0000 && n <= 52
    ensures n >= 32 ==> l * Pow2(n) == l * Pow2(n - 32) * WORD
  {
    hide Pow2;
    Pow2Values();
    Pow2Add(n - 21, 21);
    assert l * (Pow2(n - 21) * 0x20_0000) == l * Pow2(n - 21) * 0x20_0000;
    ShiftBound(l, n - 21, 32);
    if n >= 32 {
      Pow2Add(n - 32, 32);
      assert l * (Pow2(n - 32) * WORD) == l * Pow2(n - 32) * WORD;
    }
  }

  /** The fixed-point loop, e_fmod.c:114-139. `zero` is the early return. */
  method Reduce(xh: int32, xl: uint32, hy: int32, ly: uint32, n: int32)
    returns (zero: bool, hx: int32, lx: uint32)
    requires 0 <= xh && HIDDEN <= Wide(xh, xl) < 2 * HIDDEN
    requires 0 <= hy && HIDDEN <= Wide(hy, ly) < 2 * HIDDEN && n >= 0
    ensures 0 <= hx && Wide(hx, lx) < Wide(hy, ly) && (zero ==> hx == 0 && lx == 0)
    ensures Wide(hx, lx) == (Wide(xh, xl) * Pow2(n)) % Wide(hy, ly)
  {
    hide Pow2;
    hide Reduced;
    ghost var x: nat, y: nat := Wide(xh, xl), Wide(hy, ly);
    hx, lx := xh, xl;
    var left := n;
    var hz: int32, lz: uint32;
    StartReduce(x, y, n);
    while left != 0
      invariant 0 <= left && 0 <= hx && Reduced(x, y, n, Wide(hx, lx), left)
      decreases left
    {
      ReduceStep(x, y, n, Wide(hx, lx), left);
      SubtractWide(hx, lx, hy, ly);
      hz, lz := hx - hy, Wrap(lx - ly);
      if lx < ly {
        hz := hz - 1;
      }
      if hz < 0 {
        DoubleWide(hx, lx);
        hx := hx + hx + lx / SIGN;
        lx := Wrap(lx + lx);
      } else {
        if hz == 0 && lz == 0 {
          return true, 0, 0;
        }
        DoubleWide(hz, lz);
        hx := hz + hz + lz / SIGN;
        lx := Wrap(lz + lz);
      }
      left := left - 1;
    }
    ReduceEnd(x, y, n, Wide(hx, lx));
    SubtractWide(hx, lx, hy, ly);
    hz, lz := hx - hy, Wrap(lx - ly);
    if lx < ly {
      hz := hz - 1;
    }
    if hz >= 0 {
      hx, lx := hz, lz;
    }
    zero := false;
  }

  /** The normalising loop, e_fmod.c:144-148. */
  method NormaliseRemainder(rh: int32, rl: uint32, e: int32, ghost v: nat)
    returns (hx: int32, lx: uint32, iy: int32)
    requires 0 <= rh && 0 < Wide(rh, rl) < 2 * HIDDEN && -1074 <= e <= 1023
    requires v * Pow2(52) == Wide(rh, rl) * Pow2((e + 1074) as nat)
    ensures 0 <= hx && HIDDEN <= Wide(hx, lx) < 2 * HIDDEN && -1074 <= iy <= 1023
    ensures v > 0 && v * Pow2(52) == Wide(hx, lx) * Pow2((iy + 1074) as nat)
  {
    hide Pow2;
    Pow2Values();
    MultipleIsFar(Wide(rh, rl), Pow2((e + 1074) as nat));
    hx, lx, iy := rh, rl, e;
    while hx < 0x10_0000
      invariant 0 <= hx && 0 < Wide(hx, lx) < 2 * HIDDEN && -1074 <= iy <= 1023
      invariant v * Pow2(52) == Wide(hx, lx) * Pow2((iy + 1074) as nat)
      decreases 2 * HIDDEN - Wide(hx, lx)
    {
      LowerExponent(52, HIDDEN, v, Wide(hx, lx), (iy + 1074) as nat);
      DoubleWide(hx, lx);
      hx := hx + hx + lx / SIGN;
      lx := Wrap(lx + lx);
      iy := iy - 1;
    }
  }

  /** The three ways a subnormal result is shifted back, e_fmod.c:154-163. */
  method ShiftBack(hx: int32, lx: uint32, n: int32) returns (high: int32, low: uint32)
    requires 0 <= hx < 0x20_0000 && 1 <= n <= 52
    ensures 0 <= high && Wide(high, low) == Wide(hx, lx) / Pow2(n)
  {
    hide Pow2;
    Pow2Values();
    if n <= 31 {
      ShiftRightWide(hx, lx, n);
      if n <= 20 {
        low := lx / Pow2(n) + Wrap(hx * Pow2(32 - n));
        high := hx / Pow2(n);
      } else {
        Pow2Monotone(21, n);
        low := Wrap(hx * Pow2(32 - n)) + lx / Pow2(n);
        high := 0;
      }
    } else {
      ShiftRightWord(hx, lx, n);
      high, low := 0, hx / Pow2(n - 32);
    }
  }

  /** Normalise the remainder and pack it, e_fmod.c:142-164. */
  method Pack(rh: int32, rl: uint32, e: int32, ghost v: nat) returns (high: int32, low: uint32)
    requires 0 <= rh && 0 < Wide(rh, rl) < 2 * HIDDEN && -1074 <= e <= 1023
    requires v * Pow2(52) == Wide(rh, rl) * Pow2((e + 1074) as nat)
    ensures 0 <= high && Wide(high, low) < INFINITE && Mag(HIDDEN, Wide(high, low)) == v
  {
    hide Pow2;
    hide Mag;
    var hx, lx, iy := NormaliseRemainder(rh, rl, e, v);
    Pow2Values();
    if iy >= -1022 {
      PackNormal(52, HIDDEN, v, Wide(hx, lx), (iy + 1074) as nat);
      high, low := hx - 0x10_0000 + (iy + 1023) * 0x10_0000, lx;
    } else {
      PackSubnormal(52, HIDDEN, v, Wide(hx, lx), (iy + 1074) as nat);
      high, low := ShiftBack(hx, lx, -1022 - iy);
    }
  }

  /** The remainder of two positive magnitudes, the larger by the smaller. */
  method Remainder(hx: int32, lx: uint32, hy: int32, ly: uint32) returns (high: int32, low: uint32)
    requires 0 <= hy && 0 <= hx && 0 < Wide(hy, ly) < Wide(hx, lx) < INFINITE
    ensures 0 <= high && Wide(high, low) < INFINITE && Mag(HIDDEN, Wide(hy, ly)) > 0
    ensures Mag(HIDDEN, Wide(high, low)) == Mag(HIDDEN, Wide(hx, lx)) % Mag(HIDDEN, Wide(hy, ly))
  {
    hide Pow2;
    hide Mag;
    MagZero(HIDDEN);
    MagMonotone(HIDDEN, 0, Wide(hy, ly));
    MagMonotone(HIDDEN, Wide(hy, ly), Wide(hx, lx));
    ghost var vx, vy := Mag(HIDDEN, Wide(hx, lx)), Mag(HIDDEN, Wide(hy, ly));
    var xh, xl, ix := Align(hx, lx);
    var yh, yl, iy := Align(hy, ly);
    ghost var zx: nat, zy: nat, a, b := Wide(xh, xl), Wide(yh, yl), (ix + 1074) as nat, (iy + 1074) as nat;
    ExponentOrder(HIDDEN, 52, vx, vy, zx, a, zy, b);
    var zero, rh, rl := Reduce(xh, xl, yh, yl, ix - iy);
    ResidueIsRemainder(52, vx, vy, zx, a, zy, b, Wide(rh, rl));
    if zero || (rh == 0 && rl == 0) {
      SameFactor(vx % vy, 0, Pow2(52));
      return 0, 0;
    }
    high, low := Pack(rh, rl, iy, vx % vy);
  }

  /** The whole function. For finite operands the result is exact (ISO C99, 7.12.10.1): its
      magnitude is the remainder of the magnitudes, its sign that of x. */
  method Fmod(x: int32, xl: uint32, y: int32, yl: uint32) returns (result: Result)
    ensures Pattern(x, xl) < INFINITE && 0 < Pattern(y, yl) < INFINITE ==>
              && result.Words? && (result.high < 0 <==> x < 0)
              && Pattern(result.high, result.low) < INFINITE
              && Mag(HIDDEN, Pattern(y, yl)) > 0
              && Mag(HIDDEN, Pattern(result.high, result.low))
                 == Mag(HIDDEN, Pattern(x, xl)) % Mag(HIDDEN, Pattern(y, yl))
    ensures Pattern(x, xl) < INFINITE && Pattern(y, yl) == INFINITE ==> result == Words(x, xl)
    ensures Pattern(x, xl) >= INFINITE || Pattern(y, yl) == 0 || Pattern(y, yl) > INFINITE ==>
              result == NotANumber
  {
    hide Pow2;
    hide Mag;
    var sx: int32 := if x < 0 then -0x8000_0000 else 0;
    var hx, lx, hy, ly := x - sx, xl, Abs(y), yl;
    // hy | ((ly | -ly) >> 31): the lowest bit of hy is set when ly is not zero.
    var sticky := if ly != 0 && hy % 2 == 0 then hy + 1 else hy;
    if (hy == 0 && ly == 0) || hx >= 0x7ff0_0000 || sticky > 0x7ff0_0000 {
      return NotANumber;
    }
    ghost var px: nat, py: nat := Wide(hx, lx), Wide(hy, ly);
    ghost var vx, vy := Mag(HIDDEN, px), Mag(HIDDEN, py);
    MagZero(HIDDEN);
    MagMonotone(HIDDEN, 0, py);
    MagMonotone(HIDDEN, 0, px);
    if hx <= hy {
      if hx < hy || lx < ly {
        MagMonotone(HIDDEN, px, py);
        DivModUnique(vx, vy, 0, vx);
        return Words(x, xl);
      }
      if lx == ly {
        DivModUnique(vx, vy, 1, 0);
        return Words(sx, 0);
      }
    }
    var high, low := Remainder(hx, lx, hy, ly);
    result := Words(high + sx, low);
  }
}
