/** Binary floating-point patterns, read as integers.

    `h` is the weight of the hidden bit: 2^23 for binary32, 2^52 for binary64 (IEEE 754-2008,
    section 3.4). A finite positive pattern stands for an integer multiple of the least
    subnormal number, 2^-149 or 2^-1074; `Mag` is that integer. */
module FloatFormat {
  import opened PowersOfTwo

  datatype RoundingMode = ToNearest | Upward | Downward | TowardZero

  function Mag(h: nat, b: nat): nat
    requires h > 0
  {
    if b < h then b else (h + b % h) * Pow2(b / h - 1)
  }

  lemma MagZero(h: nat)
    requires h > 0
    ensures Mag(h, 0) == 0
  {
  }

  /** Exponent field `e` and fraction `f` of a normal pattern. */
  lemma MagFields(h: nat, b: nat, e: nat, f: nat)
    requires f < h && e >= 1 && b == e * h + f
    ensures Mag(h, b) == (h + f) * Pow2(e - 1)
  {
    DivModUnique(b, h, e, f);
    MultipleIsFar(e, h);
  }

  lemma CarriedSignificand(h: nat, k: nat)
    ensures h * Pow2(k + 1) == (2 * h) * Pow2(k)
  {
  }

  /** A significand `z` at exponent field `k + 1` is the pattern `z + k * h`, also when `z`
      carries into the exponent. */
  lemma MagAt(h: nat, k: nat, z: nat)
    requires 0 < h <= z <= 2 * h
    ensures k * h >= 0 && Mag(h, z + k * h) == z * Pow2(k)
  {
    hide Mag;
    hide Pow2;
    MultipleIsFar(k, h);
    var e, f := if z < 2 * h then k + 1 else k + 2, if z < 2 * h then z - h else 0;
    assert z + k * h == e * h + f by {
      assert (k + 1) * h == k * h + h;
      assert (k + 2) * h == k * h + 2 * h;
    }
    MagFields(h, z + k * h, e, f);
    if z == 2 * h {
      CarriedSignificand(h, k);
    }
  }

  /** Every pattern from `h` on has exactly one significand and exponent. */
  lemma Normalised(h: nat, b: nat) returns (k: nat, z: nat)
    requires 0 < h <= b
    ensures h <= z < 2 * h && b == z + k * h
    ensures k == b / h - 1 && z == h + b % h
    ensures Mag(h, b) == z * Pow2(k)
  {
    k, z := b / h - 1, h + b % h;
  }

  /** Consecutive patterns stand for increasing values. */
  lemma MagNext(h: nat, b: nat)
    requires h > 0
    ensures Mag(h, b) < Mag(h, b + 1)
  {
    if b >= h {
      var k, z := Normalised(h, b);
      MagAt(h, k, z + 1);
      assert b + 1 == (z + 1) + k * h;
      assert (z + 1) * Pow2(k) == z * Pow2(k) + Pow2(k);
    } else if b + 1 == h {
      MagAt(h, 0, h);
    }
  }

  lemma {:induction false} MagMonotone(h: nat, b: nat, c: nat)
    requires h > 0 && b <= c
    ensures b < c ==> Mag(h, b) < Mag(h, c)
    ensures Mag(h, b) <= Mag(h, c)
    decreases c - b
  {
    if b < c {
      MagMonotone(h, b, c - 1);
      MagNext(h, c - 1);
    }
  }
}
