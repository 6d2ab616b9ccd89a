/** The mathematics shared by the single- and double-precision remainders: shift-and-subtract
    keeps a residue, and the residue scales back to the remainder of the two numbers. */
module ExactRemainder {
  import opened PowersOfTwo
  import opened FloatFormat
  import opened Words

  lemma AddMultiple(v: nat, c: nat, y: nat)
    requires y > 0
    ensures c * y >= 0 && (v + c * y) % y == v % y
  {
    MultipleIsFar(c, y);
    var q, r := v / y, v % y;
    assert v == y * q + r;
    assert (q + c) * y == q * y + c * y;
    DivModUnique(v + c * y, y, q + c, r);
  }

  lemma Distribute(a: int, b: int, c: int)
    ensures (a + b) * c == a * c + b * c && (a - b) * c == a * c - b * c
  {
  }

  lemma ScaleMod(u: nat, v: nat, c: nat)
    requires v > 0 && c > 0
    ensures v * c > 0 && (u * c) % (v * c) == (u % v) * c
  {
    var q, r := u / v, u % v;
    MultipleIsFar(v, c);
    MultipleIsFar(v - r, c);
    Distribute(v, r, c);
    Distribute(q * v, r, c);
    assert (q * v) * c == q * (v * c);
    DivModUnique(u * c, v * c, q, r * c);
  }

  /** `x * 2^n` and `m * 2^left` leave the same residue modulo `y`. */
  ghost predicate Reduced(x: nat, y: nat, n: nat, m: nat, left: nat) {
    0 < y && m < 2 * y && (x * Pow2(n)) % y == (m * Pow2(left)) % y
  }

  lemma StartReduce(x: nat, y: nat, n: nat)
    requires 0 < y && x < 2 * y
    ensures Reduced(x, y, n, x, n)
  {
  }

  lemma ResidueDrop(m: nat, y: nat, w: nat)
    requires 0 < y <= m
    ensures (m * (2 * w)) % y == ((2 * (m - y)) * w) % y
    ensures m == y ==> (m * (2 * w)) % y == 0
  {
    Distribute(m - y, y, 2 * w);
    assert (2 * (m - y)) * w == (m - y) * (2 * w);
    AddMultiple((2 * (m - y)) * w, 2 * w, y);
    if m == y {
      DivModUnique(m * (2 * w), y, 2 * w, 0);
    }
  }

  /** One iteration: subtract `y` if it fits, then double. */
  lemma ReduceStep(x: nat, y: nat, n: nat, m: nat, left: nat)
    requires Reduced(x, y, n, m, left) && left > 0
    ensures m < y ==> Reduced(x, y, n, 2 * m, left - 1)
    ensures m >= y ==> Reduced(x, y, n, 2 * (m - y), left - 1)
    ensures m < 2 * y
    ensures m == y ==> (x * Pow2(n)) % y == 0
  {
    hide Pow2;
    Pow2Succ(left - 1);
    var w := Pow2(left - 1);
    if m < y {
      assert m * (2 * w) == (2 * m) * w;
    } else {
      ResidueDrop(m, y, w);
    }
  }

  lemma ReduceEnd(x: nat, y: nat, n: nat, m: nat)
    requires Reduced(x, y, n, m, 0)
    ensures m < 2 * y && (x * Pow2(n)) % y == if m < y then m else m - y
  {
    DivModUnique(m, y, if m < y then 0 else 1, if m < y then m else m - y);
  }

  /** Both operands scaled by `2^p` are a significand at an exponent; the residue of the
      significands at the exponent of the divisor is the remainder, scaled likewise. */
  lemma ResidueIsRemainder(p: nat, vx: nat, vy: nat, x: nat, a: nat, y: nat, b: nat, r: nat)
    requires vy > 0 && y > 0 && b <= a
    requires vx * Pow2(p) == x * Pow2(a) && vy * Pow2(p) == y * Pow2(b)
    requires r == (x * Pow2(a - b)) % y
    ensures (vx % vy) * Pow2(p) == r * Pow2(b)
  {
    hide Pow2;
    ScaleMod(vx, vy, Pow2(p));
    Lift(x * Pow2(a - b), 0, 0, x * Pow2(a - b)) by { Pow2Succ(0); }
    Rescale(x, a - b, b, x * Pow2(a - b));
    ScaleMod(x * Pow2(a - b), y, Pow2(b));
  }

  lemma ProductsOrder(h: nat, x: nat, c: nat, y: nat, d: nat)
    requires x < 2 * h && h <= y && 0 < 2 * c <= d
    ensures x * c < y * d
  {
    MultipleIsFar(2 * h - x, c);
    Distribute(2 * h, x, c);
    assert (2 * h) * c == h * (2 * c);
    assert h * (d - 2 * c) >= 0;
    assert h * (d - 2 * c) == h * d - h * (2 * c);
    assert (y - h) * d >= 0;
    Distribute(y, h, d);
  }

  lemma SmallerExponent(h: nat, p: nat, vx: nat, vy: nat, x: nat, a: nat, y: nat, b: nat)
    requires h <= x < 2 * h && h <= y && a < b
    requires vx * Pow2(p) == x * Pow2(a) && vy * Pow2(p) == y * Pow2(b)
    ensures vx < vy
  {
    hide Pow2;
    Pow2Monotone(a, b);
    ProductsOrder(h, x, Pow2(a), y, Pow2(b));
    FactorBelow(vx, vy, Pow2(p));
  }

  /** The larger operand has the larger exponent. */
  lemma ExponentOrder(h: nat, p: nat, vx: nat, vy: nat, x: nat, a: nat, y: nat, b: nat)
    requires h <= x < 2 * h && h <= y < 2 * h && vy < vx
    requires vx * Pow2(p) == x * Pow2(a) && vy * Pow2(p) == y * Pow2(b)
    ensures b <= a
  {
    if a < b {
      SmallerExponent(h, p, vx, vy, x, a, y, b);
    }
  }

  /** Doubling a significand below the hidden bit lowers its exponent by one. */
  lemma LowerExponent(p: nat, h: nat, v: nat, r: nat, b: nat)
    requires h == Pow2(p) && v > 0 && r < h && v * Pow2(p) == r * Pow2(b)
    ensures b > 0 && v * Pow2(p) == (2 * r) * Pow2(b - 1)
  {
    hide Pow2;
    Pow2Succ(0);
    MultipleIsFar(v, h);
    if b > 0 {
      Pow2Succ(b - 1);
      assert r * (2 * Pow2(b - 1)) == (2 * r) * Pow2(b - 1);
    }
  }

  /** The pattern of a remainder `v` from its normalised significand. */
  lemma PackNormal(p: nat, h: nat, v: nat, z: nat, b: nat)
    requires 0 < h <= z < 2 * h && v * Pow2(p) == z * Pow2(b) && b >= p
    ensures (b - p) * h >= 0 && Mag(h, z + (b - p) * h) == v
  {
    hide Pow2;
    MagAt(h, b - p, z);
    Rescale(z, b - p, p, z * Pow2(b - p));
    SameFactor(v, z * Pow2(b - p), Pow2(p));
  }

  /** Nothing is lost when a subnormal remainder is shifted back: its low bits are zero. */
  lemma PackSubnormal(p: nat, h: nat, v: nat, z: nat, b: nat)
    requires h == Pow2(p) && z < 2 * h && v * Pow2(p) == z * Pow2(b) && b < p
    ensures v < h && z == v * Pow2(p - b) && z / Pow2(p - b) == v && Mag(h, v) == v
  {
    hide Pow2;
    Rescale(v, p - b, b, v * Pow2(p - b));
    SameFactor(z, v * Pow2(p - b), Pow2(b));
    DivModUnique(z, Pow2(p - b), v, 0);
    Pow2Succ(p - b - 1);
    SubnormalBound(v, h, Pow2(p - b - 1));
  }

  lemma SubnormalBound(v: nat, h: nat, w: nat)
    requires v * (2 * w) < 2 * h && w > 0
    ensures v < h
  {
    assert v <= v * w;
  }

  lemma SameFactor(a: nat, b: nat, c: nat)
    requires a * c == b * c && c > 0
    ensures a == b
  {
    Distribute(a, b, c);
    MultipleIsFar(a - b, c);
  }

  /** The loops that lower an exponent until the leading bit of a non-zero word reaches its sign
      bit. For x the source tests `i > 0`, for y in single precision `i >= 0`; the two agree on
      non-zero words. */
  method ShiftToSign(word: uint32, start: int32) returns (e: int)
    requires word > 0 && -2000 <= start <= 0
    ensures start - 31 <= e <= start
    ensures SIGN <= word * Pow2(start - e) < WORD
    ensures e == start <==> word >= SIGN
  {
    hide Pow2;
    e := start;
    var i: int := Signed(word);
    ghost var u: nat := word;
    Pow2Succ(0);
    Pow2Values();
    while i > 0
      invariant e <= start && 0 < u < WORD && i == Signed(u)
      invariant u == word * Pow2(start - e)
      invariant e == start ==> u == word
      invariant e < start ==> word < SIGN
      decreases WORD - u
    {
      Pow2Succ(start - e);
      assert word * (2 * Pow2(start - e)) == 2 * u;
      e := e - 1;
      u := 2 * u;
      i := Signed(Wrap(i * 2));
      ShiftBound(word, start - e, 32);
    }
    ShiftBound(word, start - e, 32);
  }
}
