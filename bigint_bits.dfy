/**
  Non-negative ECMAScript BigInt values and the four operators the CompactLength
  helpers use on them. A BigInt is unbounded, so it is a `nat` here:

  - `x << k` is `x * 2^k` and `x >> k` is `floor(x / 2^k)`;
  - `x & y` and `x | y` combine the binary digits of `x` and `y` one by one.

  The two lemmas at the end reduce masking with `2^k - 1` and OR-ing numbers whose
  bits do not overlap to plain arithmetic, which is what every proof about the codec
  rests on.
 */
module BigIntBits {

  function Pow2(k: nat): (r: nat)
    ensures r >= 1
  {
    if k == 0 then 1 else 2 * Pow2(k - 1)
  }

  lemma Pow2Values()
    ensures Pow2(8) == 0x100
    ensures Pow2(32) == 0x1_0000_0000
  {
    assert Pow2(4) == 16;
    assert Pow2(8) == 256;
    assert Pow2(12) == 0x1000;
    assert Pow2(16) == 0x1_0000;
    assert Pow2(20) == 0x10_0000;
    assert Pow2(24) == 0x100_0000;
    assert Pow2(28) == 0x1000_0000;
    assert Pow2(32) == 0x1_0000_0000;
  }

  /** `x << k`: the low `k` bits of the result are clear and the bits above them are `x`. */
  function ShiftLeft(x: nat, k: nat): (r: nat)
    ensures r % Pow2(k) == 0 && r / Pow2(k) == x
  {
    DivModUnique(x * Pow2(k), Pow2(k), x, 0);
    x * Pow2(k)
  }

  /** `x >> k`: the largest `r` with `r * 2^k <= x`. */
  function ShiftRight(x: nat, k: nat): (r: nat)
    ensures r * Pow2(k) <= x < (r + 1) * Pow2(k)
  {
    DivIsNat(x, Pow2(k));
    FloorDiv(x, Pow2(k));
    x / Pow2(k)
  }

  /** Euclidean division of a `nat` by a positive `d` brackets it between two multiples of `d`. */
  lemma FloorDiv(x: nat, d: nat)
    requires d >= 1
    ensures (x / d) * d <= x < (x / d + 1) * d
  {
    var q, m := x / d, x % d;
    assert x == d * q + m && 0 <= m < d;
    assert (q + 1) * d == q * d + d;
  }

  lemma DivIsNat(x: nat, d: nat)
    requires d >= 1
    ensures x / d >= 0
  {
    var q := x / d;
    if q < 0 {
      MulNonNegative(d, -q - 1);
    }
  }

  /** `x & y`: a bit of the result is set iff it is set in both operands. */
  function BitAnd(x: nat, y: nat): (r: nat)
    ensures r <= x && r <= y
    decreases x
  {
    if x == 0 || y == 0 then 0
    else 2 * BitAnd(x / 2, y / 2) + (if x % 2 == 1 && y % 2 == 1 then 1 else 0)
  }

  /** `x | y`: a bit of the result is set iff it is set in either operand. */
  function BitOr(x: nat, y: nat): (r: nat)
    ensures x <= r && y <= r && r <= x + y
    decreases x + y
  {
    if x == 0 then y
    else if y == 0 then x
    else 2 * BitOr(x / 2, y / 2) + (if x % 2 == 1 || y % 2 == 1 then 1 else 0)
  }

  lemma MulNonNegative(a: int, b: int)
    requires a >= 0 && b >= 0
    ensures a * b >= 0
  {
  }

  /** The only multiple of `d` strictly between `-d` and `d` is zero. */
  lemma SmallMultipleIsZero(d: int, m: int)
    requires d > 0 && -d < d * m < d
    ensures m == 0
  {
    if m > 0 {
      MulNonNegative(d, m - 1);
    } else if m < 0 {
      MulNonNegative(d, -m - 1);
    }
  }

  /** Euclidean division is determined by its quotient-remainder equation. */
  lemma DivModUnique(x: int, d: int, q: int, r: int)
    requires d > 0 && 0 <= r < d && x == d * q + r
    ensures x / d == q && x % d == r
  {
    var q', r' := x / d, x % d;
    assert d * q - d * q' == d * (q - q');
    SmallMultipleIsZero(d, q - q');
  }

  /** Splitting a remainder modulo `a * b` into its digits modulo `a` and then `b`. */
  lemma ModSplit(x: nat, a: nat, b: nat)
    requires a >= 1 && b >= 1
    ensures x % (a * b) == ((x / a) % b) * a + x % a
  {
    var q, lo := x / a, x % a;
    var hi, c := q / b, q % b;
    assert x == a * q + lo;
    assert q == b * hi + c;
    assert a * c <= a * (b - 1);
    assert x == (a * b) * hi + (c * a + lo);
    DivModUnique(x, a * b, hi, c * a + lo);
  }

  /** One step of `BitAnd` against an all-ones mask `2p - 1`. */
  lemma AndOnesStep(x: nat, p: nat)
    requires x > 0 && p >= 1
    ensures BitAnd(x, 2 * p - 1) == 2 * BitAnd(x / 2, p - 1) + x % 2
  {
    assert (2 * p - 1) / 2 == p - 1 && (2 * p - 1) % 2 == 1;
  }

  /** Masking with `2^k - 1` keeps exactly the low `k` bits. */
  lemma {:induction false} AndLowMask(x: nat, k: nat)
    ensures BitAnd(x, Pow2(k) - 1) == x % Pow2(k)
  {
    if k == 0 {
      assert x % 1 == 0;
    } else if x == 0 {
    } else {
      var p := Pow2(k - 1);
      assert Pow2(k) == 2 * p;
      AndLowMask(x / 2, k - 1);
      AndOnesStep(x, p);
      ModSplit(x, 2, p);
      assert BitAnd(x, 2 * p - 1) == x % (2 * p);
    }
  }

  /** OR-ing a multiple of `2^k` with a number below `2^k` is their sum: no bit is disturbed. */
  lemma {:induction false} OrDisjoint(x: nat, y: nat, k: nat)
    requires x % Pow2(k) == 0 && y < Pow2(k)
    ensures BitOr(x, y) == x + y
  {
    if x == 0 || y == 0 {
    } else {
      var p := Pow2(k - 1);
      ModSplit(x, 2, p);
      assert x % 2 == 0 && (x / 2) % p == 0;
      OrDisjoint(x / 2, y / 2, k - 1);
    }
  }
}
