// Scaling a 64-bit amount by a ratio with six decimal places, through a
// 128-bit product.
module FixedPoint {
  import opened Domain

  const RATIO_PRECISION: nat := 1_000_000

  /** The scaled amount: the ratio is cut to six places, the product rounded down. */
  function MulRatio(amount: nat, ratio: real): nat {
    if ratio >= 1.0 then amount
    else if ratio <= 0.0 then 0
    else amount * (ratio * 1_000_000.0).Floor / RATIO_PRECISION
  }

  // ---------- products and quotients ----------

  lemma MulOrder(x: nat, y: nat, z: nat)
    requires x <= y
    ensures x * z <= y * z
  {
  }

  lemma RealMulOrder(a: real, x: real, y: real)
    requires a >= 0.0 && x <= y
    ensures a * x <= a * y
  {
  }

  lemma {:induction false} ProductAsReal(x: nat, y: nat)
    ensures (x * y) as real == x as real * y as real
  {
    if y > 0 {
      ProductAsReal(x, y - 1);
      assert x * y == x * (y - 1) + x;
      assert x as real * y as real == x as real * (y - 1) as real + x as real;
    }
  }

  lemma HighWordFits(x: nat, y: nat)
    requires x < U64 && y < U64
    ensures x * y < U64 * U64
  {
    MulOrder(y, U64, x);
  }

  lemma QuotientFits(n: nat, y: nat)
    requires 0 < y && n < y * U64
    ensures n / y < U64
  {
    var q := n / y;
    assert q * y <= n;
    if q >= U64 {
      MulOrder(U64, q, y);
    }
  }

  // ---------- the 128-bit computation ----------

  /** 64 x 64 bits to 128 bits, as a high and a low word. */
  method Mul64(x: nat, y: nat) returns (hi: nat, lo: nat)
    requires x < U64 && y < U64
    ensures hi * U64 + lo == x * y && lo < U64 && hi < U64
  {
    HighWordFits(x, y);
    var p := x * y;
    hi, lo := p / U64, p % U64;
  }

  /** 128 by 64 bits; the quotient must fit one word, or the machine traps. */
  method Div64(hi: nat, lo: nat, y: nat) returns (quo: nat)
    requires lo < U64 && hi < y < U64
    ensures quo == (hi * U64 + lo) / y && quo < U64
  {
    MulOrder(hi + 1, y, U64);
    QuotientFits(hi * U64 + lo, y);
    quo := (hi * U64 + lo) / y;
  }

  lemma FixedBelowOne(ratio: real)
    requires 0.0 < ratio < 1.0
    ensures 0 <= (ratio * 1_000_000.0).Floor < RATIO_PRECISION
  {
  }

  /** A 64-bit amount times less than a million has a high word below a million. */
  lemma HighWordSmall(amount: nat, f: nat, hi: nat, lo: nat)
    requires amount < U64 && f < RATIO_PRECISION && hi * U64 + lo == amount * f
    ensures hi < RATIO_PRECISION
  {
    MulOrder(amount, U64, f);
  }

  /** The 128-bit computation never traps and agrees with `MulRatio`. */
  method MulRatioU64(amount: nat, ratio: real) returns (r: nat)
    requires amount < U64
    ensures r == MulRatio(amount, ratio) && r < U64
  {
    if ratio >= 1.0 {
      return amount;
    }
    if ratio <= 0.0 {
      return 0;
    }
    FixedBelowOne(ratio);
    var ratioFixed := (ratio * 1_000_000.0).Floor;
    var hi, lo := Mul64(amount, ratioFixed);
    HighWordSmall(amount, ratioFixed, hi, lo);
    r := Div64(hi, lo, RATIO_PRECISION);
  }

  // ---------- accuracy ----------

  lemma ProductBounds(amount: nat, ratio: real, f: nat)
    requires 0.0 <= ratio && f as real <= ratio * 1_000_000.0 < f as real + 1.0
    ensures (amount * f) as real <= amount as real * ratio * 1_000_000.0
    ensures amount as real * ratio * 1_000_000.0 <= (amount * f) as real + amount as real
  {
    var a, s := amount as real, ratio * 1_000_000.0;
    ProductAsReal(amount, f);
    RealMulOrder(a, f as real, s);
    RealMulOrder(a, s, f as real + 1.0);
    assert a * s == a * ratio * 1_000_000.0;
    assert a * (f as real + 1.0) == a * f as real + a;
  }

  /** The error of scaling: never above the exact product, and below it by little. */
  lemma MulRatioBounds(amount: nat, ratio: real)
    requires 0.0 <= ratio <= 1.0
    ensures MulRatio(amount, ratio) as real <= amount as real * ratio
    ensures MulRatio(amount, ratio) as real >= amount as real * ratio - amount as real / 1_000_000.0 - 1.0
    ensures MulRatio(amount, ratio) <= amount
  {
    if 0.0 < ratio < 1.0 {
      var f := (ratio * 1_000_000.0).Floor;
      FixedBelowOne(ratio);
      ProductBounds(amount, ratio, f);
      MulOrder(f, RATIO_PRECISION, amount);
      QuotientBounds(amount * f, amount as real * ratio, amount as real);
    }
  }

  lemma QuotientBounds(p: nat, exact: real, slack: real)
    requires p as real <= exact * 1_000_000.0 <= p as real + slack
    ensures (p / RATIO_PRECISION) as real <= exact
    ensures (p / RATIO_PRECISION) as real >= exact - slack / 1_000_000.0 - 1.0
  {
    var q := p / RATIO_PRECISION;
    assert q * RATIO_PRECISION <= p < q * RATIO_PRECISION + RATIO_PRECISION;
  }

  /** A larger ratio never scales to less. */
  lemma MulRatioMonotone(amount: nat, x: real, y: real)
    requires x <= y
    ensures MulRatio(amount, x) <= MulRatio(amount, y)
  {
    if 0.0 < x < 1.0 {
      MulRatioBounds(amount, x);
      if y < 1.0 {
        var f, g := (x * 1_000_000.0).Floor, (y * 1_000_000.0).Floor;
        MulOrder(f, g, amount);
      }
    }
  }
}
