// Price impact in basis points: the big-integer form, the 256-bit form, and
// their agreement.
module PriceImpact {
  import opened Domain
  import opened FixedPoint

  /** Prices are scaled by 2^64. */
  const Q64: nat := U64
  const Q128: nat := 0x1_0000_0000_0000_0000_0000_0000_0000_0000
  const Q256: nat := 0x1_0000_0000_0000_0000_0000_0000_0000_0000_0000_0000_0000_0000_0000_0000_0000_0000
  const FEE_BASE: nat := 1_000_000
  const BPS: nat := 10000
  const MAX_U16: nat := 65535

  datatype Trade = Trade(amountIn: int, amountOut: int, aToB: bool, sqrtPriceX64: int, feeRate: nat) {

    predicate Positive() {
      amountIn > 0 && amountOut > 0 && sqrtPriceX64 > 0
    }

    /** What the 64-bit caller can pass: two uint64 amounts, a 256-bit price, a uint32 rate. */
    predicate Words() {
      0 <= amountIn < U64 && 0 <= amountOut < U64 && 0 <= sqrtPriceX64 < Q256 && feeRate < 0x1_0000_0000
    }
  }

  // ---------- the shared arithmetic ----------

  function Fee(amountIn: nat, feeRate: nat): nat {
    amountIn * feeRate / FEE_BASE
  }

  /** The price the trade got, scaled by 2^64. */
  function Effective(amountOut: nat, amountIn: nat): nat
    requires 0 < amountIn
  {
    amountOut * Q64 / amountIn
  }

  /** The relative loss against the current price, in basis points. */
  function Loss(current: nat, effective: nat): nat {
    if current == 0 || effective >= current then 0
    else (current - effective) * BPS / current
  }

  function Capped(impact: nat): nat {
    if impact > MAX_U16 then MAX_U16 else impact
  }

  // ---------- the big-integer form ----------

  /** `None` where the computation divides by zero. */
  function BigImpact(t: Trade): Option<nat> {
    if !t.Positive() then Some(0)
    else
      var price := t.sqrtPriceX64 * t.sqrtPriceX64 / Q64;
      var net := t.amountIn - Fee(t.amountIn, t.feeRate);
      if net <= 0 then Some(0)
      else if t.aToB then Some(Capped(Loss(price, Effective(t.amountOut, net))))
      else if price == 0 then None
      else Some(Capped(Loss(Q128 / price, Effective(t.amountOut, net))))
  }

  // ---------- the 256-bit form ----------

  /** The product, by repeated addition: so Dafny never multiplies wide words on its own. */
  function Product(x: nat, y: nat): nat {
    if y == 0 then 0 else Product(x, y - 1) + x
  }

  lemma {:induction false} ProductIs(x: nat, y: nat)
    ensures Product(x, y) == x * y
  {
    if y > 0 {
      ProductIs(x, y - 1);
      assert x * y == x * (y - 1) + x;
    }
  }

  function Mul256(x: nat, y: nat): nat {
    Product(x, y) % Q256
  }

  /** Division by zero gives zero. */
  function Div256(x: nat, y: nat): nat {
    if y == 0 then 0 else x / y
  }

  function U256Loss(current: nat, effective: nat): nat {
    if current == 0 || effective >= current then 0
    else Div256(Mul256(current - effective, BPS), current)
  }

  function U256Impact(t: Trade): nat
    requires t.Words()
  {
    if t.amountIn == 0 || t.amountOut == 0 || t.sqrtPriceX64 == 0 then 0
    else
      var price := Div256(Mul256(t.sqrtPriceX64, t.sqrtPriceX64), Q64);
      var fee := Div256(Mul256(t.amountIn, t.feeRate), FEE_BASE);
      if t.amountIn <= fee then 0
      else
        var effective := Div256(Mul256(t.amountOut, Q64), t.amountIn - fee);
        var current := if t.aToB then price else Div256(Mul256(Q64, Q64), price);
        Capped(U256Loss(current, effective))
  }

  /** The source's text, with its reused temporaries. */
  method CalculatePriceImpactU256(t: Trade) returns (r: nat)
    requires t.Words()
    ensures r == U256Impact(t)
  {
    if t.amountIn == 0 || t.amountOut == 0 || t.sqrtPriceX64 == 0 {
      return 0;
    }
    var sqrtPrice: nat := Mul256(t.sqrtPriceX64, t.sqrtPriceX64);
    sqrtPrice := Div256(sqrtPrice, Q64);
    var feeAmount: nat := t.feeRate;
    feeAmount := Mul256(t.amountIn, feeAmount);
    feeAmount := Div256(feeAmount, FEE_BASE);
    if t.amountIn <= feeAmount {
      return 0;
    }
    var amountInEffective := t.amountIn - feeAmount;
    var currentPrice: nat, effectivePrice: nat;
    if t.aToB {
      currentPrice := sqrtPrice;
      effectivePrice := Mul256(t.amountOut, Q64);
      effectivePrice := Div256(effectivePrice, amountInEffective);
    } else {
      currentPrice := Mul256(Q64, Q64);
      currentPrice := Div256(currentPrice, sqrtPrice);
      effectivePrice := Mul256(t.amountOut, Q64);
      effectivePrice := Div256(effectivePrice, amountInEffective);
    }
    if currentPrice == 0 {
      return 0;
    }
    if effectivePrice >= currentPrice {
      return 0;
    }
    var temp: nat := currentPrice - effectivePrice;
    temp := Mul256(temp, BPS);
    temp := Div256(temp, currentPrice);
    if temp < U64 {
      if temp > MAX_U16 {
        return MAX_U16;
      }
      return temp;
    }
    return MAX_U16;
  }

  // ---------- agreement ----------

  lemma ProductBelow(x: nat, y: nat, a: nat, b: nat)
    requires x < a && y < b
    ensures x * y < a * b
  {
    MulOrder(x, a, y);
    MulOrder(y + 1, b, a);
    assert (y + 1) * a == y * a + a;
  }

  lemma QuotientBelow(x: nat, d: nat)
    requires 0 < d
    ensures x / d <= x
  {
    assert x / d * d <= x;
    MulOrder(1, d, x / d);
  }

  lemma LossAgrees(current: nat, effective: nat)
    requires current < Q256 / 0x1_0000
    ensures U256Loss(current, effective) == Loss(current, effective)
  {
    if effective < current {
      ProductIs(current - effective, BPS);
    }
  }

  /** Only the squaring of the price can wrap around. */
  lemma StepsAgree(t: Trade)
    requires t.Words()
    ensures Mul256(t.amountIn, t.feeRate) == t.amountIn * t.feeRate
    ensures Mul256(t.amountOut, Q64) == t.amountOut * Q64
    ensures Mul256(Q64, Q64) == Q128
    ensures t.sqrtPriceX64 < Q128 ==> Mul256(t.sqrtPriceX64, t.sqrtPriceX64) == t.sqrtPriceX64 * t.sqrtPriceX64
    ensures t.sqrtPriceX64 < Q128 ==> t.sqrtPriceX64 * t.sqrtPriceX64 / Q64 < Q256 / Q64
  {
    ProductIs(t.amountIn, t.feeRate);
    ProductIs(t.amountOut, Q64);
    ProductIs(Q64, Q64);
    ProductIs(t.sqrtPriceX64, t.sqrtPriceX64);
    ProductBelow(t.amountIn, t.feeRate, U64, 0x1_0000_0000);
    if t.sqrtPriceX64 < Q128 {
      ProductBelow(t.sqrtPriceX64, t.sqrtPriceX64, Q128, Q128);
    }
  }

  /** The price is zero exactly below 2^32. */
  lemma PriceVanishes(s: nat)
    ensures s * s / Q64 == 0 <==> s < 0x1_0000_0000
  {
    if s < 0x1_0000_0000 {
      ProductBelow(s, s, 0x1_0000_0000, 0x1_0000_0000);
    } else {
      MulOrder(0x1_0000_0000, s, 0x1_0000_0000);
      MulOrder(0x1_0000_0000, s, s);
    }
  }

  /**
   * Without wraparound the two forms agree exactly when the price does not
   * vanish, or is not divided by: below 2^32 a trade from B to A divides by
   * zero in the one form and answers zero in the other.
   */
  lemma FormsAgreeIff(t: Trade)
    requires t.Words() && t.sqrtPriceX64 < Q128
    ensures BigImpact(t) == Some(U256Impact(t))
       <==> t.aToB || t.sqrtPriceX64 >= 0x1_0000_0000 || !t.Positive() || t.amountIn <= Fee(t.amountIn, t.feeRate)
  {
    if t.Positive() {
      StepsAgree(t);
      PriceVanishes(t.sqrtPriceX64);
      var price := t.sqrtPriceX64 * t.sqrtPriceX64 / Q64;
      var net := t.amountIn - Fee(t.amountIn, t.feeRate);
      if net > 0 {
        var effective := Effective(t.amountOut, net);
        if t.aToB {
          LossAgrees(price, effective);
        } else if price > 0 {
          QuotientBelow(Q128, price);
          LossAgrees(Q128 / price, effective);
        }
      }
    }
  }

  /** The smallest price: one form divides by zero, the other answers zero. */
  lemma LowPriceExample()
    ensures var t := Trade(1, 1, false, 1, 0);
            t.Words() && t.Positive() && BigImpact(t) == None && U256Impact(t) == 0
  {
    var t := Trade(1, 1, false, 1, 0);
    PriceVanishes(1);
    ProductIs(1, 1);
    assert Div256(Mul256(1, 1), Q64) == 0;
    assert Div256(Mul256(Q64, Q64), 0) == 0;
  }

  /**
   * At 2^128 the squared price wraps to zero and the 256-bit form sees no
   * impact at all. Prices on chain have 128 bits, so only a price read back
   * from a damaged store can be this large.
   */
  lemma WrapExample()
    ensures var t := Trade(1, 1, true, Q128, 0);
            t.Words() && U256Impact(t) == 0 && BigImpact(t) == Some(9999)
  {
    var t := Trade(1, 1, true, Q128, 0);
    ProductIs(Q128, Q128);
    assert Mul256(Q128, Q128) == 0;
    assert Q128 * Q128 / Q64 == Q128 * Q64;
    assert Effective(1, 1) == Q64;
    assert (Q128 * Q64 - Q64) * BPS / (Q128 * Q64) == 9999;
  }

  /**
   * Known trades. At price one, a fee of 3000 millionths explains 0.3% of the
   * output, and one percent beyond it is 100 basis points. At price four, 390
   * for 100 misses 2.5%, and 95 for 400 the other way misses 5%.
   */
  lemma KnownImpacts()
    ensures BigImpact(Trade(1_000_000, 997_000, true, Q64, 3000)) == Some(0)
    ensures BigImpact(Trade(1_000_000, 987_030, true, Q64, 3000)) == Some(100)
    ensures BigImpact(Trade(100, 390, true, 2 * Q64, 0)) == Some(250)
    ensures BigImpact(Trade(400, 95, false, 2 * Q64, 0)) == Some(500)
  {
    assert Q64 * Q64 / Q64 == Q64 && (2 * Q64) * (2 * Q64) / Q64 == 4 * Q64;
    assert Fee(1_000_000, 3000) == 3000;
    assert Loss(Q64, Effective(987_030, 997_000)) == 100;
    assert Loss(4 * Q64, Effective(390, 100)) == 250;
    assert Q128 / (4 * Q64) == Q64 / 4;
    assert Loss(Q64 / 4, Effective(95, 400)) == 500;
  }

  // ---------- monotonicity ----------

  lemma QuotientAtLeast(x: nat, q: nat, d: nat)
    requires q * d <= x && 0 < d
    ensures q <= x / d
  {
    var p := x / d;
    assert x < p * d + d && (p + 1) * d == p * d + d;
    if p < q {
      MulOrder(p + 1, q, d);
    }
  }

  lemma QuotientOrder(x: nat, y: nat, d: nat)
    requires x <= y && 0 < d
    ensures x / d <= y / d
  {
    assert x / d * d <= x;
    QuotientAtLeast(y, x / d, d);
  }

  lemma DivisorOrder(x: nat, d: nat, e: nat)
    requires 0 < d <= e
    ensures x / e <= x / d
  {
    var q := x / e;
    assert q * e <= x;
    MulOrder(d, e, q);
    QuotientAtLeast(x, q, d);
  }

  lemma FeeStep(x: nat, y: nat, rate: nat)
    requires x <= y && rate < FEE_BASE
    ensures x - Fee(x, rate) <= y - Fee(y, rate)
    ensures x > 0 ==> Fee(x, rate) < x
  {
    MulOrder(rate, FEE_BASE, y - x);
    assert y * rate == x * rate + (y - x) * rate;
    if x > 0 {
      MulOrder(rate, FEE_BASE - 1, x);
    }
  }

  lemma LossAntitone(current: nat, e: nat, e': nat)
    requires e <= e'
    ensures Loss(current, e') <= Loss(current, e) <= BPS
  {
    if current > 0 && e < current {
      QuotientOrder((current - e) * BPS, current * BPS, current);
      assert current * BPS / current == BPS;
      if e' < current {
        QuotientOrder((current - e') * BPS, (current - e) * BPS, current);
      }
    }
  }

  /** Selling more or receiving less never lowers the impact, which is at most 100%. */
  lemma ImpactMonotone(t: Trade, t': Trade)
    requires t.Positive() && t.feeRate < FEE_BASE && BigImpact(t).Some?
    requires t' == t.(amountIn := t'.amountIn, amountOut := t'.amountOut)
    requires t.amountIn <= t'.amountIn && 0 < t'.amountOut <= t.amountOut
    ensures BigImpact(t').Some? && BigImpact(t).value <= BigImpact(t').value <= BPS
  {
    var net, net' := t.amountIn - Fee(t.amountIn, t.feeRate), t'.amountIn - Fee(t'.amountIn, t.feeRate);
    FeeStep(t.amountIn, t'.amountIn, t.feeRate);
    FeeStep(t'.amountIn, t'.amountIn, t.feeRate);
    var e, e' := Effective(t.amountOut, net), Effective(t'.amountOut, net');
    DivisorOrder(t'.amountOut * Q64, net, net');
    QuotientOrder(t'.amountOut * Q64, t.amountOut * Q64, net);
    assert e' <= e;
    var price := t.sqrtPriceX64 * t.sqrtPriceX64 / Q64;
    if t.aToB {
      LossAntitone(price, e', e);
    } else if price > 0 {
      LossAntitone(Q128 / price, e', e);
    }
  }

  /** The 256-bit form is monotone too, wherever the price neither wraps nor vanishes under a division. */
  lemma U256ImpactMonotone(t: Trade, t': Trade)
    requires t.Words() && t'.Words() && t.sqrtPriceX64 < Q128 && (t.aToB || t.sqrtPriceX64 >= 0x1_0000_0000)
    requires t.Positive() && t.feeRate < FEE_BASE
    requires t' == t.(amountIn := t'.amountIn, amountOut := t'.amountOut)
    requires t.amountIn <= t'.amountIn && 0 < t'.amountOut <= t.amountOut
    ensures U256Impact(t) <= U256Impact(t') <= BPS
  {
    FormsAgreeIff(t);
    FormsAgreeIff(t');
    ImpactMonotone(t, t');
  }
}
