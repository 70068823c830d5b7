// Quoting a super edge: one pool, or an equal split over its three deepest
// pools. The source writes this twice, over big integers and over uint64; here
// it is written once, over the width of its arithmetic.
module SuperEdgeQuotes {
  import opened Domain
  import opened FixedPoint

  const SPLIT_THRESHOLD: nat := 1_000_000
  const MAX_SPLITS: nat := 3

  type Bps = x: nat | x < 0x1_0000

  datatype QuoteError = NoRoute | NoPoolFound | QuoterError(code: nat)
  datatype Result<+T> = Success(value: T) | Failure(error: QuoteError)

  datatype PoolQuote = PoolQuote(amountIn: nat, amountOut: nat, fee: nat, impactBps: Bps)

  /** The swap computation of one pool: pool, amount, direction, exact-in. */
  type Quoter = (Pool, nat, bool, bool) -> Result<PoolQuote>

  datatype PoolSplit = PoolSplit(pool: Pool, percent: nat, amountIn: nat, amountOut: nat, fee: nat, aToB: bool)
  datatype EdgeQuote = EdgeQuote(amountIn: nat, amountOut: nat, fee: nat, impactBps: Bps, isSplit: bool,
                                 splits: seq<PoolSplit>)

  /** Unbounded integers, or words of 64 bits that wrap around. */
  datatype Width = Unbounded | Word64

  function Fit(w: Width, x: nat): nat {
    if w.Unbounded? then x else x % U64
  }

  // ---------- one pool ----------

  function QuoteSinglePool(q: Quoter, pool: Pool, amount: nat, aToB: bool, exactIn: bool): Result<EdgeQuote> {
    match q(pool, amount, aToB, exactIn)
    case Failure(e) => Failure(e)
    case Success(p) =>
      Success(EdgeQuote(p.amountIn, p.amountOut, p.fee, p.impactBps, false,
                        [PoolSplit(pool, 100, p.amountIn, p.amountOut, p.fee, aToB)]))
  }

  // ---------- an equal split ----------

  /** A split in the making: each pool with its percentage and its part of the amount. */
  datatype Order = Order(pools: seq<Pool>, percents: seq<nat>, parts: seq<nat>, aToB: bool, exactIn: bool) {

    ghost predicate Splittable() {
      && 2 <= |pools| <= MAX_SPLITS && |parts| == |pools|
      && percents == if |pools| == 2 then [50, 50] else [34, 33, 33]
    }

    function Ask(q: Quoter, i: nat): Result<PoolQuote>
      requires i < |pools| && i < |parts|
    {
      q(pools[i], parts[i], aToB, exactIn)
    }
  }

  function Part(w: Width, amount: nat, percent: nat): nat {
    Fit(w, amount * percent) / 100
  }

  /** The accumulators of the split loop; pools that cannot quote are skipped. */
  datatype Tally = Tally(totalIn: nat, totalOut: nat, totalFee: nat, weighted: nat, splits: seq<PoolSplit>)

  function Counted(w: Width, t: Tally, pool: Pool, percent: nat, r: Result<PoolQuote>, aToB: bool): Tally {
    match r
    case Failure(_) => t
    case Success(p) =>
      Tally(Fit(w, t.totalIn + p.amountIn), Fit(w, t.totalOut + p.amountOut), Fit(w, t.totalFee + p.fee),
            t.weighted + p.impactBps * percent,
            t.splits + [PoolSplit(pool, percent, p.amountIn, p.amountOut, p.fee, aToB)])
  }

  /** The accumulators after the first `i` pools. */
  function TallyOf(w: Width, q: Quoter, o: Order, i: nat): (t: Tally)
    requires o.Splittable() && i <= |o.pools|
    ensures |t.splits| <= i
  {
    if i == 0 then Tally(0, 0, 0, 0, [])
    else Counted(w, TallyOf(w, q, o, i - 1), o.pools[i - 1], o.percents[i - 1], o.Ask(q, i - 1), o.aToB)
  }

  function PercentSum(splits: seq<PoolSplit>): nat {
    if splits == [] then 0 else PercentSum(splits[..|splits| - 1]) + splits[|splits| - 1].percent
  }

  /** The percentages given out so far; all of them make 100. */
  function PercentsUpTo(o: Order, i: nat): nat
    requires o.Splittable() && i <= |o.pools|
  {
    if i == 0 then 0 else PercentsUpTo(o, i - 1) + o.percents[i - 1]
  }

  lemma PercentsMake100(o: Order)
    requires o.Splittable()
    ensures PercentsUpTo(o, |o.pools|) == 100
  {
    assert PercentsUpTo(o, 2) == PercentsUpTo(o, 1) + o.percents[1];
    assert PercentsUpTo(o, 1) == PercentsUpTo(o, 0) + o.percents[0];
  }

  lemma CountedWeight(w: Width, t: Tally, pool: Pool, percent: nat, r: Result<PoolQuote>, aToB: bool)
    ensures Counted(w, t, pool, percent, r, aToB).weighted <= t.weighted + 0xFFFF * percent
  {
    if r.Success? {
      MulOrder(r.value.impactBps, 0xFFFF, percent);
    }
  }

  /** The weighted impact fits the source's uint32, and its average a uint16. */
  lemma {:induction false} WeightedFits(w: Width, q: Quoter, o: Order, i: nat)
    requires o.Splittable() && i <= |o.pools|
    ensures TallyOf(w, q, o, i).weighted <= 0xFFFF * PercentsUpTo(o, i)
  {
    if i > 0 {
      WeightedFits(w, q, o, i - 1);
      CountedWeight(w, TallyOf(w, q, o, i - 1), o.pools[i - 1], o.percents[i - 1], o.Ask(q, i - 1), o.aToB);
    }
  }

  /** A split that pays nothing is no quote. */
  function Concluded(t: Tally): Result<EdgeQuote>
    requires t.weighted <= 0xFFFF * 100
  {
    if t.totalOut == 0 || t.splits == [] then Failure(NoPoolFound)
    else Success(EdgeQuote(t.totalIn, t.totalOut, t.totalFee, t.weighted / 100, |t.splits| > 1, t.splits))
  }

  function SplitOf(w: Width, q: Quoter, o: Order): Result<EdgeQuote>
    requires o.Splittable()
  {
    PercentsMake100(o);
    WeightedFits(w, q, o, |o.pools|);
    Concluded(TallyOf(w, q, o, |o.pools|))
  }

  /** The first pool takes what the division of 100 leaves over. */
  function OrderFor(w: Width, pools: seq<Pool>, amount: nat, aToB: bool, exactIn: bool): (o: Order)
    requires 2 <= |pools|
    ensures o.Splittable()
  {
    var percents := if |pools| == 2 then [50, 50] else [34, 33, 33];
    Order(pools[..|percents|], percents,
          seq(|percents|, i requires 0 <= i < |percents| => Part(w, amount, percents[i])), aToB, exactIn)
  }

  /** An equal split over the deepest pools. A pool that cannot quote leaves no entry. */
  method QuoteSplitPools(w: Width, q: Quoter, pools: seq<Pool>, amount: nat, aToB: bool, exactIn: bool)
    returns (r: Result<EdgeQuote>)
    requires 2 <= |pools|
    ensures r == SplitOf(w, q, OrderFor(w, pools, amount, aToB, exactIn))
  {
    ghost var o := OrderFor(w, pools, amount, aToB, exactIn);
    var numPools := if |pools| > MAX_SPLITS then MAX_SPLITS else |pools|;
    assert numPools == 2 || numPools == 3;
    var percent := 100 / numPools;
    var remainder := 100 - percent * numPools;
    assert o.percents[0] == percent + remainder && forall i :: 1 <= i < numPools ==> o.percents[i] == percent;
    var t := Tally(0, 0, 0, 0, []);
    for i := 0 to numPools
      invariant t == TallyOf(w, q, o, i)
    {
      var pct := if i == 0 then percent + remainder else percent;
      var quote := q(pools[i], Part(w, amount, pct), aToB, exactIn);
      assert quote == o.Ask(q, i);
      assert TallyOf(w, q, o, i + 1) == Counted(w, t, pools[i], pct, quote, aToB);
      t := Counted(w, t, pools[i], pct, quote, aToB);
    }
    PercentsMake100(o);
    WeightedFits(w, q, o, numPools);
    r := Concluded(t);
  }

  // ---------- a super edge ----------

  predicate Better(a: EdgeQuote, b: EdgeQuote, exactIn: bool) {
    if exactIn then a.amountOut > b.amountOut else a.amountIn < b.amountIn
  }

  /** The split is tried on large amounts, and kept only when strictly better. */
  function QuoteOf(w: Width, q: Quoter, pools: seq<Pool>, fromMint: PublicKey, amount: nat, exactIn: bool)
    : Result<EdgeQuote>
  {
    if pools == [] then Failure(NoPoolFound)
    else
      var aToB := pools[0].mintA == fromMint;
      var single := QuoteSinglePool(q, pools[0], amount, aToB, exactIn);
      if |pools| == 1 || amount < SPLIT_THRESHOLD then single
      else
        var split := SplitOf(w, q, OrderFor(w, pools, amount, aToB, exactIn));
        if split.Failure? then single
        else if single.Failure? || Better(split.value, single.value, exactIn) then split
        else single
  }

  method GetQuote(w: Width, q: Quoter, pools: seq<Pool>, fromMint: PublicKey, amount: nat, exactIn: bool)
    returns (r: Result<EdgeQuote>)
    ensures r == QuoteOf(w, q, pools, fromMint, amount, exactIn)
  {
    if |pools| == 0 {
      return Failure(NoPoolFound);
    }
    var aToB := pools[0].mintA == fromMint;
    if |pools| == 1 || amount < SPLIT_THRESHOLD {
      return QuoteSinglePool(q, pools[0], amount, aToB, exactIn);
    }
    var split := QuoteSplitPools(w, q, pools, amount, aToB, exactIn);
    if split.Failure? {
      return QuoteSinglePool(q, pools[0], amount, aToB, exactIn);
    }
    var single := QuoteSinglePool(q, pools[0], amount, aToB, exactIn);
    if single.Failure? {
      return split;
    }
    if exactIn {
      if split.value.amountOut > single.value.amountOut {
        return split;
      }
      return single;
    }
    if split.value.amountIn < single.value.amountIn {
      return split;
    }
    return single;
  }

  /** A quoted edge names a pool, and an edge with pools fails only for its deepest pool's reason. */
  lemma QuoteOutcome(w: Width, q: Quoter, pools: seq<Pool>, fromMint: PublicKey, amount: nat, exactIn: bool)
    requires pools != []
    ensures var r := QuoteOf(w, q, pools, fromMint, amount, exactIn);
            var first := q(pools[0], amount, pools[0].mintA == fromMint, exactIn);
            && (r.Success? ==> 1 <= |r.value.splits| <= MAX_SPLITS && (r.value.isSplit <==> |r.value.splits| > 1))
            && (r.Failure? ==> first == Failure(r.error))
  {
  }

  // ---------- larger inputs never hurt ----------

  /**
   * Below `limit` a larger exact-in amount keeps a pool quotable and never pays
   * less. No pool quotes more than a word, and its liquidity may end earlier.
   */
  ghost predicate Monotone(q: Quoter, limit: nat) {
    forall p, x: nat, y: nat, d :: x <= y < limit ==> NoWorse(q(p, x, d, true), q(p, y, d, true))
  }

  predicate NoWorse(a: Result<PoolQuote>, b: Result<PoolQuote>) {
    a.Success? ==> b.Success? && a.value.amountOut <= b.value.amountOut
  }

  predicate NoWorseEdge(a: Result<EdgeQuote>, b: Result<EdgeQuote>) {
    a.Success? ==> b.Success? && a.value.amountOut <= b.value.amountOut
  }

  lemma PartMonotone(x: nat, y: nat, percent: nat)
    requires x <= y && percent <= 100
    ensures Part(Unbounded, x, percent) <= Part(Unbounded, y, percent) <= y
  {
    MulOrder(x, y, percent);
    MulOrder(percent, 100, y);
  }

  lemma {:induction false} TallyMonotone(q: Quoter, limit: nat, o: Order, o': Order, i: nat)
    requires Monotone(q, limit) && o.Splittable() && i <= |o.pools| && o.exactIn
    requires o' == o.(parts := o'.parts) && |o'.parts| == |o.parts|
    requires forall j :: 0 <= j < |o.parts| ==> o.parts[j] <= o'.parts[j] < limit
    ensures TallyOf(Unbounded, q, o, i).totalOut <= TallyOf(Unbounded, q, o', i).totalOut
    ensures |TallyOf(Unbounded, q, o, i).splits| <= |TallyOf(Unbounded, q, o', i).splits|
  {
    if i > 0 {
      TallyMonotone(q, limit, o, o', i - 1);
      assert NoWorse(o.Ask(q, i - 1), o'.Ask(q, i - 1));
    }
  }

  lemma SplitMonotone(q: Quoter, limit: nat, pools: seq<Pool>, x: nat, y: nat, aToB: bool)
    requires Monotone(q, limit) && x <= y < limit && 2 <= |pools|
    ensures NoWorseEdge(SplitOf(Unbounded, q, OrderFor(Unbounded, pools, x, aToB, true)),
                        SplitOf(Unbounded, q, OrderFor(Unbounded, pools, y, aToB, true)))
  {
    var o, o' := OrderFor(Unbounded, pools, x, aToB, true), OrderFor(Unbounded, pools, y, aToB, true);
    forall j | 0 <= j < |o.parts| ensures o.parts[j] <= o'.parts[j] < limit {
      PartMonotone(x, y, o.percents[j]);
    }
    TallyMonotone(q, limit, o, o', |o.pools|);
  }

  /** Monotone across the split threshold and across the choice between split and single pool. */
  lemma QuoteMonotone(q: Quoter, limit: nat, pools: seq<Pool>, fromMint: PublicKey, x: nat, y: nat)
    requires Monotone(q, limit) && x <= y < limit
    ensures NoWorseEdge(QuoteOf(Unbounded, q, pools, fromMint, x, true),
                        QuoteOf(Unbounded, q, pools, fromMint, y, true))
  {
    if pools != [] {
      var d := pools[0].mintA == fromMint;
      assert NoWorse(q(pools[0], x, d, true), q(pools[0], y, d, true));
      if |pools| > 1 {
        SplitMonotone(q, limit, pools, x, y, d);
      }
    }
  }

  // ---------- the uint64 form refines the unbounded one ----------

  /** The uint64 quoter answers as the big-integer one on every word. */
  ghost predicate Agree(q: Quoter, fast: Quoter) {
    forall p, x: nat, d, e :: x < U64 ==> fast(p, x, d, e) == q(p, x, d, e)
  }

  /** The amount is a word and, where a split is tried, its products and sums are words. */
  ghost predicate EdgeFits(q: Quoter, pools: seq<Pool>, fromMint: PublicKey, amount: nat, exactIn: bool) {
    && amount < U64
    && (|pools| > 1 && amount >= SPLIT_THRESHOLD ==>
          && amount * 100 < U64
          && var o := OrderFor(Unbounded, pools, amount, pools[0].mintA == fromMint, exactIn);
             TallyFits(TallyOf(Unbounded, q, o, |o.pools|)))
  }

  predicate TallyFits(t: Tally) {
    t.totalIn < U64 && t.totalOut < U64 && t.totalFee < U64
  }

  lemma CountedRefines(t: Tally, pool: Pool, percent: nat, r: Result<PoolQuote>, aToB: bool)
    requires TallyFits(Counted(Unbounded, t, pool, percent, r, aToB))
    ensures TallyFits(t)
    ensures Counted(Word64, t, pool, percent, r, aToB) == Counted(Unbounded, t, pool, percent, r, aToB)
  {
  }

  lemma {:induction false} TallyRefines(q: Quoter, fast: Quoter, o: Order, i: nat)
    requires Agree(q, fast) && o.Splittable() && i <= |o.pools|
    requires forall j :: 0 <= j < |o.parts| ==> o.parts[j] < U64
    requires TallyFits(TallyOf(Unbounded, q, o, i))
    ensures TallyOf(Word64, fast, o, i) == TallyOf(Unbounded, q, o, i)
  {
    if i > 0 {
      assert o.Ask(fast, i - 1) == o.Ask(q, i - 1);
      CountedRefines(TallyOf(Unbounded, q, o, i - 1), o.pools[i - 1], o.percents[i - 1], o.Ask(q, i - 1), o.aToB);
      TallyRefines(q, fast, o, i - 1);
    }
  }

  lemma PartRefines(amount: nat, percent: nat)
    requires amount * 100 < U64 && percent <= 100
    ensures Part(Word64, amount, percent) == Part(Unbounded, amount, percent) < U64
  {
    MulOrder(percent, 100, amount);
  }

  /** No product of the split wraps, so both widths place the same order. */
  lemma OrderRefines(pools: seq<Pool>, amount: nat, aToB: bool, exactIn: bool)
    requires 2 <= |pools| && amount * 100 < U64
    ensures var o := OrderFor(Unbounded, pools, amount, aToB, exactIn);
            && OrderFor(Word64, pools, amount, aToB, exactIn) == o
            && forall j :: 0 <= j < |o.parts| ==> o.parts[j] < U64
  {
    var o, o' := OrderFor(Unbounded, pools, amount, aToB, exactIn), OrderFor(Word64, pools, amount, aToB, exactIn);
    forall j | 0 <= j < |o.parts| ensures o'.parts[j] == o.parts[j] < U64 {
      PartRefines(amount, o.percents[j]);
    }
    assert o'.parts == o.parts;
  }

  lemma SplitRefines(q: Quoter, fast: Quoter, pools: seq<Pool>, amount: nat, aToB: bool, exactIn: bool)
    requires Agree(q, fast) && 2 <= |pools| && amount * 100 < U64
    requires var o := OrderFor(Unbounded, pools, amount, aToB, exactIn);
             TallyFits(TallyOf(Unbounded, q, o, |o.pools|))
    ensures SplitOf(Word64, fast, OrderFor(Word64, pools, amount, aToB, exactIn))
         == SplitOf(Unbounded, q, OrderFor(Unbounded, pools, amount, aToB, exactIn))
  {
    var o := OrderFor(Unbounded, pools, amount, aToB, exactIn);
    OrderRefines(pools, amount, aToB, exactIn);
    TallyRefines(q, fast, o, |o.pools|);
  }

  lemma QuoteRefines(q: Quoter, fast: Quoter, pools: seq<Pool>, fromMint: PublicKey, amount: nat, exactIn: bool)
    requires Agree(q, fast) && EdgeFits(q, pools, fromMint, amount, exactIn)
    ensures QuoteOf(Word64, fast, pools, fromMint, amount, exactIn)
         == QuoteOf(Unbounded, q, pools, fromMint, amount, exactIn)
  {
    if pools != [] {
      var d := pools[0].mintA == fromMint;
      assert fast(pools[0], amount, d, exactIn) == q(pools[0], amount, d, exactIn);
      if |pools| > 1 && amount >= SPLIT_THRESHOLD {
        SplitRefines(q, fast, pools, amount, d, exactIn);
      }
    }
  }

  // ---------- what a split delivers ----------

  /** The side of a quote that the caller fixed. */
  function Fixed(amountIn: nat, amountOut: nat, exactIn: bool): nat {
    if exactIn then amountIn else amountOut
  }

  /** A pool that quotes at all quotes the very amount it was asked for. */
  ghost predicate Echoes(q: Quoter) {
    forall p, x, d, e :: Echo(q(p, x, d, e), x, e)
  }

  predicate Echo(r: Result<PoolQuote>, amount: nat, exactIn: bool) {
    r.Success? ==> Fixed(r.value.amountIn, r.value.amountOut, exactIn) == amount
  }

  /** Every share of the amount is a whole number. */
  ghost predicate Even(amount: nat, splits: seq<PoolSplit>) {
    forall s :: s in splits ==> amount * s.percent % 100 == 0
  }

  lemma EvenStep(amount: nat, splits: seq<PoolSplit>, s: PoolSplit)
    ensures PercentSum(splits + [s]) == PercentSum(splits) + s.percent
    ensures Even(amount, splits + [s]) <==> Even(amount, splits) && amount * s.percent % 100 == 0
  {
    assert (splits + [s])[..|splits|] == splits;
    assert s in splits + [s];
  }

  lemma DeliversStep(amount: nat, total: nat, percents: nat, percent: nat)
    requires total * 100 <= amount * percents
    ensures (total + amount * percent / 100) * 100 <= amount * (percents + percent)
    ensures ((total + amount * percent / 100) * 100 == amount * (percents + percent)
             <==> total * 100 == amount * percents && amount * percent % 100 == 0)
  {
    var product := amount * percent;
    assert product / 100 * 100 == product - product % 100;
    assert amount * (percents + percent) == amount * percents + product;
  }

  /** The fixed side of a split of `amount`, against the exact share of its percentages. */
  ghost predicate Delivered(amount: nat, exactIn: bool, t: Tally) {
    match t
    case Tally(totalIn, totalOut, _, _, splits) =>
      && Fixed(totalIn, totalOut, exactIn) * 100 <= amount * PercentSum(splits)
      && (Fixed(totalIn, totalOut, exactIn) * 100 == amount * PercentSum(splits) <==> Even(amount, splits))
  }

  lemma CountedDelivers(amount: nat, exactIn: bool, t: Tally, pool: Pool, percent: nat, r: Result<PoolQuote>,
                        aToB: bool)
    requires Delivered(amount, exactIn, t) && Echo(r, Part(Unbounded, amount, percent), exactIn)
    ensures Delivered(amount, exactIn, Counted(Unbounded, t, pool, percent, r, aToB))
  {
    match r
    case Failure(_) =>
    case Success(p) =>
      EvenStep(amount, t.splits, PoolSplit(pool, percent, p.amountIn, p.amountOut, p.fee, aToB));
      DeliversStep(amount, Fixed(t.totalIn, t.totalOut, exactIn), PercentSum(t.splits), percent);
  }

  lemma {:induction false} TallyDelivers(q: Quoter, o: Order, amount: nat, i: nat)
    requires Echoes(q) && o.Splittable() && i <= |o.pools|
    requires forall j :: 0 <= j < |o.parts| ==> o.parts[j] == Part(Unbounded, amount, o.percents[j])
    ensures Delivered(amount, o.exactIn, TallyOf(Unbounded, q, o, i))
  {
    if i > 0 {
      TallyDelivers(q, o, amount, i - 1);
      assert Echo(o.Ask(q, i - 1), o.parts[i - 1], o.exactIn);
      CountedDelivers(amount, o.exactIn, TallyOf(Unbounded, q, o, i - 1),
                      o.pools[i - 1], o.percents[i - 1], o.Ask(q, i - 1), o.aToB);
    } else {
      assert Delivered(amount, o.exactIn, Tally(0, 0, 0, 0, []));
    }
  }

  /** Every part of the order is quoted by its pool. */
  predicate AllPartsQuote(q: Quoter, o: Order, n: nat)
    requires n <= |o.pools| == |o.parts|
  {
    forall i :: 0 <= i < n ==> o.Ask(q, i).Success?
  }

  /** The percentages of the splits are the first `n` of the order. */
  ghost predicate SharesAre(splits: seq<PoolSplit>, o: Order, n: nat)
    requires n <= |o.percents|
  {
    |splits| == n && forall j :: 0 <= j < n ==> splits[j].percent == o.percents[j]
  }

  /** A refusal leaves the percentages short of their `total` for good. */
  lemma CountedShare(w: Width, t: Tally, pool: Pool, percent: nat, r: Result<PoolQuote>, aToB: bool, total: nat)
    requires PercentSum(t.splits) <= total && percent > 0
    ensures var sum := PercentSum(Counted(w, t, pool, percent, r, aToB).splits);
            && sum <= total + percent
            && (sum == total + percent) == (PercentSum(t.splits) == total && r.Success?)
  {
    match r
    case Failure(_) =>
    case Success(p) =>
      EvenStep(0, t.splits, PoolSplit(pool, percent, p.amountIn, p.amountOut, p.fee, aToB));
  }

  lemma CountedShares(w: Width, t: Tally, o: Order, i: nat, pool: Pool, r: Result<PoolQuote>)
    requires i < |o.percents| && SharesAre(t.splits, o, i) && r.Success?
    ensures SharesAre(Counted(w, t, pool, o.percents[i], r, o.aToB).splits, o, i + 1)
  {
  }

  lemma OneMorePart(q: Quoter, o: Order, i: nat)
    requires o.Splittable() && 0 < i <= |o.pools|
    ensures AllPartsQuote(q, o, i) == (AllPartsQuote(q, o, i - 1) && o.Ask(q, i - 1).Success?)
    ensures o.percents[i - 1] > 0
  {
  }

  /** The percentages are complete exactly when every pool quotes. */
  ghost predicate CompleteUpTo(w: Width, q: Quoter, o: Order, i: nat)
    requires o.Splittable() && i <= |o.pools|
  {
    var sum := PercentSum(TallyOf(w, q, o, i).splits);
    sum <= PercentsUpTo(o, i) && (sum == PercentsUpTo(o, i)) == AllPartsQuote(q, o, i)
  }

  lemma CompleteFirst(w: Width, q: Quoter, o: Order)
    requires o.Splittable()
    ensures CompleteUpTo(w, q, o, 0)
  {
    assert TallyOf(w, q, o, 0).splits == [];
  }

  lemma CompleteNext(w: Width, q: Quoter, o: Order, i: nat)
    requires o.Splittable() && i < |o.pools| && CompleteUpTo(w, q, o, i)
    ensures CompleteUpTo(w, q, o, i + 1)
  {
    OneMorePart(q, o, i + 1);
    var t, r := TallyOf(w, q, o, i), o.Ask(q, i);
    assert TallyOf(w, q, o, i + 1) == Counted(w, t, o.pools[i], o.percents[i], r, o.aToB);
    assert PercentsUpTo(o, i + 1) == PercentsUpTo(o, i) + o.percents[i];
    CountedShare(w, t, o.pools[i], o.percents[i], r, o.aToB, PercentsUpTo(o, i));
  }

  lemma {:induction false} TallyComplete(w: Width, q: Quoter, o: Order, i: nat)
    requires o.Splittable() && i <= |o.pools|
    ensures CompleteUpTo(w, q, o, i)
  {
    if i == 0 {
      CompleteFirst(w, q, o);
    } else {
      TallyComplete(w, q, o, i - 1);
      CompleteNext(w, q, o, i - 1);
    }
  }

  /** When every pool quotes, the percentages are those of the order. */
  lemma {:induction false} TallyShares(w: Width, q: Quoter, o: Order, i: nat)
    requires o.Splittable() && i <= |o.pools| && AllPartsQuote(q, o, i)
    ensures SharesAre(TallyOf(w, q, o, i).splits, o, i)
  {
    if i > 0 {
      OneMorePart(q, o, i);
      TallyShares(w, q, o, i - 1);
      CountedShares(w, TallyOf(w, q, o, i - 1), o, i - 1, o.pools[i - 1], o.Ask(q, i - 1));
    }
  }

  lemma ShortShare(amount: nat, percents: nat)
    requires amount > 0 && percents <= 100
    ensures amount * percents <= amount * 100
    ensures amount * percents == amount * 100 <==> percents == 100
  {
    if percents < 100 {
      MulOrder(percents, 99, amount);
    }
  }

  /** Never more than the amount; all of it exactly when no pool failed and no share was rounded. */
  ghost predicate DeliversUpTo(amount: nat, exactIn: bool, r: EdgeQuote) {
    && Fixed(r.amountIn, r.amountOut, exactIn) <= amount
    && (Fixed(r.amountIn, r.amountOut, exactIn) == amount <==> PercentSum(r.splits) == 100 && Even(amount, r.splits))
  }

  lemma SplitDelivers(q: Quoter, pools: seq<Pool>, amount: nat, aToB: bool, exactIn: bool)
    requires Echoes(q) && 2 <= |pools| && amount > 0
    requires SplitOf(Unbounded, q, OrderFor(Unbounded, pools, amount, aToB, exactIn)).Success?
    ensures var r := SplitOf(Unbounded, q, OrderFor(Unbounded, pools, amount, aToB, exactIn)).value;
            DeliversUpTo(amount, exactIn, r)
  {
    var o := OrderFor(Unbounded, pools, amount, aToB, exactIn);
    PercentsMake100(o);
    TallyDelivers(q, o, amount, |o.pools|);
    TallyComplete(Unbounded, q, o, |o.pools|);
    ShortShare(amount, PercentSum(TallyOf(Unbounded, q, o, |o.pools|).splits));
  }

  /** The shares of an equal split over `n` pools are whole numbers. */
  predicate WholeShares(n: nat, amount: nat) {
    amount % (if n == 2 then 2 else 100) == 0
  }

  lemma WholeHalves(amount: nat)
    ensures amount * 50 % 100 == 0 <==> amount % 2 == 0
  {
  }

  lemma Multiple(x: int, h: int)
    requires x == 100 * h
    ensures x % 100 == 0
  {
  }

  lemma ThirdsOfWhole(amount: nat)
    requires amount % 100 == 0
    ensures amount * 33 % 100 == 0 && amount * 34 % 100 == 0
  {
    var h := amount / 100;
    Multiple(amount * 33, 33 * h);
    Multiple(amount * 34, 34 * h);
  }

  lemma WholeOfThirds(amount: nat, k: int)
    requires amount * 33 == 100 * k
    ensures amount % 100 == 0
  {
    Multiple(amount, 97 * k - 32 * amount);
  }

  lemma WholeThirds(amount: nat)
    ensures amount * 33 % 100 == 0 <==> amount % 100 == 0
    ensures amount % 100 == 0 ==> amount * 34 % 100 == 0
  {
    if amount % 100 == 0 {
      ThirdsOfWhole(amount);
    } else if amount * 33 % 100 == 0 {
      WholeOfThirds(amount, amount * 33 / 100);
    }
  }

  lemma EvenIffWhole(amount: nat, o: Order, splits: seq<PoolSplit>)
    requires o.Splittable() && SharesAre(splits, o, |o.pools|)
    ensures Even(amount, splits) <==> WholeShares(|o.pools|, amount)
  {
    assert splits[0] in splits && splits[1] in splits;
    if |o.pools| == 2 {
      WholeHalves(amount);
    } else {
      WholeThirds(amount);
      assert splits[0].percent == 34 && splits[1].percent == 33 && splits[2].percent == 33;
    }
  }

  /** Both pool and split can quote, and the split is the one chosen. */
  predicate SplitChosen(q: Quoter, pools: seq<Pool>, fromMint: PublicKey, amount: nat, exactIn: bool) {
    && 1 < |pools| && SPLIT_THRESHOLD <= amount
    && var d := pools[0].mintA == fromMint;
       var split := SplitOf(Unbounded, q, OrderFor(Unbounded, pools, amount, d, exactIn));
       var single := QuoteSinglePool(q, pools[0], amount, d, exactIn);
       split.Success? && (single.Failure? || Better(split.value, single.value, exactIn))
  }

  /** The split is not chosen, or each of its pools quotes its part and no share is rounded. */
  predicate Meets(q: Quoter, pools: seq<Pool>, fromMint: PublicKey, amount: nat, exactIn: bool) {
    SplitChosen(q, pools, fromMint, amount, exactIn) ==>
      var o := OrderFor(Unbounded, pools, amount, pools[0].mintA == fromMint, exactIn);
      AllPartsQuote(q, o, |o.pools|) && WholeShares(|o.pools|, amount)
  }

  lemma SplitMeetsIff(q: Quoter, pools: seq<Pool>, amount: nat, aToB: bool, exactIn: bool)
    requires Echoes(q) && 2 <= |pools| && amount > 0
    requires SplitOf(Unbounded, q, OrderFor(Unbounded, pools, amount, aToB, exactIn)).Success?
    ensures var o := OrderFor(Unbounded, pools, amount, aToB, exactIn);
            var r := SplitOf(Unbounded, q, o).value;
            (Fixed(r.amountIn, r.amountOut, exactIn) == amount
             <==> AllPartsQuote(q, o, |o.pools|) && WholeShares(|o.pools|, amount))
  {
    var o := OrderFor(Unbounded, pools, amount, aToB, exactIn);
    SplitDelivers(q, pools, amount, aToB, exactIn);
    PercentsMake100(o);
    TallyComplete(Unbounded, q, o, |o.pools|);
    if AllPartsQuote(q, o, |o.pools|) {
      TallyShares(Unbounded, q, o, |o.pools|);
      EvenIffWhole(amount, o, TallyOf(Unbounded, q, o, |o.pools|).splits);
    }
  }

  /**
   * The side of a trade the caller fixed is never exceeded. It is met exactly
   * when the split is not chosen, or each of its pools quotes its part and the
   * shares are whole.
   */
  lemma QuoteDelivers(q: Quoter, pools: seq<Pool>, fromMint: PublicKey, amount: nat, exactIn: bool)
    requires Echoes(q) && QuoteOf(Unbounded, q, pools, fromMint, amount, exactIn).Success?
    ensures var r := QuoteOf(Unbounded, q, pools, fromMint, amount, exactIn).value;
            && Fixed(r.amountIn, r.amountOut, exactIn) <= amount
            && (Fixed(r.amountIn, r.amountOut, exactIn) == amount <==> Meets(q, pools, fromMint, amount, exactIn))
  {
    var d := pools[0].mintA == fromMint;
    if SplitChosen(q, pools, fromMint, amount, exactIn) {
      SplitDelivers(q, pools, amount, d, exactIn);
      SplitMeetsIff(q, pools, amount, d, exactIn);
    } else {
      assert Echo(q(pools[0], amount, d, exactIn), amount, exactIn);
    }
  }

  // ---------- the direction of the pools ----------

  predicate OwnDirection(s: PoolSplit, fromMint: PublicKey) {
    s.aToB == (s.pool.mintA == fromMint)
  }

  lemma {:induction false} TallyDirections(w: Width, q: Quoter, o: Order, i: nat)
    requires o.Splittable() && i <= |o.pools|
    ensures forall s :: s in TallyOf(w, q, o, i).splits ==> s.pool in o.pools && s.aToB == o.aToB
  {
    if i > 0 {
      TallyDirections(w, q, o, i - 1);
    }
  }

  lemma SplitsOf(w: Width, q: Quoter, pools: seq<Pool>, fromMint: PublicKey, amount: nat, exactIn: bool)
    requires QuoteOf(w, q, pools, fromMint, amount, exactIn).Success?
    ensures forall s :: s in QuoteOf(w, q, pools, fromMint, amount, exactIn).value.splits ==>
              s.pool in pools && s.aToB == (pools[0].mintA == fromMint)
  {
    if |pools| > 1 {
      var o := OrderFor(w, pools, amount, pools[0].mintA == fromMint, exactIn);
      TallyDirections(w, q, o, |o.pools|);
      assert forall p :: p in o.pools ==> p in pools;
    }
  }

  /**
   * Every pool is asked in the direction of the deepest one. So all are asked
   * in their own direction exactly when the pools named have their mints in
   * the same order as the deepest pool.
   */
  lemma DirectionsIff(w: Width, q: Quoter, pools: seq<Pool>, fromMint: PublicKey, amount: nat, exactIn: bool)
    requires QuoteOf(w, q, pools, fromMint, amount, exactIn).Success?
    ensures var r := QuoteOf(w, q, pools, fromMint, amount, exactIn).value;
            && (forall s :: s in r.splits ==> s.pool in pools)
            && ((forall s :: s in r.splits ==> OwnDirection(s, fromMint))
                <==> forall s :: s in r.splits ==> (s.pool.mintA == fromMint) == (pools[0].mintA == fromMint))
  {
    SplitsOf(w, q, pools, fromMint, amount, exactIn);
  }
}
