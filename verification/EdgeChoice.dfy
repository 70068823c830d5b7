// What a super edge answers with, in amounts only: the deepest pool's own quote
// or an equal split, whichever is cheaper; and what a split adds up to.
module EdgeChoices {
  import opened Domain
  import opened SuperEdgeQuotes

  // ---------- the cheaper alternative ----------

  /** The split an edge tries: none for one pool, or for less than a million. */
  function Tried(w: Width, q: Quoter, pools: seq<Pool>, fromMint: PublicKey, amount: nat, exactIn: bool)
    : Result<EdgeQuote>
  {
    if |pools| < 2 || amount < 1_000_000 then Failure(NoPoolFound)
    else SplitOf(w, q, OrderFor(w, pools, amount, pools[0].mintA == fromMint, exactIn))
  }

  /** The quote is that of one pool, for the whole amount. */
  predicate IsOwn(r: EdgeQuote, own: PoolQuote, pool: Pool, aToB: bool) {
    && r.amountIn == own.amountIn && r.amountOut == own.amountOut && r.fee == own.fee && r.impactBps == own.impactBps
    && !r.isSplit && r.splits == [PoolSplit(pool, 100, own.amountIn, own.amountOut, own.fee, aToB)]
  }

  /**
   * An edge answers when the deepest pool or the split does, and then pays no
   * less, or takes no more, than either of them. It answers with the split only
   * if that is strictly better or the pool refuses, and else with the pool's
   * own quote.
   */
  lemma CheaperIsAnswered(w: Width, q: Quoter, pools: seq<Pool>, fromMint: PublicKey, amount: nat, exactIn: bool)
    requires pools != []
    ensures var r := QuoteOf(w, q, pools, fromMint, amount, exactIn);
            var own := q(pools[0], amount, pools[0].mintA == fromMint, exactIn);
            var split := Tried(w, q, pools, fromMint, amount, exactIn);
            && (r.Success? <==> own.Success? || split.Success?)
            && (exactIn && own.Success? ==> r.value.amountOut >= own.value.amountOut)
            && (exactIn && split.Success? ==> r.value.amountOut >= split.value.amountOut)
            && (!exactIn && own.Success? ==> r.value.amountIn <= own.value.amountIn)
            && (!exactIn && split.Success? ==> r.value.amountIn <= split.value.amountIn)
            && (r.Success? ==>
                  || (own.Success? && IsOwn(r.value, own.value, pools[0], pools[0].mintA == fromMint))
                  || (r == split && own.Failure?)
                  || (r == split && exactIn && r.value.amountOut > own.value.amountOut)
                  || (r == split && !exactIn && r.value.amountIn < own.value.amountIn))
  {
  }

  // ---------- what a split adds up to ----------

  /** A pool that refuses adds nothing. */
  function Added(r: Result<PoolQuote>): PoolQuote {
    if r.Success? then r.value else PoolQuote(0, 0, 0, 0)
  }

  function Entry(pool: Pool, percent: nat, r: Result<PoolQuote>, aToB: bool): seq<PoolSplit> {
    if r.Success? then [PoolSplit(pool, percent, r.value.amountIn, r.value.amountOut, r.value.fee, aToB)] else []
  }

  /** Two pools take half each: the sums of their quotes, and the mean of their impacts. */
  lemma HalvesAddUp(q: Quoter, pools: seq<Pool>, amount: nat, aToB: bool, exactIn: bool)
    requires |pools| == 2
    ensures var r := SplitOf(Unbounded, q, OrderFor(Unbounded, pools, amount, aToB, exactIn));
            var ra := q(pools[0], amount * 50 / 100, aToB, exactIn);
            var rb := q(pools[1], amount * 50 / 100, aToB, exactIn);
            var a, b := Added(ra), Added(rb);
            && (r.Success? <==> a.amountOut + b.amountOut > 0)
            && (r.Success? ==>
                  && r.value.amountIn == a.amountIn + b.amountIn && r.value.amountOut == a.amountOut + b.amountOut
                  && r.value.fee == a.fee + b.fee
                  && r.value.impactBps == (a.impactBps * 50 + b.impactBps * 50) / 100
                  && r.value.splits == Entry(pools[0], 50, ra, aToB) + Entry(pools[1], 50, rb, aToB))
  {
    var o := OrderFor(Unbounded, pools, amount, aToB, exactIn);
    assert o.percents == [50, 50] && o.pools == [pools[0], pools[1]];
    AskedFor(q, pools, amount, aToB, exactIn, 0);
    AskedFor(q, pools, amount, aToB, exactIn, 1);
    FirstAsked(q, o);
    SecondAsked(q, o);
  }

  /** Three pools take 34, 33 and 33 percent, whatever follows them in the list. */
  lemma ThirdsAddUp(q: Quoter, pools: seq<Pool>, amount: nat, aToB: bool, exactIn: bool)
    requires |pools| > 2
    ensures var r := SplitOf(Unbounded, q, OrderFor(Unbounded, pools, amount, aToB, exactIn));
            var ra := q(pools[0], amount * 34 / 100, aToB, exactIn);
            var rb := q(pools[1], amount * 33 / 100, aToB, exactIn);
            var rc := q(pools[2], amount * 33 / 100, aToB, exactIn);
            var a, b, c := Added(ra), Added(rb), Added(rc);
            && (r.Success? <==> a.amountOut + b.amountOut + c.amountOut > 0)
            && (r.Success? ==>
                  && r.value.amountIn == a.amountIn + b.amountIn + c.amountIn
                  && r.value.amountOut == a.amountOut + b.amountOut + c.amountOut
                  && r.value.fee == a.fee + b.fee + c.fee
                  && r.value.impactBps == (a.impactBps * 34 + b.impactBps * 33 + c.impactBps * 33) / 100
                  && r.value.splits == Entry(pools[0], 34, ra, aToB) + Entry(pools[1], 33, rb, aToB)
                                       + Entry(pools[2], 33, rc, aToB))
  {
    var o := OrderFor(Unbounded, pools, amount, aToB, exactIn);
    assert o.percents == [34, 33, 33] && o.pools == [pools[0], pools[1], pools[2]];
    AskedFor(q, pools, amount, aToB, exactIn, 0);
    AskedFor(q, pools, amount, aToB, exactIn, 1);
    AskedFor(q, pools, amount, aToB, exactIn, 2);
    FirstAsked(q, o);
    SecondAsked(q, o);
    ThirdAsked(q, o);
  }

  /** A pool of the split is asked for its percentage of the amount, rounded down. */
  lemma AskedFor(q: Quoter, pools: seq<Pool>, amount: nat, aToB: bool, exactIn: bool, i: nat)
    requires 2 <= |pools| && i < |OrderFor(Unbounded, pools, amount, aToB, exactIn).percents|
    ensures var o := OrderFor(Unbounded, pools, amount, aToB, exactIn);
            o.Ask(q, i) == q(pools[i], amount * o.percents[i] / 100, aToB, exactIn)
  {
    assert Part(Unbounded, amount, OrderFor(Unbounded, pools, amount, aToB, exactIn).percents[i])
        == amount * OrderFor(Unbounded, pools, amount, aToB, exactIn).percents[i] / 100;
  }

  /** The tally adds what the pool quotes, and lists the pool if it does. */
  predicate Adds(t: Tally, t': Tally, pool: Pool, percent: nat, r: Result<PoolQuote>, aToB: bool) {
    && t'.totalIn == t.totalIn + Added(r).amountIn && t'.totalOut == t.totalOut + Added(r).amountOut
    && t'.totalFee == t.totalFee + Added(r).fee && t'.weighted == t.weighted + Added(r).impactBps * percent
    && t'.splits == t.splits + Entry(pool, percent, r, aToB)
  }

  lemma FirstAsked(q: Quoter, o: Order)
    requires o.Splittable()
    ensures Adds(Tally(0, 0, 0, 0, []), TallyOf(Unbounded, q, o, 1), o.pools[0], o.percents[0], o.Ask(q, 0), o.aToB)
  {
    assert TallyOf(Unbounded, q, o, 0) == Tally(0, 0, 0, 0, []);
  }

  lemma SecondAsked(q: Quoter, o: Order)
    requires o.Splittable()
    ensures Adds(TallyOf(Unbounded, q, o, 1), TallyOf(Unbounded, q, o, 2), o.pools[1], o.percents[1], o.Ask(q, 1),
                 o.aToB)
  {
  }

  lemma ThirdAsked(q: Quoter, o: Order)
    requires o.Splittable() && |o.pools| == 3
    ensures Adds(TallyOf(Unbounded, q, o, 2), TallyOf(Unbounded, q, o, 3), o.pools[2], o.percents[2], o.Ask(q, 2),
                 o.aToB)
  {
  }
}
