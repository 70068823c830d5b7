// What a hop claims against what it names: a hop carries the amounts of its
// whole quote but names only the pool of the first split. And what the impact
// of a path is.
module HopQuotes {
  import opened Domain
  import opened GraphStates
  import opened SuperEdgeQuotes
  import opened PathEvaluator
  import opened PathFlows

  /** The amounts of the hop are what the pool it names quotes for `amount`. */
  predicate OwnQuote(q: Quoter, h: HopQuote, amount: nat, exactIn: bool) {
    var own := q(h.pool, amount, h.aToB, exactIn);
    own.Success? && own.value.amountIn == h.amountIn && own.value.amountOut == h.amountOut
  }

  /** The deepest pool comes first in the split if it quotes its part. */
  lemma {:induction false} FirstNamed(q: Quoter, o: Order, i: nat)
    requires o.Splittable() && 0 < i <= |o.pools| && o.Ask(q, 0).Success?
    ensures var splits := TallyOf(Unbounded, q, o, i).splits;
            splits != [] && splits[0].pool == o.pools[0]
  {
    if i == 1 {
      assert TallyOf(Unbounded, q, o, 0).splits == [];
    } else {
      FirstNamed(q, o, i - 1);
    }
  }

  /** A chosen split never looks like the quote of the pool that comes first in it. */
  lemma SplitIsNotOwn(q: Quoter, pools: seq<Pool>, from: PublicKey, amount: nat, exactIn: bool, r: EdgeQuote)
    requires Echoes(q) && SplitChosen(q, pools, from, amount, exactIn)
    requires QuoteOf(Unbounded, q, pools, from, amount, exactIn) == Success(r)
    ensures r.splits != [] && !OwnQuote(q, HopOf(r), amount, exactIn)
  {
    var d := pools[0].mintA == from;
    var o := OrderFor(Unbounded, pools, amount, d, exactIn);
    var h := HopOf(r);
    TallyDirections(Unbounded, q, o, |o.pools|);
    assert r.splits[0] in r.splits && h.aToB == d;
    if o.Ask(q, 0).Success? {
      FirstNamed(q, o, |o.pools|);
      assert h.pool == pools[0];
    } else {
      SplitMeetsIff(q, pools, amount, d, exactIn);
      assert !AllPartsQuote(q, o, |o.pools|);
      assert Echo(q(h.pool, amount, d, exactIn), amount, exactIn);
    }
  }

  /** The hop claims the named pool's own quote exactly when no split is chosen. */
  lemma HopIsOwnIff(adj: AdjMap, q: Quoter, from: PublicKey, to: PublicKey, amount: nat, exactIn: bool)
    requires Echoes(q) && Hop(EdgesOf(Unbounded, adj, q), from, to, amount, exactIn).Success?
    ensures OwnQuote(q, HopOf(Hop(EdgesOf(Unbounded, adj, q), from, to, amount, exactIn).value), amount, exactIn)
       <==> !SplitChosen(q, Listed(adj, from, to), from, amount, exactIn)
  {
    var r := Hop(EdgesOf(Unbounded, adj, q), from, to, amount, exactIn).value;
    if SplitChosen(q, Listed(adj, from, to), from, amount, exactIn) {
      SplitIsNotOwn(q, Listed(adj, from, to), from, amount, exactIn, r);
    }
  }

  // ---------- along a path ----------

  /** The `i`-th hop in the order of evaluation. */
  function InOrder(hops: seq<HopQuote>, exactIn: bool, i: nat): HopQuote
    requires i < |hops|
  {
    if exactIn then hops[i] else hops[|hops| - 1 - i]
  }

  lemma ExtendedInOrder(hops: seq<HopQuote>, h: HopQuote, exactIn: bool, i: nat)
    requires i <= |hops|
    ensures InOrder(Extended(hops, h, exactIn), exactIn, i) == if i == |hops| then h else InOrder(hops, exactIn, i)
  {
  }

  /** The hop recorded `i`-th is the quote for what was carried into it. */
  ghost predicate HopRecorded(edge: EdgeQuoter, path: seq<PublicKey>, amount: nat, exactIn: bool, i: nat, h: HopQuote)
    requires i + 1 < |path|
  {
    var before := Before(Unbounded, edge, path, amount, exactIn, i);
    && before.Success?
    && var r := Hop(edge, HopFrom(path, exactIn, i), HopTo(path, exactIn, i), before.value.amount, exactIn);
       r.Success? && h == HopOf(r.value)
  }

  lemma {:induction false} HopsRecorded(edge: EdgeQuoter, path: seq<PublicKey>, amount: nat, exactIn: bool, n: nat,
                                        c: Carry, i: nat)
    requires i < n < |path| && Before(Unbounded, edge, path, amount, exactIn, n) == Success(c)
    ensures |c.hops| == n && HopRecorded(edge, path, amount, exactIn, i, InOrder(c.hops, exactIn, i))
  {
    BeforeNext(edge, path, amount, exactIn, n - 1);
    var last := Before(Unbounded, edge, path, amount, exactIn, n - 1).value;
    var from, to := HopFrom(path, exactIn, n - 1), HopTo(path, exactIn, n - 1);
    var r := Hop(edge, from, to, last.amount, exactIn).value;
    if n > 1 {
      HopsRecorded(edge, path, amount, exactIn, n - 1, last, if i < n - 1 then i else 0);
    }
    assert c.hops == Extended(last.hops, HopOf(r), exactIn);
    ExtendedInOrder(last.hops, HopOf(r), exactIn, i);
  }

  /**
   * Every hop of an evaluated path claims the own quote of the pool it names,
   * for the amount carried into it, exactly when no split is chosen there.
   */
  lemma PathNamesItsPools(adj: AdjMap, q: Quoter, path: seq<PublicKey>, amount: nat, exactIn: bool, i: nat)
    requires Echoes(q) && i + 1 < |path|
    requires Evaluation(Unbounded, EdgesOf(Unbounded, adj, q), path, amount, exactIn).Success?
    ensures var r := Evaluation(Unbounded, EdgesOf(Unbounded, adj, q), path, amount, exactIn).value;
            var before := Before(Unbounded, EdgesOf(Unbounded, adj, q), path, amount, exactIn, i);
            var from, to := HopFrom(path, exactIn, i), HopTo(path, exactIn, i);
            && |r.hops| == |path| - 1 && before.Success?
            && (OwnQuote(q, InOrder(r.hops, exactIn, i), before.value.amount, exactIn)
                <==> !SplitChosen(q, Listed(adj, from, to), from, before.value.amount, exactIn))
  {
    var edge := EdgesOf(Unbounded, adj, q);
    var c := Before(Unbounded, edge, path, amount, exactIn, |path| - 1).value;
    HopsRecorded(edge, path, amount, exactIn, |path| - 1, c, i);
    var carried := Before(Unbounded, edge, path, amount, exactIn, i).value.amount;
    HopIsOwnIff(adj, q, HopFrom(path, exactIn, i), HopTo(path, exactIn, i), carried, exactIn);
  }

  lemma HopInPools(adj: AdjMap, q: Quoter, from: PublicKey, to: PublicKey, amount: nat, exactIn: bool)
    requires Hop(EdgesOf(Unbounded, adj, q), from, to, amount, exactIn).Success?
    ensures var h := HopOf(Hop(EdgesOf(Unbounded, adj, q), from, to, amount, exactIn).value);
            h.pool in Listed(adj, from, to) && h.aToB == (Listed(adj, from, to)[0].mintA == from)
  {
    var e := Hop(EdgesOf(Unbounded, adj, q), from, to, amount, exactIn).value;
    SplitsOf(Unbounded, q, Listed(adj, from, to), from, amount, exactIn);
    assert e.splits[0] in e.splits;
  }

  /** Hop `j` trades in a pool listed from the mint before it to the mint after it. */
  lemma HopsAreListed(adj: AdjMap, q: Quoter, path: seq<PublicKey>, amount: nat, exactIn: bool, j: nat)
    requires Evaluation(Unbounded, EdgesOf(Unbounded, adj, q), path, amount, exactIn).Success? && j + 1 < |path|
    ensures var r := Evaluation(Unbounded, EdgesOf(Unbounded, adj, q), path, amount, exactIn).value;
            && r.route == path && |r.hops| == |path| - 1
            && var pools := Listed(adj, path[j], path[j + 1]);
               && r.hops[j].pool in pools && r.hops[j].aToB == (pools[0].mintA == path[j])
  {
    var edge := EdgesOf(Unbounded, adj, q);
    var c := Before(Unbounded, edge, path, amount, exactIn, |path| - 1).value;
    var i: nat := if exactIn then j else |path| - 2 - j;
    HopsRecorded(edge, path, amount, exactIn, |path| - 1, c, i);
    assert InOrder(c.hops, exactIn, i) == c.hops[j];
    assert HopFrom(path, exactIn, i) == path[j] && HopTo(path, exactIn, i) == path[j + 1];
    HopInPools(adj, q, path[j], path[j + 1], Before(Unbounded, edge, path, amount, exactIn, i).value.amount, exactIn);
  }

  // ---------- the impact of a path ----------

  function SumImpacts(hops: seq<HopQuote>): nat {
    if hops == [] then 0 else SumImpacts(hops[..|hops| - 1]) + hops[|hops| - 1].impactBps
  }

  lemma {:induction false} SumImpactsOn(hops: seq<HopQuote>, h: HopQuote, exactIn: bool)
    ensures SumImpacts(Extended(hops, h, exactIn)) == SumImpacts(hops) + h.impactBps
  {
    if exactIn {
      assert (hops + [h])[..|hops|] == hops;
    } else if hops == [] {
      assert ([h] + hops)[..0] == [];
    } else {
      SumImpactsOn(hops[..|hops| - 1], h, false);
      assert ([h] + hops)[..|hops|] == [h] + hops[..|hops| - 1];
    }
  }

  lemma WrappedSum(x: nat, y: nat)
    ensures (x % U32 + y) % U32 == (x + y) % U32
  {
  }

  predicate Sums(c: Carry) {
    c.impact == SumImpacts(c.hops) % U32
  }

  lemma SumsOn(c: Carry, e: EdgeQuote, exactIn: bool)
    requires Sums(c) && e.splits != []
    ensures Sums(Step(c, e, exactIn))
  {
    SumImpactsOn(c.hops, HopOf(e), exactIn);
    WrappedSum(SumImpacts(c.hops), e.impactBps);
    assert Step(c, e, exactIn).hops == Extended(c.hops, HopOf(e), exactIn);
  }

  lemma NothingSummed(edge: EdgeQuoter, path: seq<PublicKey>, amount: nat, exactIn: bool)
    requires path != []
    ensures Before(Unbounded, edge, path, amount, exactIn, 0) == Success(Carry([], amount, 0, 0))
    ensures Sums(Carry([], amount, 0, 0))
  {
  }

  lemma {:induction false} CarriedImpact(edge: EdgeQuoter, path: seq<PublicKey>, amount: nat, exactIn: bool, n: nat,
                                         c: Carry)
    requires n < |path| && Before(Unbounded, edge, path, amount, exactIn, n) == Success(c)
    ensures Sums(c)
  {
    if n == 0 {
      NothingSummed(edge, path, amount, exactIn);
    } else {
      BeforeNext(edge, path, amount, exactIn, n - 1);
      var last := Before(Unbounded, edge, path, amount, exactIn, n - 1).value;
      var r := Hop(edge, HopFrom(path, exactIn, n - 1), HopTo(path, exactIn, n - 1), last.amount, exactIn).value;
      CarriedImpact(edge, path, amount, exactIn, n - 1, last);
      SumsOn(last, r, exactIn);
    }
  }

  lemma ImpactsAreSmall(hops: seq<HopQuote>)
    ensures SumImpacts(hops) <= 0xFFFF * |hops|
  {
  }

  /** On up to 65,537 hops the impact of a path is the sum over its hops, capped at 100%. */
  lemma PathImpactIsSum(edge: EdgeQuoter, path: seq<PublicKey>, amount: nat, exactIn: bool)
    requires Evaluation(Unbounded, edge, path, amount, exactIn).Success? && |path| <= 0x10002
    ensures var r := Evaluation(Unbounded, edge, path, amount, exactIn).value;
            r.impactBps == if SumImpacts(r.hops) < 10_000 then SumImpacts(r.hops) else 10_000
  {
    var c := Before(Unbounded, edge, path, amount, exactIn, |path| - 1).value;
    CarriedImpact(edge, path, amount, exactIn, |path| - 1, c);
    HopsRecorded(edge, path, amount, exactIn, |path| - 1, c, 0);
    ImpactsAreSmall(c.hops);
  }

  // ---------- a hop that claims more than its pool ----------

  /** Every pool pays one for one, up to 600,000. */
  function CappedMarket(): Quoter {
    (pool, amount: nat, aToB, exactIn) =>
      Success(PoolQuote(amount, if exactIn && amount > 600_000 then 600_000 else amount, 0, 0))
  }

  /** Two pools share a million and pay all of it; the hop names the deep one, which alone pays 600,000. */
  lemma HopClaimsMore(a: PublicKey, b: PublicKey, deep: Pool, shallow: Pool)
    ensures Echoes(CappedMarket())
    ensures var edge := EdgesOf(Unbounded, map[a := map[b := [deep, shallow]]], CappedMarket());
            var r := Hop(edge, a, b, 1_000_000, true);
            && r.Success? && HopOf(r.value).pool == deep && HopOf(r.value).amountOut == 1_000_000
            && CappedMarket()(deep, 1_000_000, HopOf(r.value).aToB, true).value.amountOut == 600_000
  {
    var q, d := CappedMarket(), deep.mintA == a;
    var o := OrderFor(Unbounded, [deep, shallow], 1_000_000, d, true);
    assert Part(Unbounded, 1_000_000, 50) == 500_000 && o.percents == [50, 50];
    assert o.parts[0] == 500_000 && o.parts[1] == 500_000 && o.pools == [deep, shallow];
    var first, second := PoolSplit(deep, 50, 500_000, 500_000, 0, d), PoolSplit(shallow, 50, 500_000, 500_000, 0, d);
    assert TallyOf(Unbounded, q, o, 0) == Tally(0, 0, 0, 0, []);
    assert TallyOf(Unbounded, q, o, 1) == Tally(500_000, 500_000, 0, 0, [first]);
    assert TallyOf(Unbounded, q, o, 2) == Tally(1_000_000, 1_000_000, 0, 0, [first, second]);
    var e := EdgeQuote(1_000_000, 1_000_000, 0, 0, true, [first, second]);
    assert SplitOf(Unbounded, q, o) == Success(e);
    var adj := map[a := map[b := [deep, shallow]]];
    assert Listed(adj, a, b) == [deep, shallow];
    assert Hop(EdgesOf(Unbounded, adj, q), a, b, 1_000_000, true) == Success(e);
  }
}
