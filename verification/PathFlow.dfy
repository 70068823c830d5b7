// What flows between the hops of an evaluated path: in exact-in mode each hop
// spends what the hop before it paid out, in exact-out mode it pays out what
// the hop after it takes. Both fall short together, under one condition.
module PathFlows {
  import opened Domain
  import opened GraphStates
  import opened SuperEdgeQuotes
  import opened PathEvaluator

  function SumFees(hops: seq<HopQuote>): nat {
    if hops == [] then 0 else SumFees(hops[..|hops| - 1]) + hops[|hops| - 1].fee
  }

  /** The amount that hop `i` was asked for: in exact-out mode, what the next hop takes. */
  function Asked(hops: seq<HopQuote>, amount: nat, exactIn: bool, i: nat): nat
    requires i < |hops|
  {
    if exactIn then (if i == 0 then amount else hops[i - 1].amountOut)
    else if i + 1 == |hops| then amount else hops[i + 1].amountIn
  }

  /** The amount that the next hop will be asked for. */
  function Carried(hops: seq<HopQuote>, amount: nat, exactIn: bool): nat {
    if hops == [] then amount else if exactIn then hops[|hops| - 1].amountOut else hops[0].amountIn
  }

  function FixedOf(h: HopQuote, exactIn: bool): nat {
    Fixed(h.amountIn, h.amountOut, exactIn)
  }

  /** No hop spends more than arrives, or pays out more than is taken. */
  ghost predicate Within(hops: seq<HopQuote>, amount: nat, exactIn: bool) {
    forall i :: 0 <= i < |hops| ==> FixedOf(hops[i], exactIn) <= Asked(hops, amount, exactIn, i)
  }

  /** Every hop spends just what arrives, or pays out just what is taken. */
  ghost predicate Exact(hops: seq<HopQuote>, amount: nat, exactIn: bool) {
    forall i :: 0 <= i < |hops| ==> FixedOf(hops[i], exactIn) == Asked(hops, amount, exactIn, i)
  }

  function Extended(hops: seq<HopQuote>, h: HopQuote, exactIn: bool): seq<HopQuote> {
    if exactIn then hops + [h] else [h] + hops
  }

  /** The old hops keep what they were asked for, and the new one is asked for what is carried. */
  lemma AskedOn(hops: seq<HopQuote>, amount: nat, exactIn: bool, h: HopQuote, i: nat)
    requires i <= |hops|
    ensures var at := if exactIn then i else |hops| - i;
            && Extended(hops, h, exactIn)[at]
            == (if i == |hops| then h else hops[if exactIn then i else |hops| - i - 1])
            && Asked(Extended(hops, h, exactIn), amount, exactIn, at)
            == (if i == |hops| then Carried(hops, amount, exactIn)
                else Asked(hops, amount, exactIn, if exactIn then i else |hops| - i - 1))
  {
  }

  lemma WithinOn(hops: seq<HopQuote>, amount: nat, exactIn: bool, h: HopQuote)
    requires Within(hops, amount, exactIn) && FixedOf(h, exactIn) <= Carried(hops, amount, exactIn)
    ensures Within(Extended(hops, h, exactIn), amount, exactIn)
  {
    var after := Extended(hops, h, exactIn);
    forall i | 0 <= i < |after| ensures FixedOf(after[i], exactIn) <= Asked(after, amount, exactIn, i) {
      AskedOn(hops, amount, exactIn, h, if exactIn then i else |hops| - i);
    }
  }

  lemma ExactOn(hops: seq<HopQuote>, amount: nat, exactIn: bool, h: HopQuote)
    ensures Exact(Extended(hops, h, exactIn), amount, exactIn)
       <==> Exact(hops, amount, exactIn) && FixedOf(h, exactIn) == Carried(hops, amount, exactIn)
  {
    var after := Extended(hops, h, exactIn);
    if Exact(after, amount, exactIn) {
      AskedOn(hops, amount, exactIn, h, |hops|);
      forall i | 0 <= i < |hops| ensures FixedOf(hops[i], exactIn) == Asked(hops, amount, exactIn, i) {
        AskedOn(hops, amount, exactIn, h, if exactIn then i else |hops| - i - 1);
      }
    } else {
      var i :| 0 <= i < |after| && FixedOf(after[i], exactIn) != Asked(after, amount, exactIn, i);
      AskedOn(hops, amount, exactIn, h, if exactIn then i else |hops| - i);
    }
  }

  lemma {:induction false} SumFeesOn(hops: seq<HopQuote>, h: HopQuote, exactIn: bool)
    ensures SumFees(Extended(hops, h, exactIn)) == SumFees(hops) + h.fee
  {
    if exactIn {
      assert (hops + [h])[..|hops|] == hops;
    } else if hops == [] {
      assert ([h] + hops)[..0] == [];
    } else {
      SumFeesOn(hops[..|hops| - 1], h, false);
      assert ([h] + hops)[..|hops|] == [h] + hops[..|hops| - 1];
    }
  }

  /** The invariant of both loops; `met` says whether every hop so far met its amount. */
  ghost predicate Flows(c: Carry, amount: nat, exactIn: bool, met: bool) {
    && c.fee == SumFees(c.hops)
    && c.amount == Carried(c.hops, amount, exactIn)
    && Within(c.hops, amount, exactIn)
    && Exact(c.hops, amount, exactIn) == met
  }

  function Step(c: Carry, e: EdgeQuote, exactIn: bool): Carry
    requires e.splits != []
  {
    if exactIn then StepForward(Unbounded, c, e) else StepBackward(Unbounded, c, e)
  }

  lemma FlowsOn(c: Carry, amount: nat, exactIn: bool, met: bool, e: EdgeQuote)
    requires Flows(c, amount, exactIn, met) && e.splits != [] && Fixed(e.amountIn, e.amountOut, exactIn) <= c.amount
    ensures Flows(Step(c, e, exactIn), amount, exactIn, met && Fixed(e.amountIn, e.amountOut, exactIn) == c.amount)
  {
    assert Step(c, e, exactIn).hops == Extended(c.hops, HopOf(e), exactIn);
    SumFeesOn(c.hops, HopOf(e), exactIn);
    WithinOn(c.hops, amount, exactIn, HopOf(e));
    ExactOn(c.hops, amount, exactIn, HopOf(e));
  }

  /** Whether a super edge meets the amount it is asked for: from a mint to a mint, amount, exact-in. */
  type EdgeTest = (PublicKey, PublicKey, nat, bool) -> bool

  /** An edge never exceeds its amount, and meets it exactly when `meets` says so. */
  ghost predicate Honest(edge: EdgeQuoter, meets: EdgeTest) {
    forall from, to, x: nat, e :: HonestOn(edge(from, to, x, e), x, e, meets(from, to, x, e))
  }

  predicate HonestOn(r: Result<EdgeQuote>, amount: nat, exactIn: bool, met: bool) {
    r.Success? ==>
      && Fixed(r.value.amountIn, r.value.amountOut, exactIn) <= amount
      && (Fixed(r.value.amountIn, r.value.amountOut, exactIn) == amount) == met
  }

  /** Hop `i`, in the order of evaluation, meets the amount that is carried into it. */
  ghost predicate HopMeets(edge: EdgeQuoter, meets: EdgeTest, path: seq<PublicKey>, amount: nat, exactIn: bool, i: nat)
    requires i + 1 < |path|
  {
    var before := Before(Unbounded, edge, path, amount, exactIn, i);
    before.Success? ==> meets(HopFrom(path, exactIn, i), HopTo(path, exactIn, i), before.value.amount, exactIn)
  }

  ghost predicate FirstMeet(edge: EdgeQuoter, meets: EdgeTest, path: seq<PublicKey>, amount: nat, exactIn: bool, n: nat)
    requires n < |path|
  {
    forall i: nat :: i < n ==> HopMeets(edge, meets, path, amount, exactIn, i)
  }

  /** One more hop in the order of evaluation. */
  lemma BeforeNext(edge: EdgeQuoter, path: seq<PublicKey>, amount: nat, exactIn: bool, n: nat)
    requires n + 1 < |path| && Before(Unbounded, edge, path, amount, exactIn, n + 1).Success?
    ensures var before := Before(Unbounded, edge, path, amount, exactIn, n);
            && before.Success?
            && var r := Hop(edge, HopFrom(path, exactIn, n), HopTo(path, exactIn, n), before.value.amount, exactIn);
               && r.Success?
               && Before(Unbounded, edge, path, amount, exactIn, n + 1).value == Step(before.value, r.value, exactIn)
  {
  }

  lemma FlowsNext(edge: EdgeQuoter, meets: EdgeTest, path: seq<PublicKey>, amount: nat, exactIn: bool, n: nat, c: Carry)
    requires Honest(edge, meets) && n + 1 < |path|
    requires Flows(c, amount, exactIn, FirstMeet(edge, meets, path, amount, exactIn, n))
    requires Before(Unbounded, edge, path, amount, exactIn, n) == Success(c)
    requires Before(Unbounded, edge, path, amount, exactIn, n + 1).Success?
    ensures var next := Before(Unbounded, edge, path, amount, exactIn, n + 1).value;
            && |next.hops| == |c.hops| + 1
            && Flows(next, amount, exactIn, FirstMeet(edge, meets, path, amount, exactIn, n + 1))
  {
    OneMoreMeets(edge, meets, path, amount, exactIn, n);
    var from, to := HopFrom(path, exactIn, n), HopTo(path, exactIn, n);
    BeforeNext(edge, path, amount, exactIn, n);
    var r := edge(from, to, c.amount, exactIn);
    assert HonestOn(r, c.amount, exactIn, meets(from, to, c.amount, exactIn));
    FlowsOn(c, amount, exactIn, FirstMeet(edge, meets, path, amount, exactIn, n), r.value);
  }

  lemma OneMoreMeets(edge: EdgeQuoter, meets: EdgeTest, path: seq<PublicKey>, amount: nat, exactIn: bool, n: nat)
    requires n + 1 < |path|
    ensures FirstMeet(edge, meets, path, amount, exactIn, n + 1)
         == (FirstMeet(edge, meets, path, amount, exactIn, n) && HopMeets(edge, meets, path, amount, exactIn, n))
  {
  }

  lemma FlowsFirst(edge: EdgeQuoter, meets: EdgeTest, path: seq<PublicKey>, amount: nat, exactIn: bool)
    requires path != []
    ensures Before(Unbounded, edge, path, amount, exactIn, 0) == Success(Carry([], amount, 0, 0))
    ensures Flows(Carry([], amount, 0, 0), amount, exactIn, FirstMeet(edge, meets, path, amount, exactIn, 0))
  {
  }

  lemma {:induction false} BeforeFlows(edge: EdgeQuoter, meets: EdgeTest, path: seq<PublicKey>, amount: nat,
                                       exactIn: bool, n: nat, c: Carry)
    requires Honest(edge, meets) && n < |path| && Before(Unbounded, edge, path, amount, exactIn, n) == Success(c)
    ensures |c.hops| == n && Flows(c, amount, exactIn, FirstMeet(edge, meets, path, amount, exactIn, n))
  {
    if n == 0 {
      FlowsFirst(edge, meets, path, amount, exactIn);
    } else {
      BeforeNext(edge, path, amount, exactIn, n - 1);
      var last := Before(Unbounded, edge, path, amount, exactIn, n - 1).value;
      BeforeFlows(edge, meets, path, amount, exactIn, n - 1, last);
      FlowsNext(edge, meets, path, amount, exactIn, n - 1, last);
    }
  }

  /** The test a caller can make on the pools of an edge: no split, or a split that quotes whole shares. */
  function EdgeMeets(adj: AdjMap, q: Quoter): EdgeTest {
    (from, to, amount: nat, exactIn) => Meets(q, Listed(adj, from, to), from, amount, exactIn)
  }

  lemma EdgesAreHonest(adj: AdjMap, q: Quoter)
    requires Echoes(q)
    ensures Honest(EdgesOf(Unbounded, adj, q), EdgeMeets(adj, q))
  {
    var edge, meets := EdgesOf(Unbounded, adj, q), EdgeMeets(adj, q);
    forall from, to, x: nat, e ensures HonestOn(edge(from, to, x, e), x, e, meets(from, to, x, e)) {
      if edge(from, to, x, e).Success? {
        QuoteDelivers(q, Listed(adj, from, to), from, x, e);
      }
    }
  }

  /** Every hop of the path, in the order of evaluation, meets the amount carried into it. */
  ghost predicate EveryHopMeets(adj: AdjMap, q: Quoter, path: seq<PublicKey>, amount: nat, exactIn: bool)
    requires path != []
  {
    FirstMeet(EdgesOf(Unbounded, adj, q), EdgeMeets(adj, q), path, amount, exactIn, |path| - 1)
  }

  /**
   * An exact-in evaluation conserves: no hop spends more than the hop before
   * it pays out, and every hop spends all of it exactly when each hop meets
   * the amount carried into it.
   */
  lemma ExactInConserves(adj: AdjMap, q: Quoter, path: seq<PublicKey>, amount: nat)
    requires Echoes(q) && Evaluation(Unbounded, EdgesOf(Unbounded, adj, q), path, amount, true).Success?
    ensures var r := Evaluation(Unbounded, EdgesOf(Unbounded, adj, q), path, amount, true).value;
            && |r.hops| == |path| - 1 && r.amountIn == amount && r.totalFee == SumFees(r.hops)
            && r.amountOut == r.hops[|r.hops| - 1].amountOut
            && Within(r.hops, amount, true)
            && (Exact(r.hops, amount, true) <==> EveryHopMeets(adj, q, path, amount, true))
  {
    var edge := EdgesOf(Unbounded, adj, q);
    EdgesAreHonest(adj, q);
    var c := Forward(Unbounded, edge, path, amount, |path| - 1).value;
    BeforeFlows(edge, EdgeMeets(adj, q), path, amount, true, |path| - 1, c);
  }

  /**
   * An exact-out evaluation never delivers too much: no hop pays out more than
   * the next one takes. Every hop pays out just that, and the last one the
   * amount claimed, exactly when each hop meets the amount carried back to it.
   */
  lemma ExactOutDelivers(adj: AdjMap, q: Quoter, path: seq<PublicKey>, amount: nat)
    requires Echoes(q) && Evaluation(Unbounded, EdgesOf(Unbounded, adj, q), path, amount, false).Success?
    ensures var r := Evaluation(Unbounded, EdgesOf(Unbounded, adj, q), path, amount, false).value;
            && |r.hops| == |path| - 1 && r.amountOut == amount && r.totalFee == SumFees(r.hops)
            && r.amountIn == r.hops[0].amountIn
            && Within(r.hops, amount, false)
            && (Exact(r.hops, amount, false) <==> EveryHopMeets(adj, q, path, amount, false))
  {
    var edge := EdgesOf(Unbounded, adj, q);
    EdgesAreHonest(adj, q);
    var c := Backward(Unbounded, edge, path, amount, |path| - 1).value;
    BeforeFlows(edge, EdgeMeets(adj, q), path, amount, false, |path| - 1, c);
  }

  // ---------- an exact-out evaluation may deliver too little ----------

  /** A deep pool that charges two for one, beside a pool that refuses. */
  function HalfMarket(deep: Pool): Quoter {
    (pool, amount: nat, aToB, exactIn) =>
      if pool == deep then Success(PoolQuote(2 * amount, amount, 0, 0)) else Failure(QuoterError(0))
  }

  /**
   * The split without the refusing pool looks cheaper than the whole trade, so
   * it is chosen: the route claims a million out while its hop delivers half.
   */
  lemma ExactOutFallsShort(a: PublicKey, b: PublicKey, deep: Pool, shallow: Pool)
    requires a != b && deep != shallow
    ensures var adj := map[a := map[b := [deep, shallow]]];
            var r := Evaluation(Unbounded, EdgesOf(Unbounded, adj, HalfMarket(deep)), [a, b], 1_000_000, false);
            r.Success? && |r.value.hops| == 1 && r.value.amountOut == 1_000_000 && r.value.hops[0].amountOut == 500_000
  {
    var q, d := HalfMarket(deep), deep.mintA == a;
    var edge := EdgesOf(Unbounded, map[a := map[b := [deep, shallow]]], q);
    var o := OrderFor(Unbounded, [deep, shallow], 1_000_000, d, false);
    assert Part(Unbounded, 1_000_000, 50) == 500_000 && o.percents == [50, 50];
    assert o.parts[0] == 500_000 && o.parts[1] == 500_000 && o.pools == [deep, shallow];
    assert TallyOf(Unbounded, q, o, 0) == Tally(0, 0, 0, 0, []);
    var split := PoolSplit(deep, 50, 1_000_000, 500_000, 0, d);
    assert TallyOf(Unbounded, q, o, 1) == Tally(1_000_000, 500_000, 0, 0, [split]);
    assert TallyOf(Unbounded, q, o, 2) == TallyOf(Unbounded, q, o, 1);
    var e := EdgeQuote(1_000_000, 500_000, 0, 0, false, [split]);
    assert edge(a, b, 1_000_000, false) == Success(e);
    assert Backward(Unbounded, edge, [a, b], 1_000_000, 0) == Success(Carry([], 1_000_000, 0, 0));
    BackwardNext(Unbounded, edge, [a, b], 1_000_000, 0, 0, Carry([], 1_000_000, 0, 0));
  }
}
