// Evaluating candidate paths hop by hop over the precomputed super edges, and
// choosing the best. As in module SuperEdgeQuotes, one text serves both widths.
module PathEvaluator {
  import opened Domain
  import opened GraphStates
  import opened SuperEdgeQuotes

  const U32: nat := 0x1_0000_0000
  const MAX_IMPACT_BPS: nat := 10000
  const MAX_PATHS_TO_EVALUATE: nat := 10

  datatype HopQuote = HopQuote(pool: Pool, amountIn: nat, amountOut: nat, fee: nat, aToB: bool, impactBps: Bps)
  datatype PathQuote = PathQuote(route: seq<PublicKey>, hops: seq<HopQuote>, amountIn: nat, amountOut: nat,
                                 totalFee: nat, impactBps: Bps)

  /** The evaluation of one path in one direction, as a function of the amount. */
  type PathEval = nat -> Result<PathQuote>

  /** The super edge quoter, from a mint to a mint: amount, exact-in. */
  type EdgeQuoter = (PublicKey, PublicKey, nat, bool) -> Result<EdgeQuote>

  /** Quoting through the compiled lists of a snapshot; a pair without pools has no super edge. */
  function EdgesOf(w: Width, adj: AdjMap, q: Quoter): EdgeQuoter {
    (from, to, amount: nat, exactIn) => QuoteOf(w, q, Listed(adj, from, to), from, amount, exactIn)
  }

  /** The quote of one hop; one that names no pool is refused. */
  function Hop(edge: EdgeQuoter, from: PublicKey, to: PublicKey, amount: nat, exactIn: bool): (r: Result<EdgeQuote>)
    ensures r.Success? ==> r.value.splits != []
  {
    var r := edge(from, to, amount, exactIn);
    if r.Success? && r.value.splits == [] then Failure(NoPoolFound) else r
  }

  /** A hop names the pool of the first split. */
  function HopOf(e: EdgeQuote): HopQuote
    requires e.splits != []
  {
    HopQuote(e.splits[0].pool, e.amountIn, e.amountOut, e.fee, e.splits[0].aToB, e.impactBps)
  }

  /** The accumulators of an evaluation: the hops so far, the amount carried on, fee and impact. */
  datatype Carry = Carry(hops: seq<HopQuote>, amount: nat, fee: nat, impact: nat)

  /** The impact total is a uint32 and wraps around. */
  function AddImpact(total: nat, impact: Bps): nat {
    (total + impact) % U32
  }

  /** One more hop at the far end of a forward evaluation. */
  function StepForward(w: Width, c: Carry, e: EdgeQuote): Carry
    requires e.splits != []
  {
    Carry(c.hops + [HopOf(e)], e.amountOut, Fit(w, c.fee + e.fee), AddImpact(c.impact, e.impactBps))
  }

  /** One more hop at the near end of a backward evaluation. */
  function StepBackward(w: Width, c: Carry, e: EdgeQuote): Carry
    requires e.splits != []
  {
    Carry([HopOf(e)] + c.hops, e.amountIn, Fit(w, c.fee + e.fee), AddImpact(c.impact, e.impactBps))
  }

  /** Carries `amount` over the first `n` hops. */
  function Forward(w: Width, edge: EdgeQuoter, path: seq<PublicKey>, amount: nat, n: nat): Result<Carry>
    requires n < |path|
  {
    if n == 0 then Success(Carry([], amount, 0, 0))
    else match Forward(w, edge, path, amount, n - 1)
      case Failure(e) => Failure(e)
      case Success(c) =>
        match Hop(edge, path[n - 1], path[n], c.amount, true)
        case Failure(e) => Failure(e)
        case Success(e) => Success(StepForward(w, c, e))
  }

  /** Carries `amount` back over the last `n` hops. */
  function Backward(w: Width, edge: EdgeQuoter, path: seq<PublicKey>, amount: nat, n: nat): Result<Carry>
    requires n < |path|
  {
    if n == 0 then Success(Carry([], amount, 0, 0))
    else match Backward(w, edge, path, amount, n - 1)
      case Failure(e) => Failure(e)
      case Success(c) =>
        match Hop(edge, path[|path| - n - 1], path[|path| - n], c.amount, false)
        case Failure(e) => Failure(e)
        case Success(e) => Success(StepBackward(w, c, e))
  }

  function Capped(impact: nat): Bps {
    if impact < MAX_IMPACT_BPS then impact else MAX_IMPACT_BPS
  }

  function Evaluation(w: Width, edge: EdgeQuoter, path: seq<PublicKey>, amount: nat, exactIn: bool): Result<PathQuote> {
    if |path| < 2 then Failure(NoRoute)
    else if exactIn then
      match Forward(w, edge, path, amount, |path| - 1)
      case Failure(e) => Failure(e)
      case Success(c) => Success(PathQuote(path, c.hops, amount, c.amount, c.fee, Capped(c.impact)))
    else
      match Backward(w, edge, path, amount, |path| - 1)
      case Failure(e) => Failure(e)
      case Success(c) => Success(PathQuote(path, c.hops, c.amount, amount, c.fee, Capped(c.impact)))
  }

  // ---------- the loops ----------

  lemma {:induction false} ForwardStops(w: Width, edge: EdgeQuoter, path: seq<PublicKey>, amount: nat, i: nat, n: nat)
    requires i <= n < |path| && Forward(w, edge, path, amount, i).Failure?
    ensures Forward(w, edge, path, amount, n) == Forward(w, edge, path, amount, i)
  {
    if i < n {
      ForwardStops(w, edge, path, amount, i, n - 1);
    }
  }

  lemma {:induction false} BackwardStops(w: Width, edge: EdgeQuoter, path: seq<PublicKey>, amount: nat, i: nat, n: nat)
    requires i <= n < |path| && Backward(w, edge, path, amount, i).Failure?
    ensures Backward(w, edge, path, amount, n) == Backward(w, edge, path, amount, i)
  {
    if i < n {
      BackwardStops(w, edge, path, amount, i, n - 1);
    }
  }

  /** The backward evaluation has come over the last `n` hops with `c`. */
  ghost predicate CameBack(w: Width, edge: EdgeQuoter, path: seq<PublicKey>, amount: nat, n: nat, c: Carry)
    requires n < |path|
  {
    Backward(w, edge, path, amount, n) == Success(c)
  }

  /** The next hop of a backward evaluation leaves from mint `i`; its failure is the outcome. */
  lemma BackwardNext(w: Width, edge: EdgeQuoter, path: seq<PublicKey>, amount: nat, n: nat, i: nat, c: Carry)
    requires i + n + 2 == |path| && CameBack(w, edge, path, amount, n, c)
    ensures var r := Hop(edge, path[i], path[i + 1], c.amount, false);
            && (r.Failure? ==> Backward(w, edge, path, amount, n + 1) == Failure(r.error))
            && (r.Failure? ==> Evaluation(w, edge, path, amount, false) == Failure(r.error))
            && (r.Success? ==> CameBack(w, edge, path, amount, n + 1, StepBackward(w, c, r.value)))
  {
    if Backward(w, edge, path, amount, n + 1).Failure? {
      BackwardStops(w, edge, path, amount, n + 1, |path| - 1);
    }
  }

  lemma EvaluatedBack(w: Width, edge: EdgeQuoter, path: seq<PublicKey>, amount: nat, c: Carry)
    requires 2 <= |path| && CameBack(w, edge, path, amount, |path| - 1, c)
    ensures Evaluation(w, edge, path, amount, false)
         == Success(PathQuote(path, c.hops, c.amount, amount, c.fee, Capped(c.impact)))
  {
  }

  method EvaluatePathExactIn(w: Width, edge: EdgeQuoter, path: seq<PublicKey>, amountIn: nat)
    returns (r: Result<PathQuote>)
    requires 2 <= |path|
    ensures r == Evaluation(w, edge, path, amountIn, true)
  {
    var hops: seq<HopQuote> := [];
    var currentAmount, totalFee: nat, totalImpact: nat := amountIn, 0, 0;
    for i := 0 to |path| - 1
      invariant Forward(w, edge, path, amountIn, i) == Success(Carry(hops, currentAmount, totalFee, totalImpact))
    {
      var quote := edge(path[i], path[i + 1], currentAmount, true);
      if quote.Failure? {
        ForwardStops(w, edge, path, amountIn, i + 1, |path| - 1);
        return Failure(quote.error);
      }
      var e := quote.value;
      if |e.splits| == 0 {
        ForwardStops(w, edge, path, amountIn, i + 1, |path| - 1);
        return Failure(NoPoolFound);
      }
      hops := hops + [HopOf(e)];
      totalFee := Fit(w, totalFee + e.fee);
      totalImpact := AddImpact(totalImpact, e.impactBps);
      currentAmount := e.amountOut;
    }
    return Success(PathQuote(path, hops, amountIn, currentAmount, totalFee, Capped(totalImpact)));
  }

  /** Fills the hops in place, from the last to the first. */
  method EvaluatePathExactOut(w: Width, edge: EdgeQuoter, path: seq<PublicKey>, amountOut: nat)
    returns (r: Result<PathQuote>)
    requires 2 <= |path|
    ensures r == Evaluation(w, edge, path, amountOut, false)
  {
    var n := |path| - 1;
    var hops := new HopQuote[n];
    var currentAmount, totalFee: nat, totalImpact: nat := amountOut, 0, 0;
    assert hops[n..] == [];
    for i := n downto 0
      invariant CameBack(w, edge, path, amountOut, n - i, Carry(hops[i..], currentAmount, totalFee, totalImpact))
    {
      ghost var c := Carry(hops[i + 1..], currentAmount, totalFee, totalImpact);
      BackwardNext(w, edge, path, amountOut, n - i - 1, i, c);
      var quote := edge(path[i], path[i + 1], currentAmount, false);
      if quote.Failure? || |quote.value.splits| == 0 {
        return Failure(if quote.Failure? then quote.error else NoPoolFound);
      }
      var e := quote.value;
      hops[i] := HopOf(e);
      assert hops[i..] == StepBackward(w, c, e).hops;
      totalFee := Fit(w, totalFee + e.fee);
      totalImpact := AddImpact(totalImpact, e.impactBps);
      currentAmount := e.amountIn;
    }
    assert hops[..] == hops[0..];
    EvaluatedBack(w, edge, path, amountOut, Carry(hops[..], currentAmount, totalFee, totalImpact));
    return Success(PathQuote(path, hops[..], currentAmount, amountOut, totalFee, Capped(totalImpact)));
  }

  method EvaluateSinglePath(w: Width, edge: EdgeQuoter, path: seq<PublicKey>, amount: nat, exactIn: bool)
    returns (r: Result<PathQuote>)
    ensures r == Evaluation(w, edge, path, amount, exactIn)
  {
    if |path| < 2 {
      return Failure(NoRoute);
    }
    if exactIn {
      r := EvaluatePathExactIn(w, edge, path, amount);
    } else {
      r := EvaluatePathExactOut(w, edge, path, amount);
    }
  }

  // ---------- the best of several paths ----------

  predicate Beats(a: PathQuote, b: PathQuote, exactIn: bool) {
    if exactIn then a.amountOut > b.amountOut else a.amountIn < b.amountIn
  }

  /** Entry `k` is a success, beats every success before it, and no success after it beats it. */
  ghost predicate Wins(all: seq<Result<PathQuote>>, k: nat, exactIn: bool) {
    && k < |all| && all[k].Success?
    && forall j :: 0 <= j < |all| && all[j].Success? ==>
         (j < k ==> Beats(all[k].value, all[j].value, exactIn)) && !Beats(all[j].value, all[k].value, exactIn)
  }

  ghost predicate WinsAs(all: seq<Result<PathQuote>>, k: nat, r: Result<PathQuote>, exactIn: bool) {
    Wins(all, k, exactIn) && all[k] == r
  }

  /** The winner, or no route when every entry failed. */
  ghost predicate IsBest(r: Result<PathQuote>, all: seq<Result<PathQuote>>, exactIn: bool) {
    if r.Failure? then r.error == NoRoute && forall j :: 0 <= j < |all| ==> all[j].Failure?
    else exists k: nat :: WinsAs(all, k, r, exactIn)
  }

  /** The winner is unique, so the sequential and the parallel evaluation choose the same route. */
  lemma BestIsUnique(r: Result<PathQuote>, r': Result<PathQuote>, all: seq<Result<PathQuote>>, exactIn: bool)
    requires IsBest(r, all, exactIn) && IsBest(r', all, exactIn)
    ensures r == r'
  {
    if r.Success? && r'.Success? {
      var k: nat :| WinsAs(all, k, r, exactIn);
      var k': nat :| WinsAs(all, k', r', exactIn);
      assert k == k';
    }
  }

  /**
   * In amounts only: the best pays no less, or takes no more, than any path
   * that can be quoted, and the paths before it are strictly worse.
   */
  lemma BestIsCheapest(r: Result<PathQuote>, all: seq<Result<PathQuote>>, exactIn: bool)
    requires IsBest(r, all, exactIn)
    ensures r.Success? <==> exists j :: 0 <= j < |all| && all[j].Success?
    ensures r.Success? ==>
              exists k :: 0 <= k < |all| && all[k] == r && forall j :: 0 <= j < |all| && all[j].Success? ==>
                && (exactIn ==> all[j].value.amountOut <= r.value.amountOut)
                && (exactIn && j < k ==> all[j].value.amountOut < r.value.amountOut)
                && (!exactIn ==> r.value.amountIn <= all[j].value.amountIn)
                && (!exactIn && j < k ==> r.value.amountIn < all[j].value.amountIn)
  {
    if r.Success? {
      var k: nat :| WinsAs(all, k, r, exactIn);
      assert all[k] == r;
    }
  }

  /** Replacing the best by a later entry only when it is strictly better. */
  lemma BestExtends(r: Result<PathQuote>, all: seq<Result<PathQuote>>, next: Result<PathQuote>, exactIn: bool)
    requires IsBest(r, all, exactIn)
    ensures IsBest(if next.Success? && (r.Failure? || Beats(next.value, r.value, exactIn)) then next else r,
                   all + [next], exactIn)
  {
    if next.Success? && (r.Failure? || Beats(next.value, r.value, exactIn)) {
      assert WinsAs(all + [next], |all|, next, exactIn);
    } else if r.Success? {
      var k: nat :| WinsAs(all, k, r, exactIn);
      assert WinsAs(all + [next], k, r, exactIn);
    }
  }

  function Evaluations(w: Width, edge: EdgeQuoter, paths: seq<seq<PublicKey>>, amount: nat, exactIn: bool)
    : (r: seq<Result<PathQuote>>)
    ensures |r| == if |paths| > MAX_PATHS_TO_EVALUATE then MAX_PATHS_TO_EVALUATE else |paths|
    ensures forall i :: 0 <= i < |r| ==> r[i] == Evaluation(w, edge, paths[i], amount, exactIn)
  {
    var n := if |paths| > MAX_PATHS_TO_EVALUATE then MAX_PATHS_TO_EVALUATE else |paths|;
    seq(n, i requires 0 <= i < n => Evaluation(w, edge, paths[i], amount, exactIn))
  }

  method EvaluatePaths(w: Width, edge: EdgeQuoter, paths: seq<seq<PublicKey>>, amount: nat, exactIn: bool)
    returns (r: Result<PathQuote>)
    ensures IsBest(r, Evaluations(w, edge, paths, amount, exactIn), exactIn)
  {
    var n := if |paths| > MAX_PATHS_TO_EVALUATE then MAX_PATHS_TO_EVALUATE else |paths|;
    ghost var all := Evaluations(w, edge, paths, amount, exactIn);
    r := Failure(NoRoute);
    for i := 0 to n
      invariant IsBest(r, all[..i], exactIn)
    {
      var route := EvaluateSinglePath(w, edge, paths[i], amount, exactIn);
      BestExtends(r, all[..i], route, exactIn);
      assert all[..i + 1] == all[..i] + [route];
      if route.Success? && (r.Failure? || Beats(route.value, r.value, exactIn)) {
        r := route;
      }
    }
    assert all[..n] == all;
  }

  // ---------- larger inputs never hurt ----------

  predicate NoWorsePath(a: Result<PathQuote>, b: Result<PathQuote>) {
    a.Success? ==> b.Success? && a.value.amountOut <= b.value.amountOut
  }

  /** Below `limit` a larger exact-in amount keeps an edge quotable and never pays less. */
  ghost predicate EdgeMonotone(edge: EdgeQuoter, limit: nat) {
    forall from, to, x: nat, y: nat :: x <= y < limit ==>
      NoWorseEdge(Hop(edge, from, to, x, true), Hop(edge, from, to, y, true))
  }

  lemma EdgesMonotone(adj: AdjMap, q: Quoter, limit: nat)
    requires Monotone(q, limit)
    ensures EdgeMonotone(EdgesOf(Unbounded, adj, q), limit)
  {
    var edge := EdgesOf(Unbounded, adj, q);
    forall from, to, x: nat, y: nat | x <= y < limit
      ensures NoWorseEdge(Hop(edge, from, to, x, true), Hop(edge, from, to, y, true))
    {
      var pools := Listed(adj, from, to);
      if pools != [] {
        QuoteMonotone(q, limit, pools, from, x, y);
        QuoteOutcome(Unbounded, q, pools, from, y, true);
      }
    }
  }

  predicate CarryBelow(r: Result<Carry>, limit: nat) {
    r.Success? ==> r.value.amount < limit
  }

  /** Every amount that an exact-in evaluation carries into a hop is below `limit`. */
  ghost predicate CarriesBelow(edge: EdgeQuoter, path: seq<PublicKey>, amount: nat, limit: nat) {
    forall i: nat :: i + 1 < |path| ==> CarryBelow(Forward(Unbounded, edge, path, amount, i), limit)
  }

  predicate NoLess(a: Result<Carry>, b: Result<Carry>) {
    a.Success? ==> b.Success? && a.value.amount <= b.value.amount
  }

  lemma NextMonotone(edge: EdgeQuoter, limit: nat, path: seq<PublicKey>, x: nat, y: nat, n: nat)
    requires EdgeMonotone(edge, limit) && n + 1 < |path|
    requires CarryBelow(Forward(Unbounded, edge, path, y, n), limit)
    requires NoLess(Forward(Unbounded, edge, path, x, n), Forward(Unbounded, edge, path, y, n))
    ensures NoLess(Forward(Unbounded, edge, path, x, n + 1), Forward(Unbounded, edge, path, y, n + 1))
  {
    var a, b := Forward(Unbounded, edge, path, x, n), Forward(Unbounded, edge, path, y, n);
    if a.Success? {
      assert NoWorseEdge(Hop(edge, path[n], path[n + 1], a.value.amount, true),
                         Hop(edge, path[n], path[n + 1], b.value.amount, true));
    }
  }

  lemma {:induction false} ForwardMonotone(edge: EdgeQuoter, limit: nat, path: seq<PublicKey>, x: nat, y: nat, n: nat)
    requires EdgeMonotone(edge, limit) && x <= y && n < |path| && CarriesBelow(edge, path, y, limit)
    ensures NoLess(Forward(Unbounded, edge, path, x, n), Forward(Unbounded, edge, path, y, n))
  {
    if n > 0 {
      ForwardMonotone(edge, limit, path, x, y, n - 1);
      assert CarryBelow(Forward(Unbounded, edge, path, y, n - 1), limit);
      NextMonotone(edge, limit, path, x, y, n - 1);
    }
  }

  /**
   * A larger input keeps a path of any length quotable and never lowers its
   * output, as long as it carries no amount beyond the range of the quoters.
   */
  lemma PathMonotone(adj: AdjMap, q: Quoter, limit: nat, path: seq<PublicKey>, x: nat, y: nat)
    requires Monotone(q, limit) && x <= y && CarriesBelow(EdgesOf(Unbounded, adj, q), path, y, limit)
    ensures NoWorsePath(Evaluation(Unbounded, EdgesOf(Unbounded, adj, q), path, x, true),
                        Evaluation(Unbounded, EdgesOf(Unbounded, adj, q), path, y, true))
  {
    if |path| >= 2 {
      EdgesMonotone(adj, q, limit);
      ForwardMonotone(EdgesOf(Unbounded, adj, q), limit, path, x, y, |path| - 1);
    }
  }

  /** The best route over any candidates pays no less for a larger input. */
  lemma BestMonotone(adj: AdjMap, q: Quoter, limit: nat, paths: seq<seq<PublicKey>>, x: nat, y: nat,
                     r: Result<PathQuote>, r': Result<PathQuote>)
    requires Monotone(q, limit) && x <= y
    requires forall i :: 0 <= i < |paths| && i < MAX_PATHS_TO_EVALUATE ==>
               CarriesBelow(EdgesOf(Unbounded, adj, q), paths[i], y, limit)
    requires IsBest(r, Evaluations(Unbounded, EdgesOf(Unbounded, adj, q), paths, x, true), true)
    requires IsBest(r', Evaluations(Unbounded, EdgesOf(Unbounded, adj, q), paths, y, true), true)
    ensures NoWorsePath(r, r')
  {
    if r.Success? {
      var edge := EdgesOf(Unbounded, adj, q);
      var all, all' := Evaluations(Unbounded, edge, paths, x, true), Evaluations(Unbounded, edge, paths, y, true);
      var k: nat :| WinsAs(all, k, r, true);
      PathMonotone(adj, q, limit, paths[k], x, y);
      assert NoWorsePath(all[k], all'[k]);
    }
  }

  // ---------- the uint64 form refines the unbounded one ----------

  /** The evaluation before the `i`-th hop in the order of evaluation, and the mints of that hop. */
  function Before(w: Width, edge: EdgeQuoter, path: seq<PublicKey>, amount: nat, exactIn: bool, i: nat): Result<Carry>
    requires i < |path|
  {
    if exactIn then Forward(w, edge, path, amount, i) else Backward(w, edge, path, amount, i)
  }

  function HopFrom(path: seq<PublicKey>, exactIn: bool, i: nat): PublicKey
    requires i + 1 < |path|
  {
    if exactIn then path[i] else path[|path| - i - 2]
  }

  function HopTo(path: seq<PublicKey>, exactIn: bool, i: nat): PublicKey
    requires i + 1 < |path|
  {
    if exactIn then path[i + 1] else path[|path| - i - 1]
  }

  /** The two quoters agree on the hop, and the fee total after it is a word. */
  ghost predicate SameHop(edge: EdgeQuoter, fast: EdgeQuoter, path: seq<PublicKey>, amount: nat, exactIn: bool, i: nat)
    requires i + 1 < |path|
  {
    var from, to := HopFrom(path, exactIn, i), HopTo(path, exactIn, i);
    var before := Before(Unbounded, edge, path, amount, exactIn, i);
    var after := Before(Unbounded, edge, path, amount, exactIn, i + 1);
    && (before.Success? ==>
          fast(from, to, before.value.amount, exactIn) == edge(from, to, before.value.amount, exactIn))
    && (after.Success? ==> after.value.fee < U64)
  }

  lemma {:induction false} ForwardRefines(edge: EdgeQuoter, fast: EdgeQuoter, path: seq<PublicKey>, amount: nat, n: nat)
    requires n < |path| && forall i: nat :: i < n ==> SameHop(edge, fast, path, amount, true, i)
    ensures Forward(Word64, fast, path, amount, n) == Forward(Unbounded, edge, path, amount, n)
  {
    if n > 0 {
      ForwardRefines(edge, fast, path, amount, n - 1);
      assert SameHop(edge, fast, path, amount, true, n - 1);
    }
  }

  lemma {:induction false} BackwardRefines(edge: EdgeQuoter, fast: EdgeQuoter, path: seq<PublicKey>, amount: nat,
                                           n: nat)
    requires n < |path| && forall i: nat :: i < n ==> SameHop(edge, fast, path, amount, false, i)
    ensures Backward(Word64, fast, path, amount, n) == Backward(Unbounded, edge, path, amount, n)
  {
    if n > 0 {
      BackwardRefines(edge, fast, path, amount, n - 1);
      assert SameHop(edge, fast, path, amount, false, n - 1);
    }
  }

  /** The hop's amount, products and sums fit 64 bits, and so does the fee total after it. */
  ghost predicate HopFits(adj: AdjMap, q: Quoter, path: seq<PublicKey>, amount: nat, exactIn: bool, i: nat)
    requires i + 1 < |path|
  {
    var edge, from, to := EdgesOf(Unbounded, adj, q), HopFrom(path, exactIn, i), HopTo(path, exactIn, i);
    var before := Before(Unbounded, edge, path, amount, exactIn, i);
    var after := Before(Unbounded, edge, path, amount, exactIn, i + 1);
    && (before.Success? ==> EdgeFits(q, Listed(adj, from, to), from, before.value.amount, exactIn))
    && (after.Success? ==> after.value.fee < U64)
  }

  /** Every hop of the unbounded evaluation fits. */
  ghost predicate PathFits(adj: AdjMap, q: Quoter, path: seq<PublicKey>, amount: nat, exactIn: bool) {
    forall i: nat :: i + 1 < |path| ==> HopFits(adj, q, path, amount, exactIn, i)
  }

  lemma HopRefines(adj: AdjMap, q: Quoter, fast: Quoter, path: seq<PublicKey>, amount: nat, exactIn: bool, i: nat)
    requires Agree(q, fast) && i + 1 < |path| && HopFits(adj, q, path, amount, exactIn, i)
    ensures SameHop(EdgesOf(Unbounded, adj, q), EdgesOf(Word64, adj, fast), path, amount, exactIn, i)
  {
    var from, to := HopFrom(path, exactIn, i), HopTo(path, exactIn, i);
    var before := Before(Unbounded, EdgesOf(Unbounded, adj, q), path, amount, exactIn, i);
    if before.Success? {
      QuoteRefines(q, fast, Listed(adj, from, to), from, before.value.amount, exactIn);
    }
  }

  lemma AllHopsSame(adj: AdjMap, q: Quoter, fast: Quoter, path: seq<PublicKey>, amount: nat, exactIn: bool)
    requires Agree(q, fast) && PathFits(adj, q, path, amount, exactIn)
    ensures forall i: nat :: i < |path| - 1 ==>
              SameHop(EdgesOf(Unbounded, adj, q), EdgesOf(Word64, adj, fast), path, amount, exactIn, i)
  {
    forall i: nat | i < |path| - 1
      ensures SameHop(EdgesOf(Unbounded, adj, q), EdgesOf(Word64, adj, fast), path, amount, exactIn, i)
    {
      assert HopFits(adj, q, path, amount, exactIn, i);
      HopRefines(adj, q, fast, path, amount, exactIn, i);
    }
  }

  /** Same success, failure, hops, amounts, fees and impact, in both directions. */
  lemma PathRefines(adj: AdjMap, q: Quoter, fast: Quoter, path: seq<PublicKey>, amount: nat, exactIn: bool)
    requires Agree(q, fast) && PathFits(adj, q, path, amount, exactIn)
    ensures Evaluation(Word64, EdgesOf(Word64, adj, fast), path, amount, exactIn)
         == Evaluation(Unbounded, EdgesOf(Unbounded, adj, q), path, amount, exactIn)
  {
    if |path| >= 2 {
      var edge, edge' := EdgesOf(Unbounded, adj, q), EdgesOf(Word64, adj, fast);
      AllHopsSame(adj, q, fast, path, amount, exactIn);
      if exactIn {
        ForwardRefines(edge, edge', path, amount, |path| - 1);
      } else {
        BackwardRefines(edge, edge', path, amount, |path| - 1);
      }
    }
  }

  lemma FitsCarriesBelow(adj: AdjMap, q: Quoter, path: seq<PublicKey>, amount: nat)
    requires PathFits(adj, q, path, amount, true)
    ensures CarriesBelow(EdgesOf(Unbounded, adj, q), path, amount, U64)
  {
    var edge := EdgesOf(Unbounded, adj, q);
    forall i: nat | i + 1 < |path| ensures CarryBelow(Forward(Unbounded, edge, path, amount, i), U64) {
      assert HopFits(adj, q, path, amount, true, i);
    }
  }

  /** So the uint64 evaluator is monotone too, wherever nothing overflows. */
  lemma FastPathMonotone(adj: AdjMap, q: Quoter, fast: Quoter, path: seq<PublicKey>, x: nat, y: nat)
    requires Monotone(q, U64) && Agree(q, fast) && x <= y
    requires PathFits(adj, q, path, x, true) && PathFits(adj, q, path, y, true)
    ensures NoWorsePath(Evaluation(Word64, EdgesOf(Word64, adj, fast), path, x, true),
                        Evaluation(Word64, EdgesOf(Word64, adj, fast), path, y, true))
  {
    PathRefines(adj, q, fast, path, x, true);
    PathRefines(adj, q, fast, path, y, true);
    FitsCarriesBelow(adj, q, path, y);
    PathMonotone(adj, q, U64, path, x, y);
  }

  /** Both widths choose the same route among the candidates. */
  lemma BestRefines(adj: AdjMap, q: Quoter, fast: Quoter, paths: seq<seq<PublicKey>>, amount: nat, exactIn: bool,
                    r: Result<PathQuote>, r': Result<PathQuote>)
    requires Agree(q, fast)
    requires forall i :: 0 <= i < |paths| && i < MAX_PATHS_TO_EVALUATE ==> PathFits(adj, q, paths[i], amount, exactIn)
    requires IsBest(r, Evaluations(Unbounded, EdgesOf(Unbounded, adj, q), paths, amount, exactIn), exactIn)
    requires IsBest(r', Evaluations(Word64, EdgesOf(Word64, adj, fast), paths, amount, exactIn), exactIn)
    ensures r == r'
  {
    var all := Evaluations(Unbounded, EdgesOf(Unbounded, adj, q), paths, amount, exactIn);
    var all' := Evaluations(Word64, EdgesOf(Word64, adj, fast), paths, amount, exactIn);
    forall i | 0 <= i < |all| ensures all'[i] == all[i] {
      PathRefines(adj, q, fast, paths[i], amount, exactIn);
    }
    assert all' == all;
    BestIsUnique(r, r', all, exactIn);
  }
}
