// Splitting an amount over several paths by the alternating direction method of
// multipliers, over exact reals: each path proposes a ratio near its target, the
// proposals are projected onto the simplex, and the duals record the difference.
module AdmmSolver {
  import opened Domain
  import opened FixedPoint
  import opened SuperEdgeQuotes
  import opened PathEvaluator
  import opened Simplex
  import opened MinAlloc

  // The router's iteration cap and tolerance; the solver takes them as parameters.
  const MAX_ITER: nat := 15
  const TOLERANCE := 0.005

  const RHO := 1.0
  const MIN_ALLOC := 0.05
  const PRUNE := 0.08
  const NEAR_ZERO := 0.01
  const NEIGHBOUR := 0.05
  const PENALTY := -1_000_000_000.0

  datatype Problem = Problem(paths: seq<PathEval>, amount: nat, exactIn: bool)

  // ---------- one path proposes a ratio ----------

  /** The quote of a share of the amount; none below one unit or when the path fails. */
  function ShareQuote(path: PathEval, amount: nat, ratio: real): Option<PathQuote> {
    var amt := MulRatio(amount, ratio);
    if amt == 0 then None
    else match path(amt)
      case Failure(_) => None
      case Success(q) => Some(q)
  }

  function Penalty(diff: real): real {
    RHO / 2.0 * diff * diff
  }

  function Score(path: PathEval, amount: nat, exactIn: bool, ratio: real, target: real): real {
    if ratio < NEAR_ZERO then PENALTY
    else match ShareQuote(path, amount, ratio)
      case None => PENALTY
      case Some(q) =>
        (if exactIn then q.amountOut as real else -(q.amountIn as real))
        - Penalty(ratio - target)
  }

  function Clamped(r: real): real {
    if r < 0.0 then 0.0 else if r > 1.0 then 1.0 else r
  }

  /** The target's lower neighbour, the target, and its upper neighbour, within [0, 1]. */
  function Candidates(target: real): seq<real> {
    [Clamped(Clamped(target) - NEIGHBOUR), Clamped(target), Clamped(Clamped(target) + NEIGHBOUR)]
  }

  /** The first of the best-scoring candidates. */
  function Proposal(path: PathEval, amount: nat, exactIn: bool, target: real): real {
    var c := Candidates(target);
    var score := (r: real) => Score(path, amount, exactIn, r, Clamped(target));
    if score(c[0]) >= score(c[1]) && score(c[0]) >= score(c[2]) then c[0]
    else if score(c[1]) >= score(c[2]) then c[1]
    else c[2]
  }

  method ScoreRatio(path: PathEval, amount: nat, ratio: real, target: real, exactIn: bool) returns (r: real)
    requires amount < U64
    ensures r == Score(path, amount, exactIn, ratio, target)
  {
    if ratio < NEAR_ZERO {
      return PENALTY;
    }
    var amt := MulRatioU64(amount, ratio);
    if amt == 0 {
      return PENALTY;
    }
    var quote := path(amt);
    if quote.Failure? {
      return PENALTY;
    }
    var output := if exactIn then quote.value.amountOut as real else -(quote.value.amountIn as real);
    var diff := ratio - target;
    return output - RHO / 2.0 * diff * diff;
  }

  /** Scores the three candidates in turn; a later one must be strictly better. */
  method OptimizeSingleAllocation(path: PathEval, amount: nat, target: real, exactIn: bool) returns (bestRatio: real)
    requires amount < U64
    ensures bestRatio == Proposal(path, amount, exactIn, target)
  {
    var t := target;
    if t < 0.0 {
      t := 0.0;
    }
    if t > 1.0 {
      t := 1.0;
    }
    var cand1 := t - NEIGHBOUR;
    if cand1 < 0.0 {
      cand1 := 0.0;
    }
    bestRatio := cand1;
    var bestScore := ScoreRatio(path, amount, cand1, t, exactIn);
    var score2 := ScoreRatio(path, amount, t, t, exactIn);
    if score2 > bestScore {
      bestRatio, bestScore := t, score2;
    }
    var cand3 := t + NEIGHBOUR;
    if cand3 > 1.0 {
      cand3 := 1.0;
    }
    var score3 := ScoreRatio(path, amount, cand3, t, exactIn);
    if score3 > bestScore {
      bestRatio := cand3;
    }
  }

  /** A proposal lies in [0, 1] near its clamped target and scores no worse than the target itself. */
  lemma ProposalIsNearAndNoWorse(path: PathEval, amount: nat, exactIn: bool, target: real)
    ensures var r, t := Proposal(path, amount, exactIn, target), Clamped(target);
            && 0.0 <= r <= 1.0 && t - NEIGHBOUR <= r <= t + NEIGHBOUR
            && forall c :: c in Candidates(target) ==>
                 Score(path, amount, exactIn, r, t) >= Score(path, amount, exactIn, c, t)
  {
  }

  // ---------- one iteration ----------

  /** Proposals, consensus and scaled duals. */
  datatype State = State(x: seq<real>, z: seq<real>, u: seq<real>)

  function Added(a: seq<real>, b: seq<real>): (c: seq<real>)
    requires |a| == |b|
    ensures |c| == |a| && forall i :: 0 <= i < |c| ==> c[i] == a[i] + b[i]
  {
    seq(|a|, i requires 0 <= i < |a| => a[i] + b[i])
  }

  ghost predicate Sized(p: Problem, s: State) {
    |s.x| == |s.z| == |s.u| == |p.paths|
  }

  /** `z` is the projection `w` of `v` raised to the minimum allocation. */
  ghost predicate IsConsensus(w: seq<real>, v: seq<real>, z: seq<real>) {
    IsProjection(w, v) && z == Enforced(w, MIN_ALLOC)
  }

  /** Every path proposes a ratio near its target. */
  ghost predicate Proposes(p: Problem, s: State, x: seq<real>)
    requires Sized(p, s) && |x| == |p.paths|
  {
    forall i :: 0 <= i < |x| ==> x[i] == Proposal(p.paths[i], p.amount, p.exactIn, s.z[i] - s.u[i])
  }

  /** The duals record the difference of proposals and consensus. */
  ghost predicate DualsFollow(u: seq<real>, t: State)
    requires |u| == |t.x| == |t.z| == |t.u|
  {
    forall i :: 0 <= i < |u| ==> t.u[i] == u[i] + t.x[i] - t.z[i]
  }

  /** The three updates of an iteration, in order. */
  ghost predicate Iterates(p: Problem, s: State, t: State)
    requires Sized(p, s) && Sized(p, t)
  {
    && Proposes(p, s, t.x)
    && (exists w :: IsConsensus(w, Added(t.x, s.u), t.z))
    && DualsFollow(s.u, t)
  }

  function Objective(p: Problem, z: seq<real>, n: nat): real
    requires |z| == |p.paths| && n <= |z|
  {
    if n == 0 then 0.0
    else
      var before := Objective(p, z, n - 1);
      if z[n - 1] < NEAR_ZERO then before
      else match ShareQuote(p.paths[n - 1], p.amount, z[n - 1])
        case None => before
        case Some(q) => if p.exactIn then before + q.amountOut as real else before - q.amountIn as real
  }

  function Abs(r: real): real {
    if r < 0.0 then -r else r
  }

  /** The objective has stalled between two positive values. */
  predicate Stalled(older: real, newer: real, tol: real) {
    newer > 0.0 && older > 0.0 && Abs(newer - older) / Abs(older) < tol / 10.0
  }

  /** Whether the solver stops after the iteration numbered `k`, which led from `s` to `t`. */
  predicate Stops(p: Problem, s: State, t: State, k: nat, tol: real)
    requires |s.z| == |t.x| == |t.z| == |p.paths|
  {
    || Dist2(t.x, t.z) < tol * tol
    || (k > 2 && Stalled(Objective(p, s.z, |s.z|), Objective(p, t.z, |t.z|), tol))
  }

  function Start(n: nat): State {
    var equal := if n == 0 then 0.0 else 1.0 / n as real;
    State(seq(n, _ => equal), seq(n, _ => equal), seq(n, _ => 0.0))
  }

  /** One iteration leads from `s` to `t`. */
  ghost predicate Leads(p: Problem, s: State, t: State) {
    Sized(p, s) && Sized(p, t) && Iterates(p, s, t)
  }

  /** The last iteration of a run met a stopping condition. */
  ghost predicate HasStopped(p: Problem, trace: seq<State>, tol: real) {
    && 2 <= |trace| && Sized(p, trace[|trace| - 2]) && Sized(p, trace[|trace| - 1])
    && Stops(p, trace[|trace| - 2], trace[|trace| - 1], |trace| - 2, tol)
  }

  /** A run of the solver: it starts from equal shares, iterates, and goes on only while it may not stop. */
  ghost predicate IsRun(p: Problem, trace: seq<State>, tol: real) {
    if |trace| < 2 then trace == [Start(|p.paths|)]
    else
      var before := trace[..|trace| - 1];
      IsRun(p, before, tol) && !HasStopped(p, before, tol) && Leads(p, trace[|trace| - 2], trace[|trace| - 1])
  }

  lemma RunExtends(p: Problem, trace: seq<State>, t: State, tol: real)
    requires IsRun(p, trace, tol) && Leads(p, trace[|trace| - 1], t) && !HasStopped(p, trace, tol)
    ensures IsRun(p, trace + [t], tol)
    ensures HasStopped(p, trace + [t], tol) <==> Stops(p, trace[|trace| - 1], t, |trace| - 1, tol)
  {
    var longer := trace + [t];
    assert longer[..|longer| - 1] == trace;
    assert longer[|longer| - 2] == trace[|trace| - 1] && longer[|longer| - 1] == t;
    assert IsRun(p, longer[..|longer| - 1], tol) && !HasStopped(p, longer[..|longer| - 1], tol);
  }

  // ---------- every iteration stays in the simplex ----------

  lemma EnforcedInSimplex(w: seq<real>)
    requires InSimplex(w) && |w| <= 20
    ensures InSimplex(Enforced(w, MIN_ALLOC))
  {
    EnforcedConserves(w, MIN_ALLOC);
    if ActiveCount(w) > 0 {
      TwentyPathsAreFeasible(w);
      FeasibleRespectsFloor(w, MIN_ALLOC);
    }
  }

  /** The consensus sums to one for any number of paths, and is non-negative for up to twenty. */
  ghost predicate Balanced(s: State) {
    && Sum(s.z) == 1.0
    && (|s.z| <= 20 ==> InSimplex(s.z))
    && forall i :: 0 <= i < |s.x| ==> 0.0 <= s.x[i] <= 1.0
  }

  lemma IterationBalances(p: Problem, s: State, t: State)
    requires Leads(p, s, t)
    ensures Balanced(t)
  {
    var w :| IsConsensus(w, Added(t.x, s.u), t.z);
    var u, rho :| Thresholds(w, Added(t.x, s.u), u, rho);
    ProjectionInSimplex(w, Added(t.x, s.u), u, rho);
    EnforcedConserves(w, MIN_ALLOC);
    if |w| <= 20 {
      EnforcedInSimplex(w);
    }
    forall i | 0 <= i < |t.x| ensures 0.0 <= t.x[i] <= 1.0 {
      ProposalIsNearAndNoWorse(p.paths[i], p.amount, p.exactIn, s.z[i] - s.u[i]);
    }
  }

  lemma {:induction false} SumOfEqual(n: nat, r: real)
    ensures Sum(seq(n, _ => r)) == n as real * r
  {
    if n > 0 {
      SumOfEqual(n - 1, r);
      assert seq(n, _ => r)[..n - 1] == seq(n - 1, _ => r);
      assert (n - 1) as real * r + r == n as real * r;
    }
  }

  /** Whatever the quoters answer, every run is at a balanced state. */
  lemma RunIsBalanced(p: Problem, trace: seq<State>, tol: real)
    requires IsRun(p, trace, tol) && p.paths != []
    ensures Balanced(trace[|trace| - 1])
  {
    if |trace| == 1 {
      var n := |p.paths|;
      SumOfEqual(n, 1.0 / n as real);
      assert (1.0 / n as real) * n as real == 1.0;
      assert 0.0 <= 1.0 / n as real <= 1.0;
    } else {
      IterationBalances(p, trace[|trace| - 2], trace[|trace| - 1]);
    }
  }

  // ---------- what an iteration computes ----------

  /** `w` is the point of the simplex nearest to `v`. */
  ghost predicate IsNearest(w: seq<real>, v: seq<real>) {
    |w| == |v| && InSimplex(w) && forall y :: |y| == |v| && InSimplex(y) ==> Dist2(v, w) <= Dist2(v, y)
  }

  /** The consensus is the nearest point of the simplex to proposals plus duals, raised to five percent. */
  lemma StepIsNearest(p: Problem, s: State, t: State, v: seq<real>)
    requires Leads(p, s, t) && |v| == |t.x| && forall i :: 0 <= i < |v| ==> v[i] == t.x[i] + s.u[i]
    ensures exists w :: IsNearest(w, v) && t.z == Enforced(w, 0.05)
  {
    assert Added(t.x, s.u) == v;
    var w :| IsConsensus(w, v, t.z);
    var u, rho :| Thresholds(w, v, u, rho);
    ProjectionInSimplex(w, v, u, rho);
    forall y | |y| == |v| && InSimplex(y) ensures Dist2(v, w) <= Dist2(v, y) {
      ProjectionIsNearest(w, v, y);
    }
    assert IsNearest(w, v);
  }

  lemma {:induction false} RunLeads(p: Problem, trace: seq<State>, tol: real, k: nat)
    requires IsRun(p, trace, tol) && k + 1 < |trace|
    ensures Leads(p, trace[k], trace[k + 1])
  {
    if k + 2 < |trace| {
      RunLeads(p, trace[..|trace| - 1], tol, k);
    }
  }

  lemma {:induction false} RunStarts(p: Problem, trace: seq<State>, tol: real)
    requires IsRun(p, trace, tol)
    ensures trace != [] && trace[0] == Start(|p.paths|)
  {
    if |trace| >= 2 {
      RunStarts(p, trace[..|trace| - 1], tol);
    }
  }

  ghost predicate AllSized(p: Problem, trace: seq<State>) {
    forall k :: 0 <= k < |trace| ==> Sized(p, trace[k])
  }

  /** How far the proposals of path `i` were off the consensus in the first `n` iterations, in sum. */
  function Disagreement(p: Problem, trace: seq<State>, i: nat, n: nat): real
    requires AllSized(p, trace) && i < |p.paths| && n < |trace|
  {
    if n == 0 then 0.0 else Disagreement(p, trace, i, n - 1) + (trace[n].x[i] - trace[n].z[i])
  }

  lemma RunIsSized(p: Problem, trace: seq<State>, tol: real)
    requires IsRun(p, trace, tol)
    ensures AllSized(p, trace)
  {
    RunStarts(p, trace, tol);
    forall k | 0 <= k < |trace| ensures Sized(p, trace[k]) {
      if k > 0 {
        RunLeads(p, trace, tol, k - 1);
      }
    }
  }

  /** The dual of path `i` records its disagreement in iteration `n + 1`. */
  ghost predicate RecordsAt(p: Problem, trace: seq<State>, i: nat, n: nat)
    requires AllSized(p, trace) && i < |p.paths| && n + 1 < |trace|
  {
    trace[n + 1].u[i] == trace[n].u[i] + (trace[n + 1].x[i] - trace[n + 1].z[i])
  }

  /** It starts at zero and records every disagreement. */
  ghost predicate Records(p: Problem, trace: seq<State>, i: nat)
    requires AllSized(p, trace) && i < |p.paths|
  {
    && trace != [] && trace[0].u[i] == 0.0
    && forall n: nat :: n + 1 < |trace| ==> RecordsAt(p, trace, i, n)
  }

  lemma DualStep(p: Problem, trace: seq<State>, tol: real, i: nat, n: nat)
    requires IsRun(p, trace, tol) && AllSized(p, trace) && i < |p.paths| && n + 1 < |trace|
    ensures RecordsAt(p, trace, i, n)
  {
    RunLeads(p, trace, tol, n);
  }

  lemma DualStart(p: Problem, trace: seq<State>, tol: real, i: nat)
    requires IsRun(p, trace, tol) && AllSized(p, trace) && i < |p.paths|
    ensures trace != [] && trace[0].u[i] == 0.0
  {
    RunStarts(p, trace, tol);
  }

  lemma {:induction false} RecordsSum(p: Problem, trace: seq<State>, i: nat, n: nat)
    requires AllSized(p, trace) && i < |p.paths| && n < |trace| && Records(p, trace, i)
    ensures trace[n].u[i] == Disagreement(p, trace, i, n)
  {
    if n > 0 {
      RecordsSum(p, trace, i, n - 1);
      assert RecordsAt(p, trace, i, n - 1);
    }
  }

  /** Over every run the dual of a path is the sum of its disagreements with the consensus. */
  lemma DualsAccumulate(p: Problem, trace: seq<State>, tol: real, i: nat, n: nat)
    requires IsRun(p, trace, tol) && i < |p.paths| && n < |trace|
    ensures AllSized(p, trace) && trace[n].u[i] == Disagreement(p, trace, i, n)
  {
    RunIsSized(p, trace, tol);
    DualStart(p, trace, tol, i);
    forall k: nat | k + 1 < |trace| ensures RecordsAt(p, trace, i, k) {
      DualStep(p, trace, tol, i, k);
    }
    RecordsSum(p, trace, i, n);
  }

  // ---------- the allocations ----------

  datatype Allocation = Allocation(ratio: real, quote: PathQuote)

  /** The allocations of the first `n` paths; shares below the prune threshold are dropped. */
  function Allocations(p: Problem, z: seq<real>, n: nat): seq<Allocation>
    requires |z| == |p.paths| && n <= |z|
  {
    if n == 0 then []
    else
      var before := Allocations(p, z, n - 1);
      if z[n - 1] < PRUNE then before
      else match ShareQuote(p.paths[n - 1], p.amount, z[n - 1])
        case None => before
        case Some(q) => before + [Allocation(z[n - 1], q)]
  }

  /** Path `i` is given a share worth keeping, and quotes it. */
  predicate Kept(p: Problem, z: seq<real>, i: nat)
    requires |z| == |p.paths| && i < |z|
  {
    z[i] >= 0.08 && MulRatio(p.amount, z[i]) > 0 && p.paths[i](MulRatio(p.amount, z[i])).Success?
  }

  /** The allocation of path `i`: its share, and its quote of that share. */
  predicate IsShare(a: Allocation, p: Problem, z: seq<real>, i: nat)
    requires |z| == |p.paths| && i < |z|
  {
    Kept(p, z, i) && a.ratio == z[i] && Success(a.quote) == p.paths[i](MulRatio(p.amount, z[i]))
  }

  /** The allocations are those of the paths `at`, in order, and `at` leaves out no kept path below `n`. */
  ghost predicate AllocatedAt(allocs: seq<Allocation>, at: seq<nat>, p: Problem, z: seq<real>, n: nat)
    requires |z| == |p.paths| && n <= |z|
  {
    && |at| == |allocs|
    && (forall k :: 0 <= k < |at| ==> at[k] < n && IsShare(allocs[k], p, z, at[k]))
    && (forall j, k :: 0 <= j < k < |at| ==> at[j] < at[k])
    && (forall i: nat :: i < n && Kept(p, z, i) ==> i in at)
  }

  function KeptPaths(p: Problem, z: seq<real>, n: nat): seq<nat>
    requires |z| == |p.paths| && n <= |z|
  {
    if n == 0 then [] else KeptPaths(p, z, n - 1) + if Kept(p, z, n - 1) then [n - 1] else []
  }

  /** One more path: `allocs'` and `at'` go on from `allocs` and `at`. */
  predicate GoesOn(allocs: seq<Allocation>, at: seq<nat>, allocs': seq<Allocation>, at': seq<nat>, p: Problem,
                   z: seq<real>, n: nat)
    requires |z| == |p.paths| && n < |z|
  {
    if Kept(p, z, n)
    then allocs' == allocs + [Allocation(z[n], p.paths[n](MulRatio(p.amount, z[n])).value)] && at' == at + [n]
    else allocs' == allocs && at' == at
  }

  lemma AllocatedNext(allocs: seq<Allocation>, at: seq<nat>, allocs': seq<Allocation>, at': seq<nat>, p: Problem,
                      z: seq<real>, n: nat, n': nat)
    requires |z| == |p.paths| && n + 1 == n' <= |z|
    requires AllocatedAt(allocs, at, p, z, n) && GoesOn(allocs, at, allocs', at', p, z, n)
    ensures AllocatedAt(allocs', at', p, z, n')
  {
    if Kept(p, z, n) {
      assert at'[|at|] == n;
      assert forall i :: i in at ==> i in at';
    }
  }

  lemma NextKept(p: Problem, z: seq<real>, n: nat)
    requires |z| == |p.paths| && n < |z|
    ensures GoesOn(Allocations(p, z, n), KeptPaths(p, z, n), Allocations(p, z, n + 1), KeptPaths(p, z, n + 1), p, z, n)
  {
  }

  lemma NoneKept(p: Problem, z: seq<real>)
    requires |z| == |p.paths|
    ensures AllocatedAt(Allocations(p, z, 0), KeptPaths(p, z, 0), p, z, 0)
  {
  }

  /** Exactly the kept paths are allocated, once each and in order. */
  lemma {:induction false} AllocatesKept(p: Problem, z: seq<real>, n: nat)
    requires |z| == |p.paths| && n <= |z|
    ensures AllocatedAt(Allocations(p, z, n), KeptPaths(p, z, n), p, z, n)
  {
    if n > 0 {
      AllocatesKept(p, z, n - 1);
      NextKept(p, z, n - 1);
      AllocatedNext(Allocations(p, z, n - 1), KeptPaths(p, z, n - 1), Allocations(p, z, n), KeptPaths(p, z, n), p, z,
                    n - 1, n);
    } else {
      NoneKept(p, z);
    }
  }

  function TotalIn(allocs: seq<Allocation>): nat {
    if allocs == [] then 0 else TotalIn(allocs[..|allocs| - 1]) + allocs[|allocs| - 1].quote.amountIn
  }

  function TotalOut(allocs: seq<Allocation>): nat {
    if allocs == [] then 0 else TotalOut(allocs[..|allocs| - 1]) + allocs[|allocs| - 1].quote.amountOut
  }

  /**
   * When no share lies between one and eight percent, the objective is what the
   * allocations pay out, or, exact-out, what they take, negated.
   */
  lemma {:induction false} ObjectiveIsTotal(p: Problem, z: seq<real>, n: nat)
    requires |z| == |p.paths| && n <= |z|
    requires forall i :: 0 <= i < n ==> z[i] < 0.01 || z[i] >= 0.08
    ensures Objective(p, z, n) == if p.exactIn then TotalOut(Allocations(p, z, n)) as real
                                  else -(TotalIn(Allocations(p, z, n)) as real)
  {
    if n > 0 {
      ObjectiveIsTotal(p, z, n - 1);
      var before, q := Allocations(p, z, n - 1), ShareQuote(p.paths[n - 1], p.amount, z[n - 1]);
      if z[n - 1] >= PRUNE && q.Some? {
        assert (before + [Allocation(z[n - 1], q.value)])[..|before|] == before;
      }
    }
  }

  /** Every path reports the input it was given, as exact-in evaluations do. */
  ghost predicate Spends(p: Problem) {
    forall i, x :: 0 <= i < |p.paths| ==> SpendsAll(p.paths[i](x), x)
  }

  predicate SpendsAll(r: Result<PathQuote>, amount: nat) {
    r.Success? ==> r.value.amountIn == amount
  }

  lemma TotalInAppend(allocs: seq<Allocation>, a: Allocation)
    ensures TotalIn(allocs + [a]) == TotalIn(allocs) + a.quote.amountIn
  {
    assert (allocs + [a])[..|allocs|] == allocs;
  }

  /** What the `i`-th path is given: nothing when it is dropped. */
  function Spent(p: Problem, z: seq<real>, i: nat): nat
    requires |z| == |p.paths| && i < |z|
  {
    var q := ShareQuote(p.paths[i], p.amount, z[i]);
    if z[i] < PRUNE || q.None? then 0 else q.value.amountIn
  }

  lemma NextAllocation(p: Problem, z: seq<real>, n: nat)
    requires |z| == |p.paths| && 0 < n <= |z|
    ensures TotalIn(Allocations(p, z, n)) == TotalIn(Allocations(p, z, n - 1)) + Spent(p, z, n - 1)
  {
    var q := ShareQuote(p.paths[n - 1], p.amount, z[n - 1]);
    if z[n - 1] >= PRUNE && q.Some? {
      TotalInAppend(Allocations(p, z, n - 1), Allocation(z[n - 1], q.value));
    }
  }

  lemma ShareSign(amount: real, ratio: real)
    requires amount >= 0.0 && ratio >= 0.0
    ensures amount * ratio >= 0.0
  {
  }

  lemma SpentAtMost(p: Problem, z: seq<real>, i: nat)
    requires Spends(p) && |z| == |p.paths| && i < |z| && 0.0 <= z[i] <= 1.0
    ensures Spent(p, z, i) as real <= Times(p.amount as real, z[i])
  {
    var amt := MulRatio(p.amount, z[i]);
    MulRatioBounds(p.amount, z[i]);
    ShareSign(p.amount as real, z[i]);
    assert SpendsAll(p.paths[i](amt), amt);
  }

  lemma AtMostStep(amount: real, sum: real, r: real, next: real, total: real, spent: real)
    requires total <= Times(amount, sum) && spent <= Times(amount, r) && next == sum + r
    ensures total + spent <= Times(amount, next)
  {
  }

  lemma {:induction false} AllocationsSpendAtMost(p: Problem, z: seq<real>, n: nat)
    requires Spends(p) && |z| == |p.paths| && n <= |z|
    requires forall i :: 0 <= i < |z| ==> 0.0 <= z[i] <= 1.0
    ensures TotalIn(Allocations(p, z, n)) as real <= Times(p.amount as real, Sum(z[..n]))
  {
    if n > 0 {
      AllocationsSpendAtMost(p, z, n - 1);
      assert z[..n][..n - 1] == z[..n - 1];
      NextAllocation(p, z, n);
      SpentAtMost(p, z, n - 1);
      AtMostStep(p.amount as real, Sum(z[..n - 1]), z[n - 1], Sum(z[..n]),
                 TotalIn(Allocations(p, z, n - 1)) as real, Spent(p, z, n - 1) as real);
    }
  }

  lemma {:induction false} EntryAtMostSum(z: seq<real>, n: nat, i: nat)
    requires i < n <= |z| && forall j :: 0 <= j < |z| ==> z[j] >= 0.0
    ensures 0.0 <= Sum(z[..n - 1]) && z[i] <= Sum(z[..n])
  {
    assert z[..n][..n - 1] == z[..n - 1];
    if i < n - 1 {
      EntryAtMostSum(z, n - 1, i);
    } else if n > 1 {
      EntryAtMostSum(z, n - 1, 0);
    }
  }

  /** Exact-in: the paths are never given more than the amount. */
  lemma NeverOverspends(p: Problem, z: seq<real>)
    requires Spends(p) && |z| == |p.paths| && InSimplex(z)
    ensures TotalIn(Allocations(p, z, |z|)) <= p.amount
  {
    assert z[..|z|] == z;
    forall i | 0 <= i < |z| ensures z[i] <= 1.0 {
      EntryAtMostSum(z, |z|, i);
    }
    AllocationsSpendAtMost(p, z, |z|);
    assert p.amount as real * 1.0 == p.amount as real;
  }

  /** Every share that is neither pruned nor below one unit is quoted. */
  ghost predicate SharesQuote(p: Problem, z: seq<real>)
    requires |z| == |p.paths|
  {
    forall i :: 0 <= i < |z| && z[i] >= PRUNE && MulRatio(p.amount, z[i]) > 0 ==>
      p.paths[i](MulRatio(p.amount, z[i])).Success?
  }

  function Pruned(z: seq<real>, n: nat): nat
    requires n <= |z|
  {
    if n == 0 then 0 else Pruned(z, n - 1) + if z[n - 1] < PRUNE then 1 else 0
  }

  /** What rounding can lose on one path. */
  function Rounding(amount: nat): real {
    amount as real / 1_000_000.0 + 1.0
  }

  lemma ShareBelow(amount: real, r: real, bound: real)
    requires amount >= 0.0 && r <= bound
    ensures amount * r <= amount * bound
  {
  }

  /** The shortfall after `n` paths: pruned shares and rounding. */
  function Shortfall(amount: nat, pruned: nat, n: nat): real {
    PRUNE * amount as real * pruned as real + n as real * Rounding(amount)
  }

  lemma ShortfallStep(amount: nat, pruned: nat, n: nat)
    ensures Shortfall(amount, pruned, n + 1) == Shortfall(amount, pruned, n) + Rounding(amount)
    ensures Shortfall(amount, pruned + 1, n + 1) == Shortfall(amount, pruned, n + 1) + PRUNE * amount as real
  {
    var c := PRUNE * amount as real;
    assert c * (pruned + 1) as real == c * pruned as real + c;
    assert (n + 1) as real * Rounding(amount) == n as real * Rounding(amount) + Rounding(amount);
  }

  /** A kept share is spent to the unit. */
  lemma SpentKept(p: Problem, z: seq<real>, i: nat)
    requires Spends(p) && |z| == |p.paths| && SharesQuote(p, z) && i < |z| && z[i] >= PRUNE
    ensures Spent(p, z, i) == MulRatio(p.amount, z[i])
  {
    var amt := MulRatio(p.amount, z[i]);
    if amt > 0 {
      assert p.paths[i](amt).Success? && SpendsAll(p.paths[i](amt), amt);
    }
  }

  lemma SpentAtLeast(p: Problem, z: seq<real>, i: nat)
    requires Spends(p) && |z| == |p.paths| && SharesQuote(p, z) && i < |z| && 0.0 <= z[i] <= 1.0
    ensures Spent(p, z, i) as real
         >= Times(p.amount as real, z[i]) - Rounding(p.amount) - if z[i] < PRUNE then PRUNE * p.amount as real else 0.0
  {
    if z[i] < PRUNE {
      ShareBelow(p.amount as real, z[i], PRUNE);
      assert Spent(p, z, i) == 0 && Rounding(p.amount) >= 0.0;
    } else {
      SpentKept(p, z, i);
      MulRatioBounds(p.amount, z[i]);
    }
  }

  lemma AtLeastStep(amount: real, sum: real, r: real, next: real, total: real, spent: real, short: real, loss: real)
    requires total >= Times(amount, sum) - short && spent >= Times(amount, r) - loss && next == sum + r
    ensures total + spent >= Times(amount, next) - (short + loss)
  {
  }

  /** The first `n` paths are given their shares but for the shortfall so far. */
  ghost predicate SpentUpTo(p: Problem, z: seq<real>, n: nat)
    requires |z| == |p.paths| && n <= |z|
  {
    TotalIn(Allocations(p, z, n)) as real
    >= Times(p.amount as real, Sum(z[..n])) - Shortfall(p.amount, Pruned(z, n), n)
  }

  lemma SpentNext(p: Problem, z: seq<real>, n: nat)
    requires Spends(p) && |z| == |p.paths| && SharesQuote(p, z) && n < |z| && 0.0 <= z[n] <= 1.0
    requires SpentUpTo(p, z, n)
    ensures SpentUpTo(p, z, n + 1)
  {
    var r := z[n];
    assert z[..n + 1][..n] == z[..n];
    NextAllocation(p, z, n + 1);
    SpentAtLeast(p, z, n);
    ShortfallStep(p.amount, Pruned(z, n), n);
    AtLeastStep(p.amount as real, Sum(z[..n]), r, Sum(z[..n + 1]), TotalIn(Allocations(p, z, n)) as real,
                Spent(p, z, n) as real, Shortfall(p.amount, Pruned(z, n), n),
                Rounding(p.amount) + if r < PRUNE then PRUNE * p.amount as real else 0.0);
  }

  lemma SpentFirst(p: Problem, z: seq<real>)
    requires |z| == |p.paths|
    ensures SpentUpTo(p, z, 0)
  {
    assert z[..0] == [] && Times(p.amount as real, 0.0) == 0.0;
  }

  lemma {:induction false} AllocationsSpendAtLeast(p: Problem, z: seq<real>, n: nat)
    requires Spends(p) && |z| == |p.paths| && SharesQuote(p, z) && n <= |z|
    requires forall i :: 0 <= i < |z| ==> 0.0 <= z[i] <= 1.0
    ensures SpentUpTo(p, z, n)
  {
    if n == 0 {
      SpentFirst(p, z);
    } else {
      AllocationsSpendAtLeast(p, z, n - 1);
      SpentNext(p, z, n - 1);
    }
  }

  lemma {:induction false} SomeKept(z: seq<real>, n: nat)
    requires n <= |z|
    ensures Pruned(z, n) <= n && (Pruned(z, n) == n ==> Sum(z[..n]) <= n as real * PRUNE)
  {
    if n > 0 {
      SomeKept(z, n - 1);
      assert z[..n][..n - 1] == z[..n - 1];
      assert n as real * PRUNE == (n - 1) as real * PRUNE + PRUNE;
    }
  }

  lemma ShortfallBelow(amount: nat, pruned: nat, bound: nat, n: nat)
    requires pruned <= bound
    ensures Shortfall(amount, pruned, n) <= Shortfall(amount, bound, n)
  {
    ShareBelow(PRUNE * amount as real, pruned as real, bound as real);
  }

  /** The total is short of the amount only by the pruned shares and the rounding. */
  ghost predicate NearlyAll(amount: nat, total: nat, pruned: nat, n: nat) {
    total as real >= amount as real - Shortfall(amount, pruned, n)
  }

  /**
   * Exact-in, when every share asked is quoted: all but the pruned shares and
   * the rounding is spent. Of up to twelve paths at least one is kept.
   */
  lemma SpendsNearlyAll(p: Problem, z: seq<real>)
    requires Spends(p) && |z| == |p.paths| && SharesQuote(p, z) && InSimplex(z)
    ensures NearlyAll(p.amount, TotalIn(Allocations(p, z, |z|)), Pruned(z, |z|), |z|)
    ensures 1 <= |z| <= 12 ==> NearlyAll(p.amount, TotalIn(Allocations(p, z, |z|)), |z| - 1, |z|)
  {
    var n := |z|;
    assert z[..n] == z;
    forall i | 0 <= i < n ensures z[i] <= 1.0 {
      EntryAtMostSum(z, n, i);
    }
    AllocationsSpendAtLeast(p, z, n);
    assert p.amount as real * 1.0 == p.amount as real;
    if 1 <= n <= 12 {
      SomeKept(z, n);
      assert n as real * PRUNE <= 0.96;
      ShortfallBelow(p.amount, Pruned(z, n), n - 1, n);
    }
  }

  /** Never more than the amount; and nearly all of it, when every share asked is quoted. */
  ghost predicate SpentWell(p: Problem, z: seq<real>)
    requires |z| == |p.paths|
  {
    var total, n := TotalIn(Allocations(p, z, |z|)), |z|;
    && total <= p.amount
    && (SharesQuote(p, z) ==> NearlyAll(p.amount, total, Pruned(z, n), n))
    && (SharesQuote(p, z) && 1 <= n <= 12 ==> NearlyAll(p.amount, total, n - 1, n))
  }

  /** What any run allocates, for any quoters that report what they are given. */
  lemma RunSpends(p: Problem, trace: seq<State>, tol: real)
    requires IsRun(p, trace, tol) && Spends(p) && 1 <= |p.paths| <= 20 && |trace[|trace| - 1].z| == |p.paths|
    ensures SpentWell(p, trace[|trace| - 1].z)
  {
    var z := trace[|trace| - 1].z;
    RunIsBalanced(p, trace, tol);
    NeverOverspends(p, z);
    if SharesQuote(p, z) {
      SpendsNearlyAll(p, z);
    }
  }

  /** The problem that the router poses: every path is evaluated exact-in. */
  function RouterProblem(w: Width, edge: EdgeQuoter, paths: seq<seq<PublicKey>>, amount: nat): (p: Problem)
    ensures |p.paths| == |paths| && p.amount == amount
  {
    var evals := seq(|paths|, i requires 0 <= i < |paths| => (x: nat) => Evaluation(w, edge, paths[i], x, true));
    Problem(evals, amount, true)
  }

  lemma RouterSpends(w: Width, edge: EdgeQuoter, paths: seq<seq<PublicKey>>, amount: nat)
    ensures Spends(RouterProblem(w, edge, paths, amount))
  {
    var p := RouterProblem(w, edge, paths, amount);
    forall i, x | 0 <= i < |paths| ensures SpendsAll(p.paths[i](x), x) {
      assert p.paths[i](x) == Evaluation(w, edge, paths[i], x, true);
    }
  }

  /**
   * The split that the router obtains, in either width and over any super
   * edges: whatever they answer it stays within the amount, and it spends
   * nearly all of it when the shares asked are quoted.
   */
  lemma RouterRunSpends(w: Width, edge: EdgeQuoter, paths: seq<seq<PublicKey>>, amount: nat, trace: seq<State>,
                        tol: real)
    requires var p := RouterProblem(w, edge, paths, amount);
             IsRun(p, trace, tol) && 1 <= |paths| <= 20 && |trace[|trace| - 1].z| == |paths|
    ensures SpentWell(RouterProblem(w, edge, paths, amount), trace[|trace| - 1].z)
  {
    RouterSpends(w, edge, paths, amount);
    RunSpends(RouterProblem(w, edge, paths, amount), trace, tol);
  }

  // ---------- the solver in place ----------

  method BuildAllocations(p: Problem, ratios: array<real>) returns (allocs: seq<Allocation>)
    requires p.amount < U64 && ratios.Length == |p.paths|
    ensures allocs == Allocations(p, ratios[..], ratios.Length)
  {
    allocs := [];
    for i := 0 to ratios.Length
      invariant allocs == Allocations(p, ratios[..], i)
    {
      if ratios[i] >= PRUNE {
        var amt := MulRatioU64(p.amount, ratios[i]);
        if amt != 0 {
          var quote := p.paths[i](amt);
          if quote.Success? {
            allocs := allocs + [Allocation(ratios[i], quote.value)];
          }
        }
      }
    }
  }

  method EvaluateObjective(p: Problem, ratios: array<real>) returns (total: real)
    requires p.amount < U64 && ratios.Length == |p.paths|
    ensures total == Objective(p, ratios[..], ratios.Length)
  {
    total := 0.0;
    for i := 0 to ratios.Length
      invariant total == Objective(p, ratios[..], i)
    {
      if ratios[i] >= NEAR_ZERO {
        var amt := MulRatioU64(p.amount, ratios[i]);
        if amt != 0 {
          var quote := p.paths[i](amt);
          if quote.Success? {
            total := if p.exactIn then total + quote.value.amountOut as real else total - quote.value.amountIn as real;
          }
        }
      }
    }
  }

  /** The squared distance between proposals and consensus. */
  method PrimalResidual(x: array<real>, z: array<real>) returns (r: real)
    requires x.Length == z.Length
    ensures r == Dist2(x[..], z[..])
  {
    r := 0.0;
    for i := 0 to x.Length
      invariant r == Dist2(x[..i], z[..i])
    {
      var diff := x[i] - z[i];
      assert x[..i + 1][..i] == x[..i] && z[..i + 1][..i] == z[..i];
      assert Times(diff, diff) == diff * diff;
      r := r + diff * diff;
    }
    assert x[..x.Length] == x[..] && z[..x.Length] == z[..];
  }

  /** The buffers of the solver, one entry to a path. What they held before does not matter. */
  class Workspace {
    const x: array<real>
    const z: array<real>
    const u: array<real>
    const v: array<real>
    const sortBuf: array<real>

    ghost predicate Fits(p: Problem) {
      && x.Length == z.Length == u.Length == v.Length == sortBuf.Length == |p.paths|
      && x != z && x != u && x != v && x != sortBuf && z != u && z != v && z != sortBuf
      && u != v && u != sortBuf && v != sortBuf
    }

    function Value(): State
      reads x, z, u
    {
      State(x[..], z[..], u[..])
    }

    constructor (n: nat)
      ensures fresh(x) && fresh(z) && fresh(u) && fresh(v) && fresh(sortBuf)
      ensures forall p: Problem :: |p.paths| == n ==> Fits(p)
    {
      x := new real[n];
      z := new real[n];
      u := new real[n];
      v := new real[n];
      sortBuf := new real[n];
    }

    method Initialize(p: Problem)
      requires Fits(p)
      modifies x, z, u
      ensures Value() == Start(|p.paths|)
    {
      var n := |p.paths|;
      if n == 0 {
        return;
      }
      var initialRatio := 1.0 / n as real;
      for i := 0 to n
        invariant forall k :: 0 <= k < i ==> x[k] == initialRatio && z[k] == initialRatio && u[k] == 0.0
      {
        x[i], z[i], u[i] := initialRatio, initialRatio, 0.0;
      }
      assert Value() == Start(n);
    }

    /** The x-update: every path proposes a ratio near its target. */
    method Propose(p: Problem)
      requires Fits(p) && p.amount < U64
      modifies x
      ensures Proposes(p, old(Value()), x[..])
    {
      ghost var s := Value();
      for i := 0 to x.Length
        invariant forall k :: 0 <= k < i ==> x[k] == Proposal(p.paths[k], p.amount, p.exactIn, s.z[k] - s.u[k])
      {
        var target := z[i] - u[i];
        x[i] := OptimizeSingleAllocation(p.paths[i], p.amount, target, p.exactIn);
      }
    }

    /** The z-update: proposals plus duals, projected and raised to the minimum allocation. */
    method Project(p: Problem)
      requires Fits(p) && p.paths != []
      modifies z, v, sortBuf
      ensures exists w :: IsConsensus(w, Added(x[..], u[..]), z[..])
    {
      for i := 0 to v.Length
        invariant forall k :: 0 <= k < i ==> v[k] == x[k] + u[k]
      {
        v[i] := x[i] + u[i];
      }
      assert v[..] == Added(x[..], u[..]);
      ProjectOntoSimplexInto(v, z, sortBuf);
      ghost var w := z[..];
      EnforceMinimumAllocationInPlace(z, MIN_ALLOC);
      assert IsConsensus(w, Added(x[..], u[..]), z[..]);
    }

    /** The u-update. */
    method UpdateDuals(p: Problem)
      requires Fits(p)
      modifies u
      ensures DualsFollow(old(u[..]), Value())
    {
      for i := 0 to u.Length
        invariant forall k :: 0 <= k < u.Length ==> u[k] == if k < i then old(u[k]) + x[k] - z[k] else old(u[k])
      {
        u[i] := u[i] + (x[i] - z[i]);
      }
    }

    method Iterate(p: Problem)
      requires Fits(p) && p.amount < U64 && p.paths != []
      modifies x, z, u, v, sortBuf
      ensures Leads(p, old(Value()), Value())
    {
      ghost var s := Value();
      Propose(p);
      Project(p);
      ghost var w :| IsConsensus(w, Added(x[..], u[..]), z[..]);
      assert u[..] == s.u;
      UpdateDuals(p);
      ghost var t := Value();
      assert IsConsensus(w, Added(t.x, s.u), t.z);
    }

    /** Checks the stopping conditions after iteration `iter`, which came from state `s`. */
    method CheckConvergence(p: Problem, iter: nat, prevObjective: Option<real>, tol: real, ghost s: State)
      returns (stopped: bool, objective: real)
      requires Fits(p) && p.amount < U64 && |s.z| == |p.paths|
      requires iter > 0 ==> prevObjective == Some(Objective(p, s.z, |s.z|))
      ensures stopped <==> Stops(p, s, Value(), iter, tol)
      ensures objective == Objective(p, Value().z, |p.paths|)
    {
      objective := EvaluateObjective(p, z);
      var primalResSq := PrimalResidual(x, z);
      if primalResSq < tol * tol {
        return true, objective;
      }
      if iter > 2 && objective > 0.0 && prevObjective.value > 0.0 {
        var improvement := Abs(objective - prevObjective.value) / Abs(prevObjective.value);
        return improvement < tol / 10.0, objective;
      }
      return false, objective;
    }

    /** The workspace holds the last state of a run. */
    ghost predicate At(p: Problem, trace: seq<State>, tol: real)
      reads x, z, u
    {
      Fits(p) && IsRun(p, trace, tol) && trace[|trace| - 1] == Value() && Sized(p, Value())
    }

    /** One iteration with its convergence check. */
    method Round(p: Problem, iter: nat, prevObjective: Option<real>, tol: real, ghost trace: seq<State>)
      returns (stopped: bool, objective: Option<real>, ghost longer: seq<State>)
      requires At(p, trace, tol) && p.amount < U64 && p.paths != [] && |trace| == iter + 1 && !HasStopped(p, trace, tol)
      requires iter > 0 ==> prevObjective == Some(Objective(p, Value().z, |p.paths|))
      modifies x, z, u, v, sortBuf
      ensures At(p, longer, tol) && |longer| == iter + 2 && (stopped <==> HasStopped(p, longer, tol))
      ensures objective == Some(Objective(p, Value().z, |p.paths|))
    {
      ghost var s := Value();
      Iterate(p);
      var newObjective;
      stopped, newObjective := CheckConvergence(p, iter, prevObjective, tol, s);
      objective := Some(newObjective);
      RunExtends(p, trace, Value(), tol);
      longer := trace + [Value()];
    }

    /**
     * Runs the solver and returns the allocations of the last consensus. The
     * states it went through are a run that may not stop earlier, and it ends
     * at a state that may stop or at the cap.
     */
    method Solve(p: Problem, maxIter: nat, tol: real) returns (allocs: seq<Allocation>, ghost trace: seq<State>)
      requires Fits(p) && p.amount < U64
      modifies x, z, u, v, sortBuf
      ensures At(p, trace, tol) && allocs == Allocations(p, Value().z, |p.paths|)
      ensures p.paths != [] ==> |trace| <= maxIter + 1 && (|trace| == maxIter + 1 || HasStopped(p, trace, tol))
    {
      Initialize(p);
      trace := [Value()];
      assert At(p, trace, tol);
      if |p.paths| == 0 {
        return [], trace;
      }
      var prevObjective: Option<real> := None;
      var iter, stopped := 0, false;
      while iter < maxIter && !stopped
        invariant iter <= maxIter && |trace| == iter + 1 && At(p, trace, tol)
        invariant iter > 0 ==> prevObjective == Some(Objective(p, Value().z, |p.paths|))
        invariant stopped <==> HasStopped(p, trace, tol)
        decreases maxIter - iter, !stopped
      {
        stopped, prevObjective, trace := Round(p, iter, prevObjective, tol, trace);
        iter := iter + 1;
      }
      allocs := BuildAllocations(p, z);
    }
  }
}
