// What the ratio that a path proposes is worth, in the quotes of the path.
module Proposals {
  import opened FixedPoint
  import opened SuperEdgeQuotes
  import opened PathEvaluator
  import opened AdmmSolver

  // ---------- the three candidates ----------

  function Within(r: real): real {
    if r < 0.0 then 0.0 else if r > 1.0 then 1.0 else r
  }

  /** Below the target by 5%, at the target, or above it by 5%, never outside [0, 1]. */
  function Candidate(target: real, k: nat): real {
    var t := Within(target);
    if k == 0 then Within(t - 0.05) else if k == 1 then t else Within(t + 0.05)
  }

  /** The path quotes this share of the amount, and the share is not near zero. */
  predicate Quotes(path: PathEval, amount: nat, ratio: real) {
    ratio >= 0.01 && MulRatio(amount, ratio) > 0 && path(MulRatio(amount, ratio)).Success?
  }

  function Pays(path: PathEval, amount: nat, ratio: real): nat
    requires Quotes(path, amount, ratio)
  {
    path(MulRatio(amount, ratio)).value.amountOut
  }

  function Costs(path: PathEval, amount: nat, ratio: real): nat
    requires Quotes(path, amount, ratio)
  {
    path(MulRatio(amount, ratio)).value.amountIn
  }

  // ---------- scores ----------

  lemma ProductBetween(x: real, y: real, p: real)
    requires 0.0 < x <= 0.05 && 0.0 < y <= 0.05 && p == x * y
    ensures 0.0 < p <= 0.0025
  {
    RealMulOrder(x, y, 0.05);
    assert p <= x * 0.05;
  }

  lemma PenaltyIsHalved(d: real, x: real, sq: real)
    requires (d == x || d == -x) && sq == x * x
    ensures Penalty(d) == sq / 2.0
  {
    assert RHO / 2.0 * d == d / 2.0;
    assert d / 2.0 * d == (d * d) / 2.0;
    assert d * d == x * x;
  }

  /** The penalty of a near point is far below one unit, and zero only at the target. */
  lemma PenaltyIsSmall(d: real)
    requires -0.05 <= d <= 0.05
    ensures 0.0 <= Penalty(d) <= 0.00125
    ensures Penalty(d) == 0.0 <==> d == 0.0
  {
    if d != 0.0 {
      var x := if d < 0.0 then -d else d;
      var sq := x * x;
      ProductBetween(x, x, sq);
      PenaltyIsHalved(d, x, sq);
    }
  }

  /** The amount that counts: what is paid out, or, negated, what is taken. */
  function Signed(path: PathEval, amount: nat, exactIn: bool, ratio: real): real
    requires Quotes(path, amount, ratio)
  {
    if exactIn then Pays(path, amount, ratio) as real else -(Costs(path, amount, ratio) as real)
  }

  /** A near ratio scores its amount less a penalty below one unit, or minus a billion when it is refused. */
  predicate Scored(path: PathEval, amount: nat, exactIn: bool, c: real, t: real) {
    var score := Score(path, amount, exactIn, c, t);
    if Quotes(path, amount, c)
    then && Signed(path, amount, exactIn, c) - 0.00125 <= score <= Signed(path, amount, exactIn, c)
         && (score == Signed(path, amount, exactIn, c) <==> c == t)
    else score == -1_000_000_000.0
  }

  lemma ScoreNear(path: PathEval, amount: nat, exactIn: bool, c: real, t: real, penalty: real)
    requires Penalty(c - t) == penalty && 0.0 <= penalty <= 0.00125 && (penalty == 0.0 <==> c == t)
    ensures Scored(path, amount, exactIn, c, t)
  {
  }

  lemma ScoreIs(path: PathEval, amount: nat, exactIn: bool, target: real, k: nat)
    ensures Scored(path, amount, exactIn, Candidate(target, k), Within(target))
    ensures Within(target) == Clamped(target)
  {
    var c, t := Candidate(target, k), Within(target);
    PenaltyIsSmall(c - t);
    ScoreNear(path, amount, exactIn, c, t, Penalty(c - t));
  }

  /** The ratio proposed is the first candidate with the greatest score. */
  lemma ProposalTops(path: PathEval, amount: nat, exactIn: bool, target: real)
    ensures exists k: nat :: k < 3 && Tops(path, amount, exactIn, target, k)
  {
    var s0 := Score(path, amount, exactIn, Candidate(target, 0), Clamped(target));
    var s1 := Score(path, amount, exactIn, Candidate(target, 1), Clamped(target));
    var s2 := Score(path, amount, exactIn, Candidate(target, 2), Clamped(target));
    var k := if s0 >= s1 && s0 >= s2 then 0 else if s1 >= s2 then 1 else 2;
    assert Tops(path, amount, exactIn, target, k);
  }

  ghost predicate Tops(path: PathEval, amount: nat, exactIn: bool, target: real, k: nat) {
    && Proposal(path, amount, exactIn, target) == Candidate(target, k)
    && forall j: nat :: j < 3 ==> ScoresBelow(path, amount, exactIn, target, j, k)
  }

  /** Candidate `j` scores no more than `k`, and less if it comes earlier. */
  predicate ScoresBelow(path: PathEval, amount: nat, exactIn: bool, target: real, j: nat, k: nat) {
    var score := (i: nat) => Score(path, amount, exactIn, Candidate(target, i), Clamped(target));
    score(j) <= score(k) && (j < k ==> score(j) < score(k))
  }

  /** A neighbour is proposed only when it beats the target: on a tie the target stays. */
  lemma TargetOnTies(path: PathEval, amount: nat, exactIn: bool, target: real)
    ensures var t, r := Candidate(target, 1), Proposal(path, amount, exactIn, target);
            Quotes(path, amount, t) && Quotes(path, amount, r) ==>
              Signed(path, amount, exactIn, t) < Signed(path, amount, exactIn, r) || r == t
  {
    ProposalTops(path, amount, exactIn, target);
    var top: nat :| top < 3 && Tops(path, amount, exactIn, target, top);
    ScoreIs(path, amount, exactIn, target, top);
    ScoreIs(path, amount, exactIn, target, 1);
    assert ScoresBelow(path, amount, exactIn, target, 1, top);
  }

  // ---------- exact-in ----------

  /** The ratio proposed quotes and pays no less than any of the three candidates that quote. */
  ghost predicate PaysMost(path: PathEval, amount: nat, target: real, r: real) {
    forall k: nat :: k < 3 && Quotes(path, amount, Candidate(target, k)) ==>
      Quotes(path, amount, r) && Pays(path, amount, Candidate(target, k)) <= Pays(path, amount, r)
  }

  lemma ProposalPaysMost(path: PathEval, amount: nat, target: real)
    ensures PaysMost(path, amount, target, Proposal(path, amount, true, target))
  {
    ProposalTops(path, amount, true, target);
    var top: nat :| top < 3 && Tops(path, amount, true, target, top);
    ScoreIs(path, amount, true, target, top);
    forall k: nat | k < 3 && Quotes(path, amount, Candidate(target, k))
      ensures Quotes(path, amount, Candidate(target, top))
      ensures Pays(path, amount, Candidate(target, k)) <= Pays(path, amount, Candidate(target, top))
    {
      ScoreIs(path, amount, true, target, k);
      assert ScoresBelow(path, amount, true, target, k, top);
    }
  }

  // ---------- exact-out ----------

  /** The ratio proposed quotes and takes no more than any of the three candidates that quote. */
  ghost predicate CostsLeast(path: PathEval, amount: nat, target: real, r: real) {
    && Quotes(path, amount, r)
    && forall k: nat :: k < 3 && Quotes(path, amount, Candidate(target, k)) ==>
         Costs(path, amount, r) <= Costs(path, amount, Candidate(target, k))
  }

  predicate QuotedBelow(path: PathEval, amount: nat, target: real, k: nat, bound: nat) {
    Quotes(path, amount, Candidate(target, k)) && Costs(path, amount, Candidate(target, k)) < bound
  }

  /**
   * No candidate is refused, or one costs less than a billion; or the target
   * costs just that and the candidate before it is not refused either.
   */
  predicate Affordable(path: PathEval, amount: nat, target: real) {
    || (forall k: nat :: k < 3 ==> Quotes(path, amount, Candidate(target, k)))
    || (exists k: nat :: k < 3 && QuotedBelow(path, amount, target, k, 1_000_000_000))
    || (&& Quotes(path, amount, Candidate(target, 0))
        && QuotedBelow(path, amount, target, 1, 1_000_000_001))
  }

  lemma AffordableCostsLeast(path: PathEval, amount: nat, target: real, top: nat)
    requires top < 3 && Tops(path, amount, false, target, top) && Affordable(path, amount, target)
    ensures CostsLeast(path, amount, target, Candidate(target, top))
  {
    ScoreIs(path, amount, false, target, 0);
    ScoreIs(path, amount, false, target, 1);
    ScoreIs(path, amount, false, target, 2);
    assert ScoresBelow(path, amount, false, target, 0, top) && ScoresBelow(path, amount, false, target, 1, top)
        && ScoresBelow(path, amount, false, target, 2, top);
  }

  lemma LeastIsAffordable(path: PathEval, amount: nat, target: real, top: nat)
    requires top < 3 && Tops(path, amount, false, target, top)
    requires CostsLeast(path, amount, target, Candidate(target, top))
    ensures Affordable(path, amount, target)
  {
    if j: nat :| j < 3 && !Quotes(path, amount, Candidate(target, j)) {
      if !QuotedBelow(path, amount, target, top, 1_000_000_000) {
        ScoreIs(path, amount, false, target, top);
        ScoreIs(path, amount, false, target, j);
        ScoreIs(path, amount, false, target, 0);
        assert ScoresBelow(path, amount, false, target, j, top) && ScoresBelow(path, amount, false, target, 0, top);
        assert Candidate(target, top) == Candidate(target, 1);
      }
    }
  }

  /**
   * Exact-out a refused candidate scores minus a billion, and so beats quotes
   * that cost more. The ratio proposed quotes at the least cost exactly when
   * this cannot happen.
   */
  lemma ProposalCostsLeastIff(path: PathEval, amount: nat, target: real)
    requires exists k: nat :: k < 3 && Quotes(path, amount, Candidate(target, k))
    ensures CostsLeast(path, amount, target, Proposal(path, amount, false, target))
       <==> Affordable(path, amount, target)
  {
    ProposalTops(path, amount, false, target);
    var top: nat :| top < 3 && Tops(path, amount, false, target, top);
    if Affordable(path, amount, target) {
      AffordableCostsLeast(path, amount, target, top);
    }
    if CostsLeast(path, amount, target, Candidate(target, top)) {
      LeastIsAffordable(path, amount, target, top);
    }
  }

  /** Delivers up to half a million, for two billion. */
  function Dear(): PathEval {
    (x: nat) => if x <= 500_000 then Success(PathQuote([], [], 2_000_000_000, x, 0, 0)) else Failure(NoRoute)
  }

  /** The target and the candidate below it are quoted, but the refused one above is proposed. */
  lemma DearIsRefused()
    ensures Quotes(Dear(), 1_000_000, 0.5) && Quotes(Dear(), 1_000_000, 0.45)
    ensures Proposal(Dear(), 1_000_000, false, 0.5) == 0.55 && !Quotes(Dear(), 1_000_000, 0.55)
  {
    assert MulRatio(1_000_000, 0.5) == 500_000 && MulRatio(1_000_000, 0.45) == 450_000;
    assert MulRatio(1_000_000, 0.55) == 550_000;
    ScoreIs(Dear(), 1_000_000, false, 0.5, 0);
    ScoreIs(Dear(), 1_000_000, false, 0.5, 1);
    ScoreIs(Dear(), 1_000_000, false, 0.5, 2);
  }

  // ---------- over a run ----------

  /** At every step of every run the ratio proposed for a path pays most, or exact-out costs least when affordable. */
  lemma RunProposesBest(p: Problem, trace: seq<State>, tol: real, i: nat)
    requires IsRun(p, trace, tol) && 2 <= |trace| && i < |p.paths|
    ensures var s, t := trace[|trace| - 2], trace[|trace| - 1];
            && Sized(p, s) && Sized(p, t)
            && var target := s.z[i] - s.u[i];
               && (p.exactIn ==> PaysMost(p.paths[i], p.amount, target, t.x[i]))
               && (!p.exactIn && (exists k: nat :: k < 3 && Quotes(p.paths[i], p.amount, Candidate(target, k))) ==>
                     (CostsLeast(p.paths[i], p.amount, target, t.x[i]) <==> Affordable(p.paths[i], p.amount, target)))
  {
    var s, t := trace[|trace| - 2], trace[|trace| - 1];
    assert Leads(p, s, t) && Proposes(p, s, t.x);
    var target := s.z[i] - s.u[i];
    if p.exactIn {
      ProposalPaysMost(p.paths[i], p.amount, target);
    } else if exists k: nat :: k < 3 && Quotes(p.paths[i], p.amount, Candidate(target, k)) {
      ProposalCostsLeastIff(p.paths[i], p.amount, target);
    }
  }
}
