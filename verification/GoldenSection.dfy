// Golden-section search for the best division of an amount between two paths,
// over exact reals and an exact golden ratio.
module GoldenSection {
  import opened Domain
  import opened FixedPoint
  import opened SuperEdgeQuotes
  import opened PathEvaluator

  const TOLERANCE := 0.01
  const MAX_ITER: nat := 15
  const MIN_RATIO := 0.1
  const MAX_RATIO := 0.9
  const ROUNDS: nat := 10

  // ---------- how a bracket shrinks ----------

  /** How much of a width one round leaves. */
  type Shrink = real -> real

  /** Two shrinkings and one cut make up the width, so one golden point serves the next round too. */
  ghost predicate Reuses(s: Shrink, w: real) {
    s(s(w)) == w - s(w)
  }

  /** Shrinking leaves more than half and less than all. */
  ghost predicate Middling(s: Shrink, w: real) {
    w > 0.0 ==> 0.5 * w < s(w) < w
  }

  /** The width of the bracket after `n` rounds, which does not depend on the values seen. */
  function Span(s: Shrink, n: nat): real {
    if n == 0 then MAX_RATIO - MIN_RATIO else s(Span(s, n - 1))
  }

  /** The tolerance is reached at the tenth round and not before. */
  ghost predicate Timely(s: Shrink, n: nat) {
    n <= ROUNDS ==> (Span(s, n) > TOLERANCE <==> n < ROUNDS)
  }

  ghost predicate Golden(s: Shrink) {
    && (forall w :: Reuses(s, w))
    && (forall w :: Middling(s, w))
    && (forall n: nat :: Timely(s, n))
  }

  // ---------- division by the golden ratio shrinks so ----------

  ghost predicate IsGolden(g: real) {
    g > 0.0 && g * g == g + 1.0
  }

  function Over(g: real): Shrink
    requires g != 0.0
  {
    (w: real) => w / g
  }

  lemma Signs(x: real, y: real)
    requires y > 0.0
    ensures x * y > 0.0 ==> x > 0.0
    ensures x * y < 0.0 ==> x < 0.0
  {
  }

  lemma ProductPositive(x: real, y: real)
    requires x > 0.0 && y > 0.0
    ensures x * y > 0.0
  {
  }

  lemma GoldenBounds(g: real)
    requires IsGolden(g)
    ensures 1.6 < g < 1.7
  {
    assert (g - 1.6) * (g + 0.6) == g * g - g - 0.96;
    assert (g - 1.7) * (g + 0.7) == g * g - g - 1.19;
    Signs(g - 1.6, g + 0.6);
    Signs(g - 1.7, g + 0.7);
  }

  function Pow(g: real, k: nat): real {
    if k == 0 then 1.0 else Pow(g, k - 1) * g
  }

  lemma PowStep(g: real, k: nat, x: real, y: real)
    requires IsGolden(g) && Pow(g, k) == x * g + y
    ensures Pow(g, k + 1) == (x + y) * g + x
  {
    assert (x * g + y) * g == x * (g * g) + y * g;
  }

  /** Powers of the golden ratio are Fibonacci combinations of it. */
  lemma Powers(g: real)
    requires IsGolden(g)
    ensures Pow(g, 9) == 34.0 * g + 21.0 && Pow(g, 10) == 55.0 * g + 34.0
  {
    assert Pow(g, 1) == Pow(g, 0) * g == 1.0 * g + 0.0;
    PowStep(g, 1, 1.0, 0.0);
    PowStep(g, 2, 1.0, 1.0);
    PowStep(g, 3, 2.0, 1.0);
    PowStep(g, 4, 3.0, 2.0);
    PowStep(g, 5, 5.0, 3.0);
    PowStep(g, 6, 8.0, 5.0);
    PowStep(g, 7, 13.0, 8.0);
    PowStep(g, 8, 21.0, 13.0);
    PowStep(g, 9, 34.0, 21.0);
  }

  lemma ProductGrows(x: real, g: real)
    requires x > 0.0 && g > 1.0
    ensures x * g > x
  {
    assert x * g == x + x * (g - 1.0);
    ProductPositive(x, g - 1.0);
  }

  lemma {:induction false} PowGrows(g: real, j: nat, k: nat)
    requires IsGolden(g) && j <= k
    ensures 0.0 < Pow(g, j) <= Pow(g, k)
  {
    GoldenBounds(g);
    if k > 0 {
      if j < k {
        PowGrows(g, j, k - 1);
      } else {
        PowGrows(g, j - 1, k - 1);
      }
      ProductGrows(Pow(g, k - 1), g);
    }
  }

  lemma ProductKept(w: real, p: real, g: real)
    requires g != 0.0
    ensures (w / g) * (p * g) == w * p
  {
    var x := w / g;
    assert x * g == w;
    assert x * (p * g) == (x * g) * p;
  }

  lemma {:induction false} SpanScaled(g: real, n: nat)
    requires IsGolden(g)
    ensures Span(Over(g), n) * Pow(g, n) == 0.8
  {
    if n > 0 {
      SpanScaled(g, n - 1);
      ProductKept(Span(Over(g), n - 1), Pow(g, n - 1), g);
    }
  }

  lemma SpanAgainstTolerance(w: real, p: real)
    requires p > 0.0 && w * p == 0.8
    ensures w > TOLERANCE <==> p < 80.0
  {
    assert (w - TOLERANCE) * p == 0.8 - TOLERANCE * p;
    Signs(w - TOLERANCE, p);
    if w == TOLERANCE {
      assert w * p == TOLERANCE * p;
    }
    if w > TOLERANCE {
      ProductPositive(w - TOLERANCE, p);
    }
  }

  lemma PowAgainstEighty(g: real, n: nat)
    requires IsGolden(g) && n <= ROUNDS
    ensures Pow(g, n) > 0.0 && (Pow(g, n) < 80.0 <==> n < ROUNDS)
  {
    GoldenBounds(g);
    Powers(g);
    if n < ROUNDS {
      PowGrows(g, n, 9);
    }
  }

  lemma IsTimely(g: real, n: nat)
    requires IsGolden(g)
    ensures Timely(Over(g), n)
  {
    if n <= ROUNDS {
      PowAgainstEighty(g, n);
      SpanScaled(g, n);
      SpanAgainstTolerance(Span(Over(g), n), Pow(g, n));
    }
  }

  /** Division by the golden ratio is multiplication by one less. */
  lemma GoldenQuotient(w: real, g: real)
    requires IsGolden(g)
    ensures w / g == w * (g - 1.0)
  {
    assert w * (g - 1.0) * g == w * (g * g - g) == w;
    assert (w / g - w * (g - 1.0)) * g == 0.0;
  }

  lemma IsReused(g: real, w: real)
    requires IsGolden(g)
    ensures Reuses(Over(g), w)
  {
    GoldenQuotient(w, g);
    GoldenQuotient(w / g, g);
    assert w * (g - 1.0) * (g - 1.0) == w * (g * g) - 2.0 * (w * g) + w;
    assert w * (g * g) == w * g + w;
  }

  lemma IsMiddling(g: real, w: real)
    requires IsGolden(g)
    ensures Middling(Over(g), w)
  {
    if w > 0.0 {
      GoldenBounds(g);
      GoldenQuotient(w, g);
      assert w * (g - 1.0) - 0.5 * w == w * (g - 1.5) && w - w * (g - 1.0) == w * (2.0 - g);
      ProductPositive(w, g - 1.5);
      ProductPositive(w, 2.0 - g);
    }
  }

  lemma DivisionIsGolden(g: real)
    requires IsGolden(g)
    ensures Golden(Over(g))
  {
    forall w ensures Reuses(Over(g), w) && Middling(Over(g), w) {
      IsReused(g, w);
      IsMiddling(g, w);
    }
    forall n: nat ensures Timely(Over(g), n) {
      IsTimely(g, n);
    }
  }

  // ---------- the bracket ----------

  datatype Bracket = Bracket(a: real, b: real) {

    /** The left and the right golden point. */
    function Left(s: Shrink): real {
      b - s(b - a)
    }

    function Right(s: Shrink): real {
      a + s(b - a)
    }
  }

  const START := Bracket(MIN_RATIO, MAX_RATIO)

  /** Whether the value at one point beats the value at another. */
  type Beat = (real, real) -> bool

  /** Drops the part beyond the golden point with the worse value; a tie drops the left part. */
  function Narrowed(s: Shrink, better: Beat, k: Bracket): Bracket {
    if better(k.Left(s), k.Right(s)) then Bracket(k.a, k.Right(s)) else Bracket(k.Left(s), k.b)
  }

  function After(s: Shrink, better: Beat, n: nat): Bracket {
    if n == 0 then START else Narrowed(s, better, After(s, better, n - 1))
  }

  /** One point of each bracket is a golden point of the next. */
  lemma PointsReused(s: Shrink, k: Bracket)
    requires Golden(s)
    ensures Bracket(k.a, k.Right(s)).Right(s) == k.Left(s)
    ensures Bracket(k.Left(s), k.b).Left(s) == k.Right(s)
  {
    assert Reuses(s, k.b - k.a);
  }

  /** The golden points divide a bracket in order. */
  lemma PointsOrdered(s: Shrink, k: Bracket)
    requires Golden(s) && k.a < k.b
    ensures k.a < k.Left(s) < k.Right(s) < k.b
  {
    assert Middling(s, k.b - k.a);
  }

  lemma {:induction false} InsideAfter(s: Shrink, better: Beat, n: nat)
    requires Golden(s)
    ensures var k := After(s, better, n); MIN_RATIO <= k.a < k.b <= MAX_RATIO && k.b - k.a == Span(s, n)
  {
    if n > 0 {
      InsideAfter(s, better, n - 1);
      PointsOrdered(s, After(s, better, n - 1));
    }
  }

  // ---------- the search ----------

  /** The total of a division and the quotes of both paths, if both could be quoted. */
  datatype Eval = Eval(total: nat, quotes: Option<(PathQuote, PathQuote)>)

  predicate IsBetter(exactIn: bool, newer: nat, older: nat) {
    if exactIn then newer > older else newer < older && newer > 0
  }

  function Prefers(eval: real -> Eval, exactIn: bool): Beat {
    (x, y) => IsBetter(exactIn, eval(x).total, eval(y).total)
  }

  /** The point evaluated in round `n`. */
  function NewPoint(s: Shrink, better: Beat, n: nat): real
    requires 0 < n
  {
    var before, k := After(s, better, n - 1), After(s, better, n);
    if better(before.Left(s), before.Right(s)) then k.Left(s) else k.Right(s)
  }

  /** All points evaluated up to round `n`, in the order of evaluation. */
  function Points(s: Shrink, better: Beat, n: nat): (r: seq<real>)
    ensures |r| == n + 2 && r[0] == START.Left(s) && r[1] == START.Right(s)
  {
    if n == 0 then [START.Left(s), START.Right(s)] else Points(s, better, n - 1) + [NewPoint(s, better, n)]
  }

  /** The better of the two points of the start. */
  function First(eval: real -> Eval, exactIn: bool, c: real, d: real): real {
    if IsBetter(exactIn, eval(c).total, eval(d).total) then c else d
  }

  /** The better of the remembered point and a new one. */
  function Update(eval: real -> Eval, exactIn: bool, p: real, q: real): real {
    if eval(q).total > 0 && IsBetter(exactIn, eval(q).total, eval(p).total) then q else p
  }

  /** The point remembered after seeing `points`. */
  function Pick(eval: real -> Eval, exactIn: bool, points: seq<real>): real
    requires 2 <= |points|
  {
    var n := |points| - 1;
    if n == 1 then First(eval, exactIn, points[0], points[1])
    else Update(eval, exactIn, Pick(eval, exactIn, points[..n]), points[n])
  }

  lemma {:induction false} PickIsPoint(eval: real -> Eval, exactIn: bool, points: seq<real>)
    requires 2 <= |points|
    ensures Pick(eval, exactIn, points) in points
  {
    if |points| > 2 {
      PickIsPoint(eval, exactIn, points[..|points| - 1]);
    }
  }

  lemma {:induction false} PointsInside(s: Shrink, better: Beat, n: nat)
    requires Golden(s)
    ensures forall p :: p in Points(s, better, n) ==> MIN_RATIO < p < MAX_RATIO
  {
    InsideAfter(s, better, n);
    PointsOrdered(s, After(s, better, n));
    if n > 0 {
      PointsInside(s, better, n - 1);
    }
  }

  /** Exact-in: the best of all points evaluated. */
  lemma {:induction false} ExactInPicksGreatest(eval: real -> Eval, points: seq<real>)
    requires 2 <= |points|
    ensures forall p :: p in points ==> eval(p).total <= eval(Pick(eval, true, points)).total
  {
    var n := |points| - 1;
    if n > 1 {
      ExactInPicksGreatest(eval, points[..n]);
      assert points == points[..n] + [points[n]];
    }
  }

  /** `r` has the least positive total among the points. */
  ghost predicate LeastPositive(eval: real -> Eval, points: seq<real>, r: real) {
    && eval(r).total > 0
    && forall p :: p in points && eval(p).total > 0 ==> eval(r).total <= eval(p).total
  }

  /** Exact-out: a zero at the second point is never given up. */
  lemma {:induction false} ExactOutStuckAtZero(eval: real -> Eval, points: seq<real>)
    requires 2 <= |points| && eval(points[1]).total == 0
    ensures Pick(eval, false, points) == points[1]
  {
    if |points| > 2 {
      ExactOutStuckAtZero(eval, points[..|points| - 1]);
    }
  }

  lemma {:induction false} ExactOutPicksLeast(eval: real -> Eval, points: seq<real>)
    requires 2 <= |points| && eval(points[1]).total > 0
    ensures LeastPositive(eval, points, Pick(eval, false, points))
  {
    var n := |points| - 1;
    if n > 1 {
      ExactOutPicksLeast(eval, points[..n]);
      assert points == points[..n] + [points[n]];
    }
  }

  /**
   * Exact-out should answer with the least positive total evaluated. It does
   * so exactly when the first right-hand point could be quoted, whatever is
   * found later.
   */
  lemma ExactOutPicksLeastIff(s: Shrink, eval: real -> Eval, n: nat)
    ensures var points := Points(s, Prefers(eval, false), n);
            LeastPositive(eval, points, Pick(eval, false, points)) <==> eval(START.Right(s)).total > 0
  {
    var points := Points(s, Prefers(eval, false), n);
    if eval(points[1]).total > 0 {
      ExactOutPicksLeast(eval, points);
    } else {
      ExactOutStuckAtZero(eval, points);
    }
  }

  /** What one round does to the bracket, its golden points and the loop condition. */
  lemma RoundStep(s: Shrink, better: Beat, i: nat)
    requires Golden(s) && i < ROUNDS
    ensures var k, n := After(s, better, i), After(s, better, i + 1);
            && (n.b - n.a > TOLERANCE <==> i + 1 < ROUNDS)
            && if better(k.Left(s), k.Right(s))
               then n == Bracket(k.a, k.Right(s)) && n.Right(s) == k.Left(s) && NewPoint(s, better, i + 1) == n.Left(s)
               else n == Bracket(k.Left(s), k.b) && n.Left(s) == k.Right(s) && NewPoint(s, better, i + 1) == n.Right(s)
  {
    PointsReused(s, After(s, better, i));
    InsideAfter(s, better, i + 1);
    assert Timely(s, i + 1);
  }

  /** The bracket after `i` rounds with its golden points. */
  ghost predicate AtRound(s: Shrink, better: Beat, i: nat, a: real, b: real, c: real, d: real) {
    match After(s, better, i)
    case Bracket(x, y) => a == x && b == y && c == Bracket(x, y).Left(s) && d == Bracket(x, y).Right(s)
  }

  /** Moves one end of the bracket; one golden point is kept and one computed anew. */
  method Narrow(s: Shrink, left: bool, a: real, b: real, c: real, d: real, ghost better: Beat, ghost i: nat)
    returns (a': real, b': real, c': real, d': real, p: real)
    requires Golden(s) && i < ROUNDS && AtRound(s, better, i, a, b, c, d) && left == better(c, d)
    ensures AtRound(s, better, i + 1, a', b', c', d') && p == NewPoint(s, better, i + 1)
    ensures b' - a' > TOLERANCE <==> i + 1 < ROUNDS
    ensures if left then d' == c && c' == p else c' == d && d' == p
  {
    RoundStep(s, better, i);
    if left {
      a', b', d' := a, d, c;
      c' := b' - s(b' - a');
      p := c';
    } else {
      a', b', c' := c, b, d;
      d' := a' + s(b' - a');
      p := d';
    }
  }

  lemma PickNext(s: Shrink, eval: real -> Eval, exactIn: bool, i: nat)
    ensures var better := Prefers(eval, exactIn);
            var p, p' := Pick(eval, exactIn, Points(s, better, i)), Pick(eval, exactIn, Points(s, better, i + 1));
            p' == Update(eval, exactIn, p, NewPoint(s, better, i + 1))
  {
    var better := Prefers(eval, exactIn);
    assert Points(s, better, i + 1)[..i + 2] == Points(s, better, i);
  }

  /** The search loop. It ends at the tolerance after ten rounds, never at the cap. */
  method Search(s: Shrink, eval: real -> Eval, exactIn: bool) returns (best: Eval, bestRatio: real)
    requires Golden(s)
    ensures best == eval(bestRatio) && bestRatio == Pick(eval, exactIn, Points(s, Prefers(eval, exactIn), ROUNDS))
  {
    var a, b := MIN_RATIO, MAX_RATIO;
    var c, d := b - s(b - a), a + s(b - a);
    ghost var better := Prefers(eval, exactIn);
    var fc, fd := eval(c), eval(d);
    if IsBetter(exactIn, fc.total, fd.total) {
      best, bestRatio := fc, c;
    } else {
      best, bestRatio := fd, d;
    }
    var i := 0;
    while i < MAX_ITER && b - a > TOLERANCE
      invariant i <= ROUNDS && (b - a > TOLERANCE <==> i < ROUNDS)
      invariant AtRound(s, better, i, a, b, c, d) && fc == eval(c) && fd == eval(d)
      invariant best == eval(bestRatio) && bestRatio == Pick(eval, exactIn, Points(s, better, i))
      decreases MAX_ITER - i
    {
      var left, p := IsBetter(exactIn, fc.total, fd.total), 0.0;
      a, b, c, d, p := Narrow(s, left, a, b, c, d, better, i);
      var fp := eval(p);
      if left {
        fc, fd := fp, fc;
      } else {
        fc, fd := fd, fp;
      }
      if fp.total > 0 && IsBetter(exactIn, fp.total, best.total) {
        best, bestRatio := fp, p;
      }
      PickNext(s, eval, exactIn, i);
      i := i + 1;
    }
  }

  // ---------- dividing between two paths ----------

  lemma MulRatioAtMost(amount: nat, ratio: real)
    ensures MulRatio(amount, ratio) <= amount
  {
    if 0.0 <= ratio <= 1.0 {
      MulRatioBounds(amount, ratio);
    }
  }

  /** Both paths on their parts of the amount; the parts make up the amount exactly. */
  function Division(path1: PathEval, path2: PathEval, amount: nat, exactIn: bool, ratio: real): (e: Eval)
    ensures e.total > 0 ==> e.quotes.Some?
  {
    MulRatioAtMost(amount, ratio);
    var amt1 := MulRatio(amount, ratio);
    var amt2: nat := amount - amt1;
    if amt1 == 0 || amt2 == 0 then Eval(0, None)
    else
      var q1, q2 := path1(amt1), path2(amt2);
      if q1.Failure? || q2.Failure? then Eval(0, None)
      else if exactIn then Eval((q1.value.amountOut + q2.value.amountOut) % U64, Some((q1.value, q2.value)))
      else Eval((q1.value.amountIn + q2.value.amountIn) % U64, Some((q1.value, q2.value)))
  }

  datatype SplitQuote = SplitQuote(percent1: nat, percent2: nat, hops1: seq<HopQuote>, hops2: seq<HopQuote>,
                                   totalOut: nat, totalIn: nat, totalFee: nat, avgImpactBps: Bps)

  lemma AverageFits(x: nat, y: nat, p1: nat, p2: nat)
    requires x <= 0xFFFF * p1 && y <= 0xFFFF * p2 && p1 + p2 == 100
    ensures (x + y) / 100 < 0x1_0000
  {
  }

  function Weighted(impact: Bps, percent: nat): (r: nat)
    ensures r <= 0xFFFF * percent
  {
    MulOrder(impact, 0xFFFF, percent);
    impact * percent
  }

  function AverageImpact(i1: Bps, i2: Bps, p1: nat): Bps
    requires p1 <= 100
  {
    AverageFits(Weighted(i1, p1), Weighted(i2, 100 - p1), p1, 100 - p1);
    (Weighted(i1, p1) + Weighted(i2, 100 - p1)) / 100
  }

  function Percent(ratio: real): (p: nat)
    requires MIN_RATIO < ratio < MAX_RATIO
    ensures 10 <= p < 90
  {
    (ratio * 100.0).Floor
  }

  /** The answer built from an evaluation: none unless both paths were quoted. */
  function Assembled(e: Eval, amount: nat, exactIn: bool, ratio: real): Option<SplitQuote>
    requires MIN_RATIO < ratio < MAX_RATIO
  {
    match e.quotes
    case None => None
    case Some((q1, q2)) =>
      var p1 := Percent(ratio);
      Some(SplitQuote(p1, 100 - p1, q1.hops, q2.hops, if exactIn then e.total else amount,
                      if exactIn then amount else e.total, (q1.totalFee + q2.totalFee) % U64,
                      AverageImpact(q1.impactBps, q2.impactBps, p1)))
  }

  function Divisions(path1: PathEval, path2: PathEval, amount: nat, exactIn: bool): real -> Eval {
    ratio => Division(path1, path2, amount, exactIn, ratio)
  }

  /** The ratio the search settles on. */
  function Chosen(s: Shrink, path1: PathEval, path2: PathEval, amount: nat, exactIn: bool): (r: real)
    requires Golden(s)
    ensures MIN_RATIO < r < MAX_RATIO
  {
    var eval := Divisions(path1, path2, amount, exactIn);
    var points := Points(s, Prefers(eval, exactIn), ROUNDS);
    PickIsPoint(eval, exactIn, points);
    PointsInside(s, Prefers(eval, exactIn), ROUNDS);
    Pick(eval, exactIn, points)
  }

  method GoldenSectionSplitFast(g: real, path1: PathEval, path2: PathEval, amount: nat, exactIn: bool)
    returns (r: Option<SplitQuote>)
    requires IsGolden(g) && amount < U64
    ensures Golden(Over(g))
    ensures var ratio := Chosen(Over(g), path1, path2, amount, exactIn);
            r == Assembled(Division(path1, path2, amount, exactIn, ratio), amount, exactIn, ratio)
  {
    DivisionIsGolden(g);
    ghost var ratio := Chosen(Over(g), path1, path2, amount, exactIn);
    var eval := Divisions(path1, path2, amount, exactIn);
    var best, bestRatio := Search(Over(g), eval, exactIn);
    assert bestRatio == ratio && best == Division(path1, path2, amount, exactIn, ratio);
    r := Assembled(best, amount, exactIn, bestRatio);
  }

  // ---------- what the answer promises ----------

  /** Exact-in: no division evaluated in the ten rounds pays more than the one chosen. */
  lemma ExactInChoosesBest(s: Shrink, path1: PathEval, path2: PathEval, amount: nat)
    requires Golden(s)
    ensures var eval := Divisions(path1, path2, amount, true);
            (forall p :: p in Points(s, Prefers(eval, true), ROUNDS) ==>
               eval(p).total <= eval(Chosen(s, path1, path2, amount, true)).total)
  {
    var eval := Divisions(path1, path2, amount, true);
    ExactInPicksGreatest(eval, Points(s, Prefers(eval, true), ROUNDS));
  }

  /** Exact-out: there is an answer exactly when both paths quote at the first right-hand point. */
  lemma ExactOutAnswersIff(s: Shrink, path1: PathEval, path2: PathEval, amount: nat)
    requires Golden(s)
    ensures var ratio := Chosen(s, path1, path2, amount, false);
            (Assembled(Division(path1, path2, amount, false, ratio), amount, false, ratio).Some?
             <==> Division(path1, path2, amount, false, START.Right(s)).quotes.Some?)
  {
    var eval := Divisions(path1, path2, amount, false);
    var points := Points(s, Prefers(eval, false), ROUNDS);
    if eval(points[1]).total > 0 {
      ExactOutPicksLeast(eval, points);
    } else {
      ExactOutStuckAtZero(eval, points);
    }
  }

  lemma AverageRounds(i1: Bps, i2: Bps, p1: nat)
    requires p1 <= 100
    ensures var avg := AverageImpact(i1, i2, p1);
            avg * 100 <= i1 * p1 + i2 * (100 - p1) < avg * 100 + 100
  {
  }

  /** The answer adds up: it is that of quotes `q1` and `q2` for the ratio. */
  predicate AddsUp(r: SplitQuote, q1: PathQuote, q2: PathQuote, amount: nat, exactIn: bool, ratio: real) {
    && r.hops1 == q1.hops && r.hops2 == q2.hops
    && (exactIn ==> r.totalIn == amount && r.totalOut == (q1.amountOut + q2.amountOut) % U64)
    && (!exactIn ==> r.totalOut == amount && r.totalIn == (q1.amountIn + q2.amountIn) % U64)
    && r.totalFee == (q1.totalFee + q2.totalFee) % U64
    && r.percent1 + r.percent2 == 100 && r.percent1 as real <= ratio * 100.0 < r.percent1 as real + 1.0
    && var weighted := q1.impactBps * r.percent1 + q2.impactBps * r.percent2;
       r.avgImpactBps * 100 <= weighted < r.avgImpactBps * 100 + 100
  }

  lemma AssembledAddsUp(e: Eval, q1: PathQuote, q2: PathQuote, amount: nat, exactIn: bool, ratio: real)
    requires MIN_RATIO < ratio < MAX_RATIO && e.quotes == Some((q1, q2))
    requires e.total == (if exactIn then q1.amountOut + q2.amountOut else q1.amountIn + q2.amountIn) % U64
    ensures var r := Assembled(e, amount, exactIn, ratio); r.Some? && AddsUp(r.value, q1, q2, amount, exactIn, ratio)
  {
    AverageRounds(q1.impactBps, q2.impactBps, Percent(ratio));
  }

  /** Both paths quote parts of the amount that make it up. */
  predicate BothQuote(path1: PathEval, path2: PathEval, part: nat, amount: nat) {
    0 < part < amount && path1(part).Success? && path2(amount - part).Success?
  }

  /**
   * Whatever ratio is settled on, there is an answer exactly when both paths
   * quote their parts, which make up the amount. It puts the quotes together:
   * totals, fees and hops of both, percentages that make 100, and the mean
   * impact by those percentages.
   */
  lemma AnswerAddsUp(path1: PathEval, path2: PathEval, amount: nat, exactIn: bool, ratio: real)
    requires MIN_RATIO < ratio < MAX_RATIO
    ensures var part := MulRatio(amount, ratio);
            var r := Assembled(Division(path1, path2, amount, exactIn, ratio), amount, exactIn, ratio);
            && (r.Some? <==> BothQuote(path1, path2, part, amount))
            && (r.Some? ==>
                  AddsUp(r.value, path1(part).value, path2(amount - part).value, amount, exactIn, ratio))
  {
    MulRatioAtMost(amount, ratio);
    var part, e := MulRatio(amount, ratio), Division(path1, path2, amount, exactIn, ratio);
    if BothQuote(path1, path2, part, amount) {
      AssembledAddsUp(e, path1(part).value, path2(amount - part).value, amount, exactIn, ratio);
    } else {
      assert e.quotes == None;
    }
  }
}
