// Whether the golden-section search keeps the peak of the totals, which are
// integers and so have plateaus, in its bracket.
module GoldenPeak {
  import opened PathEvaluator
  import opened GoldenSection

  /** What the search maximises: the total paid out, or the negated total paid in. */
  type Score = real -> int

  predicate InRange(x: real) {
    MIN_RATIO <= x <= MAX_RATIO
  }

  /** The comparison of the search is that of the scores. */
  ghost predicate Ranks(better: Beat, f: Score) {
    forall x, y :: InRange(x) && InRange(y) ==> (better(x, y) <==> f(x) > f(y))
  }

  /** Rising, not always strictly, up to `m`, and falling from there. */
  ghost predicate Unimodal(f: Score, m: real) {
    && InRange(m)
    && (forall x, y :: MIN_RATIO <= x <= y <= m ==> f(x) <= f(y))
    && (forall x, y :: m <= x <= y <= MAX_RATIO ==> f(x) >= f(y))
  }

  /** No plateau on either side of `m` is as wide as `gap`. */
  ghost predicate Sloped(f: Score, m: real, gap: real) {
    && (forall x, y :: MIN_RATIO <= x && x + gap <= y <= m ==> f(x) < f(y))
    && (forall x, y :: m <= x && x + gap <= y <= MAX_RATIO ==> f(x) > f(y))
  }

  predicate Holds(k: Bracket, m: real) {
    k.a <= m <= k.b
  }

  /** The golden points tie and the peak lies left of both. */
  predicate TiesRightOf(s: Shrink, f: Score, k: Bracket, m: real) {
    f(k.Left(s)) == f(k.Right(s)) && m < k.Left(s)
  }

  lemma NarrowedKeepsPeak(s: Shrink, better: Beat, f: Score, k: Bracket, m: real)
    requires Golden(s) && Ranks(better, f) && Unimodal(f, m) && MIN_RATIO <= k.a < k.b <= MAX_RATIO && Holds(k, m)
    ensures Holds(Narrowed(s, better, k), m) <==> !TiesRightOf(s, f, k, m)
  {
    PointsOrdered(s, k);
    assert better(k.Left(s), k.Right(s)) <==> f(k.Left(s)) > f(k.Right(s));
  }

  lemma NarrowedInside(s: Shrink, better: Beat, k: Bracket)
    requires Golden(s) && k.a < k.b
    ensures var n := Narrowed(s, better, k); k.a <= n.a < n.b <= k.b
  {
    PointsOrdered(s, k);
  }

  ghost predicate NoTieBefore(s: Shrink, better: Beat, f: Score, m: real, n: nat) {
    forall i: nat :: i < n ==> !TiesRightOf(s, f, After(s, better, i), m)
  }

  lemma OneMoreRound(s: Shrink, better: Beat, f: Score, m: real, n: nat)
    requires 0 < n
    ensures NoTieBefore(s, better, f, m, n)
         == (NoTieBefore(s, better, f, m, n - 1) && !TiesRightOf(s, f, After(s, better, n - 1), m))
  {
  }

  /** The peak is in the bracket exactly as long as no tie lay to its right. */
  lemma {:induction false} PeakKeptIffNoTie(s: Shrink, better: Beat, f: Score, m: real, n: nat)
    requires Golden(s) && Ranks(better, f) && Unimodal(f, m)
    ensures Holds(After(s, better, n), m) == NoTieBefore(s, better, f, m, n)
  {
    if n > 0 {
      var k := After(s, better, n - 1);
      PeakKeptIffNoTie(s, better, f, m, n - 1);
      InsideAfter(s, better, n - 1);
      NarrowedInside(s, better, k);
      if Holds(k, m) {
        NarrowedKeepsPeak(s, better, f, k, m);
      }
      OneMoreRound(s, better, f, m, n);
    }
  }

  // ---------- the distance of the golden points ----------

  /** The golden points of a bracket are as far apart as the bracket is wide three rounds later. */
  lemma PointsApart(s: Shrink, k: Bracket, n: nat)
    requires Golden(s) && k.b - k.a == Span(s, n)
    ensures k.Right(s) - k.Left(s) == Span(s, n + 3)
  {
    var w := Span(s, n);
    assert Span(s, n + 1) == s(w) && Span(s, n + 2) == s(s(w)) && Span(s, n + 3) == s(s(s(w)));
    assert Reuses(s, w) && Reuses(s, s(w));
  }

  lemma {:induction false} SpanShrinks(s: Shrink, j: nat, k: nat)
    requires Golden(s) && j <= k
    ensures 0.0 < Span(s, k) <= Span(s, j)
  {
    if k > 0 {
      if j < k {
        SpanShrinks(s, j, k - 1);
      } else {
        SpanShrinks(s, 0, k - 1);
      }
      assert Middling(s, Span(s, k - 1));
    }
  }

  /** The least distance of two golden points in the ten rounds. */
  function Gap(s: Shrink): real {
    Span(s, ROUNDS + 2)
  }

  lemma NoTieWhenSloped(s: Shrink, better: Beat, f: Score, m: real, i: nat)
    requires Golden(s) && Sloped(f, m, Gap(s)) && i < ROUNDS
    ensures !TiesRightOf(s, f, After(s, better, i), m)
  {
    var k := After(s, better, i);
    InsideAfter(s, better, i);
    PointsOrdered(s, k);
    PointsApart(s, k, i);
    SpanShrinks(s, i + 3, ROUNDS + 2);
  }

  /** Where no plateau is as wide as the gap, the peak is in the bracket at every round. */
  lemma PeakKept(s: Shrink, better: Beat, f: Score, m: real, n: nat)
    requires Golden(s) && Ranks(better, f) && Unimodal(f, m) && Sloped(f, m, Gap(s)) && n <= ROUNDS
    ensures Holds(After(s, better, n), m)
  {
    forall i: nat | i < n ensures !TiesRightOf(s, f, After(s, better, i), m) {
      NoTieWhenSloped(s, better, f, m, i);
    }
    PeakKeptIffNoTie(s, better, f, m, n);
  }

  // ---------- the chosen point is near the peak ----------

  /** A golden point of the bracket has been evaluated. */
  lemma {:induction false} GoldenPointsSeen(s: Shrink, better: Beat, n: nat)
    requires Golden(s)
    ensures After(s, better, n).Left(s) in Points(s, better, n)
    ensures After(s, better, n).Right(s) in Points(s, better, n)
  {
    if n > 0 {
      GoldenPointsSeen(s, better, n - 1);
      PointsReused(s, After(s, better, n - 1));
      assert NewPoint(s, better, n) in Points(s, better, n);
    }
  }

  /** Each end of the bracket is an end of the range, or has been evaluated. */
  lemma {:induction false} EndsSeen(s: Shrink, better: Beat, n: nat)
    requires Golden(s)
    ensures After(s, better, n).a == MIN_RATIO || After(s, better, n).a in Points(s, better, n)
    ensures After(s, better, n).b == MAX_RATIO || After(s, better, n).b in Points(s, better, n)
  {
    if n > 0 {
      EndsSeen(s, better, n - 1);
      GoldenPointsSeen(s, better, n - 1);
    }
  }

  /** `p` scores at least as high as every point evaluated. */
  ghost predicate Tops(f: Score, points: seq<real>, p: real) {
    p in points && forall q :: q in points ==> f(q) <= f(p)
  }

  lemma TopIsNearPeak(s: Shrink, better: Beat, f: Score, m: real, p: real)
    requires Golden(s) && Ranks(better, f) && Unimodal(f, m) && Sloped(f, m, Gap(s))
    requires Tops(f, Points(s, better, ROUNDS), p)
    ensures m - TOLERANCE - Gap(s) < p < m + TOLERANCE + Gap(s)
  {
    var k := After(s, better, ROUNDS);
    PeakKept(s, better, f, m, ROUNDS);
    InsideAfter(s, better, ROUNDS);
    EndsSeen(s, better, ROUNDS);
    PointsInside(s, better, ROUNDS);
    SpanShrinks(s, 0, ROUNDS + 2);
    assert Timely(s, ROUNDS);
  }

  /** The score of a division. */
  function ScoreOf(eval: real -> Eval, exactIn: bool): Score {
    x => Signed(eval(x).total, exactIn)
  }

  function Signed(total: int, exactIn: bool): int {
    if exactIn then total else -total
  }

  /** Exact-out: both paths quote at every ratio in the range. */
  ghost predicate Quoted(eval: real -> Eval, exactIn: bool) {
    forall x :: InRange(x) && !exactIn ==> eval(x).total > 0
  }

  lemma ScoreRanks(eval: real -> Eval, exactIn: bool, x: real, y: real)
    requires Quoted(eval, exactIn) && InRange(x) && InRange(y)
    ensures Prefers(eval, exactIn)(x, y) <==> ScoreOf(eval, exactIn)(x) > ScoreOf(eval, exactIn)(y)
  {
    assert Prefers(eval, exactIn)(x, y) == IsBetter(exactIn, eval(x).total, eval(y).total);
    assert ScoreOf(eval, exactIn)(x) == Signed(eval(x).total, exactIn);
    assert ScoreOf(eval, exactIn)(y) == Signed(eval(y).total, exactIn);
  }

  lemma ScoresRank(eval: real -> Eval, exactIn: bool)
    requires Quoted(eval, exactIn)
    ensures Ranks(Prefers(eval, exactIn), ScoreOf(eval, exactIn))
  {
    forall x, y | InRange(x) && InRange(y)
      ensures Prefers(eval, exactIn)(x, y) <==> ScoreOf(eval, exactIn)(x) > ScoreOf(eval, exactIn)(y)
    {
      ScoreRanks(eval, exactIn, x, y);
    }
  }

  lemma PickTops(eval: real -> Eval, exactIn: bool, points: seq<real>)
    requires 2 <= |points| && Quoted(eval, exactIn) && forall q :: q in points ==> InRange(q)
    ensures Tops(ScoreOf(eval, exactIn), points, Pick(eval, exactIn, points))
  {
    PickIsPoint(eval, exactIn, points);
    if exactIn {
      ExactInPicksGreatest(eval, points);
    } else {
      assert points[1] in points && InRange(points[1]) && eval(points[1]).total > 0;
      ExactOutPicksLeast(eval, points);
    }
  }

  /**
   * For totals that are unimodal without a plateau as wide as the least
   * distance of two golden points, the search keeps the peak in its bracket and
   * settles on a ratio within the tolerance and one gap of it.
   */
  lemma ChosenIsNearPeak(s: Shrink, path1: PathEval, path2: PathEval, amount: nat, exactIn: bool, m: real)
    requires Golden(s)
    requires var eval := Divisions(path1, path2, amount, exactIn);
             Quoted(eval, exactIn) && Unimodal(ScoreOf(eval, exactIn), m) && Sloped(ScoreOf(eval, exactIn), m, Gap(s))
    ensures Holds(After(s, Prefers(Divisions(path1, path2, amount, exactIn), exactIn), ROUNDS), m)
    ensures m - TOLERANCE - Gap(s) < Chosen(s, path1, path2, amount, exactIn) < m + TOLERANCE + Gap(s)
  {
    var eval := Divisions(path1, path2, amount, exactIn);
    ScoresRank(eval, exactIn);
    PeakKept(s, Prefers(eval, exactIn), ScoreOf(eval, exactIn), m, ROUNDS);
    PointsInside(s, Prefers(eval, exactIn), ROUNDS);
    PickTops(eval, exactIn, Points(s, Prefers(eval, exactIn), ROUNDS));
    TopIsNearPeak(s, Prefers(eval, exactIn), ScoreOf(eval, exactIn), m, Chosen(s, path1, path2, amount, exactIn));
  }

  /** With the golden ratio the gap is just below a quarter of a percent. */
  lemma GapIsSmall(g: real)
    requires IsGolden(g)
    ensures 0.0024 < Gap(Over(g)) < 0.0025
  {
    Powers(g);
    PowStep(g, 10, 55.0, 34.0);
    PowStep(g, 11, 89.0, 55.0);
    GoldenBounds(g);
    SpanScaled(g, 12);
    var w, p := Span(Over(g), 12), Pow(g, 12);
    assert 320.0 < p < 334.0;
    assert w * p == 0.8;
    assert (w - 0.0024) * p == 0.8 - 0.0024 * p && (w - 0.0025) * p == 0.8 - 0.0025 * p;
    Signs(w - 0.0024, p);
    Signs(w - 0.0025, p);
  }
}
