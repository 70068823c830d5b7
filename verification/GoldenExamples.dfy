// Three pairs of paths under the golden-section search: one whose peak it
// finds, one whose peak it loses, and one it leaves without an answer.
module GoldenExamples {
  import opened Domain
  import opened FixedPoint
  import opened SuperEdgeQuotes
  import opened PathEvaluator
  import opened GoldenSection
  import opened GoldenPeak

  function Paid(amountIn: nat, amountOut: nat): Result<PathQuote> {
    Success(PathQuote([], [], amountIn, amountOut, 0, 0))
  }

  /** Pays nothing. */
  function Nothing(): PathEval {
    (x: nat) => Paid(x, 0)
  }

  lemma GoldenStart(g: real)
    requires IsGolden(g)
    ensures 0.4 < START.Left(Over(g)) < 0.45 && 0.55 < START.Right(Over(g)) < 0.6
  {
    DivisionIsGolden(g);
    GoldenBounds(g);
    GoldenQuotient(0.8, g);
    assert (g - 1.62) * (g + 0.62) == g * g - g - 1.0044;
    Signs(g - 1.62, g + 0.62);
  }

  lemma DivisionPays(path1: PathEval, path2: PathEval, amount: nat, x: real, out1: nat, out2: nat)
    requires 0 < MulRatio(amount, x) < amount && out1 + out2 < U64
    requires path1(MulRatio(amount, x)) == Paid(MulRatio(amount, x), out1)
    requires path2(amount - MulRatio(amount, x)) == Paid(amount - MulRatio(amount, x), out2)
    ensures Division(path1, path2, amount, true, x).total == out1 + out2
  {
  }

  /** Scores that agree on the range have the same shape. */
  lemma SameShape(f: Score, h: Score, m: real, gap: real)
    requires forall x :: InRange(x) ==> f(x) == h(x)
    requires Unimodal(h, m)
    ensures Unimodal(f, m)
    ensures gap > 0.0 && Sloped(h, m, gap) ==> Sloped(f, m, gap)
  {
    assert forall x, y :: MIN_RATIO <= x <= y <= m ==> InRange(x) && InRange(y);
    assert forall x, y :: m <= x <= y <= MAX_RATIO ==> InRange(x) && InRange(y);
  }

  // ---------- a peak found ----------

  const MILLION: nat := 1_000_000

  function TentAt(x: int): int {
    if x <= 500_000 then x else MILLION - x
  }

  /** Pays most for half a million, and less for more or fewer. */
  function Tent(): PathEval {
    (x: nat) => Paid(x, if x <= MILLION then TentAt(x) else 0)
  }

  function TentScore(): Score {
    (x: real) => TentAt((x * 1_000_000.0).Floor)
  }

  lemma TentScored(x: real)
    requires InRange(x)
    ensures Divisions(Tent(), Nothing(), MILLION, true)(x).total == TentScore()(x)
  {
    var f := (x * 1_000_000.0).Floor;
    assert 0 < f < MILLION && MulRatio(MILLION, x) == f;
    DivisionPays(Tent(), Nothing(), MILLION, x, TentAt(f), 0);
  }

  lemma TentRises(x: real, y: real)
    requires MIN_RATIO <= x <= y <= 0.5
    ensures TentScore()(x) <= TentScore()(y) && (x + 0.002 <= y ==> TentScore()(x) < TentScore()(y))
  {
  }

  lemma TentFalls(x: real, y: real)
    requires 0.5 <= x <= y <= MAX_RATIO
    ensures TentScore()(x) >= TentScore()(y) && (x + 0.002 <= y ==> TentScore()(x) > TentScore()(y))
  {
  }

  lemma TentShape()
    ensures Unimodal(TentScore(), 0.5) && Sloped(TentScore(), 0.5, 0.002)
  {
    forall x, y | MIN_RATIO <= x <= y <= 0.5
      ensures TentScore()(x) <= TentScore()(y) && (x + 0.002 <= y ==> TentScore()(x) < TentScore()(y))
    {
      TentRises(x, y);
    }
    forall x, y | 0.5 <= x <= y <= MAX_RATIO
      ensures TentScore()(x) >= TentScore()(y) && (x + 0.002 <= y ==> TentScore()(x) > TentScore()(y))
    {
      TentFalls(x, y);
    }
  }

  lemma SlopedWider(f: Score, m: real, gap: real, wider: real)
    requires Sloped(f, m, gap) && gap <= wider
    ensures Sloped(f, m, wider)
  {
  }

  /** A division of a million that the peak theorem covers. */
  lemma TentIsFound(g: real)
    requires IsGolden(g)
    ensures Golden(Over(g))
    ensures Unimodal(ScoreOf(Divisions(Tent(), Nothing(), MILLION, true), true), 0.5)
    ensures Sloped(ScoreOf(Divisions(Tent(), Nothing(), MILLION, true), true), 0.5, Gap(Over(g)))
    ensures 0.487 < Chosen(Over(g), Tent(), Nothing(), MILLION, true) < 0.513
  {
    var f := ScoreOf(Divisions(Tent(), Nothing(), MILLION, true), true);
    DivisionIsGolden(g);
    GapIsSmall(g);
    forall x | InRange(x) ensures f(x) == TentScore()(x) {
      TentScored(x);
    }
    TentShape();
    SlopedWider(TentScore(), 0.5, 0.002, Gap(Over(g)));
    SameShape(f, TentScore(), 0.5, Gap(Over(g)));
    ChosenIsNearPeak(Over(g), Tent(), Nothing(), MILLION, true, 0.5);
  }

  // ---------- a peak lost ----------

  /** Pays one for amounts of at least 70. */
  function Threshold(): PathEval {
    (x: nat) => Paid(x, if x >= 70 then 1 else 0)
  }

  function ThresholdScore(): Score {
    (x: real) => if MulRatio(100, x) <= 30 then 1 else 0
  }

  lemma ThresholdScored(x: real)
    requires InRange(x)
    ensures Divisions(Nothing(), Threshold(), 100, true)(x).total == ThresholdScore()(x)
  {
    MulRatioBounds(100, x);
    assert 100 * (x * 1_000_000.0).Floor >= 10_000_000;
    assert 10 <= MulRatio(100, x) <= 90;
    DivisionPays(Nothing(), Threshold(), 100, x, 0, if MulRatio(100, x) <= 30 then 1 else 0);
  }

  lemma ThresholdShape()
    ensures Unimodal(ThresholdScore(), 0.2) && ThresholdScore()(0.2) == 1
    ensures forall x :: x >= 0.4 ==> ThresholdScore()(x) == 0
  {
    assert MulRatio(100, 0.2) == 20 && MulRatio(100, 0.4) == 40;
    forall x, y | x <= y ensures MulRatio(100, x) <= MulRatio(100, y) {
      MulRatioMonotone(100, x, y);
    }
  }

  lemma {:induction false} PointsRightOf(s: Shrink, better: Beat, n: nat)
    requires Golden(s) && !better(START.Left(s), START.Right(s))
    ensures forall p :: p in Points(s, better, n) ==> p >= START.Left(s)
    ensures n > 0 ==> After(s, better, n).a >= START.Left(s)
  {
    if n > 0 {
      PointsRightOf(s, better, n - 1);
      InsideAfter(s, better, n - 1);
      NarrowedInside(s, better, After(s, better, n - 1));
      InsideAfter(s, better, n);
      PointsOrdered(s, After(s, better, n));
    }
    PointsOrdered(s, START);
  }

  /** A search whose two first points tie settles right of the left one. */
  lemma PickRightOf(s: Shrink, eval: real -> Eval, n: nat)
    requires Golden(s) && eval(START.Left(s)).total == eval(START.Right(s)).total
    ensures Pick(eval, true, Points(s, Prefers(eval, true), n)) >= START.Left(s)
  {
    PointsRightOf(s, Prefers(eval, true), n);
    PickIsPoint(eval, true, Points(s, Prefers(eval, true), n));
  }

  lemma ThresholdPeak(f: Score)
    requires f == ScoreOf(Divisions(Nothing(), Threshold(), 100, true), true)
    ensures Unimodal(f, 0.2) && f(0.2) == 1
    ensures forall x :: 0.4 <= x <= MAX_RATIO ==> f(x) == 0
  {
    forall x | InRange(x) ensures f(x) == ThresholdScore()(x) {
      ThresholdScored(x);
    }
    ThresholdShape();
    SameShape(f, ThresholdScore(), 0.2, 1.0);
  }

  lemma PaysNothing(x: real)
    requires 0.4 <= x <= MAX_RATIO
    ensures Divisions(Nothing(), Threshold(), 100, true)(x).total == 0
  {
    ThresholdScored(x);
    ThresholdShape();
  }

  lemma ThresholdLost(s: Shrink)
    requires Golden(s) && 0.4 < START.Left(s) < START.Right(s) < 0.6
    ensures Divisions(Nothing(), Threshold(), 100, true)(Chosen(s, Nothing(), Threshold(), 100, true)).total == 0
  {
    var eval, chosen := Divisions(Nothing(), Threshold(), 100, true), Chosen(s, Nothing(), Threshold(), 100, true);
    PaysNothing(START.Left(s));
    PaysNothing(START.Right(s));
    PickRightOf(s, eval, ROUNDS);
    PaysNothing(chosen);
  }

  /**
   * A plateau loses the peak: both first golden points pay nothing, the tie
   * drops the left part, and with it every ratio that pays at all.
   */
  lemma PlateauLosesPeak(g: real)
    requires IsGolden(g)
    ensures Golden(Over(g))
    ensures Unimodal(ScoreOf(Divisions(Nothing(), Threshold(), 100, true), true), 0.2)
    ensures Divisions(Nothing(), Threshold(), 100, true)(0.2).total == 1
    ensures Divisions(Nothing(), Threshold(), 100, true)(Chosen(Over(g), Nothing(), Threshold(), 100, true)).total == 0
  {
    DivisionIsGolden(g);
    GoldenStart(g);
    ThresholdPeak(ScoreOf(Divisions(Nothing(), Threshold(), 100, true), true));
    ThresholdLost(Over(g));
  }

  // ---------- no answer ----------

  /** Quotes at most 50. */
  function AtMostFifty(): PathEval {
    (x: nat) => if x <= 50 then Paid(x, x) else Failure(NoRoute)
  }

  function Any(): PathEval {
    (x: nat) => Paid(x, x)
  }

  lemma FiftyQuoted(x: real)
    requires 0.4 < x < 0.6
    ensures Division(AtMostFifty(), Any(), 100, false, x).quotes.Some? <==> MulRatio(100, x) <= 50
    ensures x < 0.45 ==> MulRatio(100, x) <= 50
    ensures x > 0.55 ==> MulRatio(100, x) > 50
  {
    MulRatioBounds(100, x);
  }

  /** Exact-out: the first left point can be quoted, but the right one is refused, so nothing is answered. */
  lemma RightRefused(g: real)
    requires IsGolden(g)
    ensures Golden(Over(g))
    ensures Division(AtMostFifty(), Any(), 100, false, START.Left(Over(g))).quotes.Some?
    ensures var ratio := Chosen(Over(g), AtMostFifty(), Any(), 100, false);
            Assembled(Division(AtMostFifty(), Any(), 100, false, ratio), 100, false, ratio) == None
  {
    var s := Over(g);
    DivisionIsGolden(g);
    GoldenStart(g);
    FiftyQuoted(START.Left(s));
    FiftyQuoted(START.Right(s));
    ExactOutAnswersIff(s, AtMostFifty(), Any(), 100);
  }
}
