// Minimum-allocation enforcement: small active ratios are raised to a floor and
// the cost is taken from the larger ones in proportion to their surplus.
module MinAlloc {
  import opened Simplex

  const ACTIVE_THRESHOLD := 0.001

  predicate Active(r: real) {
    r > ACTIVE_THRESHOLD
  }

  function ActiveCount(s: seq<real>): nat {
    if s == [] then 0 else ActiveCount(s[..|s| - 1]) + if Active(s[|s| - 1]) then 1 else 0
  }

  function InactiveSum(s: seq<real>): real {
    if s == [] then 0.0 else InactiveSum(s[..|s| - 1]) + if Active(s[|s| - 1]) then 0.0 else s[|s| - 1]
  }

  /** The floor in force: the requested one, unless the active entries could not all have it. */
  function Floor(k: nat, minAlloc: real): real {
    if k as real * minAlloc > 1.0 then 1.0 / k as real else minAlloc
  }

  function Lack(r: real, m: real): real {
    if Active(r) && r < m then m - r else 0.0
  }

  function Excess(r: real, m: real): real {
    if r > m then r - m else 0.0
  }

  function Deficit(s: seq<real>, m: real): real {
    if s == [] then 0.0 else Deficit(s[..|s| - 1], m) + Lack(s[|s| - 1], m)
  }

  function Surplus(s: seq<real>, m: real): real {
    if s == [] then 0.0 else Surplus(s[..|s| - 1], m) + Excess(s[|s| - 1], m)
  }

  function Raised(s: seq<real>, m: real): (t: seq<real>)
    ensures |t| == |s| && forall i :: 0 <= i < |s| ==> t[i] == s[i] + Lack(s[i], m)
  {
    seq(|s|, i requires 0 <= i < |s| => s[i] + Lack(s[i], m))
  }

  /** The part of the deficit `d` borne by a surplus `x` out of a total of `p`. */
  function Share(d: real, x: real, p: real): real
    requires p > 0.0
  {
    d * (x / p)
  }

  function Reduced(t: seq<real>, m: real, d: real, p: real): (r: seq<real>)
    requires p > 0.0
    ensures |r| == |t| && forall i :: 0 <= i < |t| ==> r[i] == if t[i] > m then t[i] - Share(d, t[i] - m, p) else t[i]
  {
    seq(|t|, i requires 0 <= i < |t| => if t[i] > m then t[i] - Share(d, t[i] - m, p) else t[i])
  }

  function Scaled(t: seq<real>, total: real): (r: seq<real>)
    requires total > 0.0
    ensures |r| == |t| && forall i :: 0 <= i < |t| ==> r[i] == t[i] / total
  {
    seq(|t|, i requires 0 <= i < |t| => t[i] / total)
  }

  /** The ratios after raising and redistributing, before the final normalisation. */
  function Redistributed(s: seq<real>, m: real): (r: seq<real>)
    ensures |r| == |s|
  {
    var d, p := Deficit(s, m), Surplus(s, m);
    if d > 0.0 && p > 0.0 then Reduced(Raised(s, m), m, d, p) else Raised(s, m)
  }

  function Enforced(s: seq<real>, minAlloc: real): (r: seq<real>)
    ensures |r| == |s|
  {
    var k := ActiveCount(s);
    if k == 0 then s else
      var t := Redistributed(s, Floor(k, minAlloc));
      if Sum(t) > 0.0 then Scaled(t, Sum(t)) else t
  }

  // ---------- arithmetic of shares ----------

  lemma ShareAdds(d: real, x: real, y: real, p: real)
    requires p > 0.0
    ensures Share(d, x + y, p) == Share(d, x, p) + Share(d, y, p)
  {
    assert (x + y) / p == x / p + y / p;
    Distribute(d, x / p, y / p);
  }

  lemma ShareAll(d: real, p: real)
    requires p > 0.0
    ensures Share(d, p, p) == d && Share(d, 0.0, p) == 0.0
  {
    assert p / p == 1.0;
  }

  lemma ShareBounded(d: real, x: real, p: real)
    requires p > 0.0 && x >= 0.0 && d >= 0.0
    ensures d <= p ==> Share(d, x, p) <= x
    ensures d > p && x > 0.0 ==> Share(d, x, p) > x
  {
    var q := x / p;
    assert q * p == x;
    assert q >= 0.0;
    assert Share(d, x, p) - x == (d - p) * q;
    if d > p && x > 0.0 {
      assert q > 0.0;
      TimesPositive(d - p, q);
    }
  }

  // ---------- totals ----------

  lemma {:induction false} Balance(s: seq<real>, m: real)
    requires m > ACTIVE_THRESHOLD
    ensures Surplus(s, m) - Deficit(s, m) == Sum(s) - InactiveSum(s) - ActiveCount(s) as real * m
  {
    if s != [] {
      Balance(s[..|s| - 1], m);
      if Active(s[|s| - 1]) {
        ScaleStep(ActiveCount(s), m);
      }
    }
  }

  lemma {:induction false} PartsNonNegative(s: seq<real>, m: real)
    ensures Surplus(s, m) >= 0.0 && Deficit(s, m) >= 0.0
    ensures Surplus(s, m) > 0.0 ==> exists i :: 0 <= i < |s| && s[i] > m
    ensures Surplus(s, m) == 0.0 ==> forall i :: 0 <= i < |s| ==> s[i] <= m
    ensures Deficit(s, m) == 0.0 ==> forall i :: 0 <= i < |s| && Active(s[i]) ==> s[i] >= m
  {
    if s != [] {
      var n := |s| - 1;
      PartsNonNegative(s[..n], m);
      assert forall i :: 0 <= i < n ==> s[i] == s[..n][i];
      if Surplus(s[..n], m) > 0.0 {
        var i :| 0 <= i < n && s[..n][i] > m;
        assert s[i] > m;
      }
    }
  }

  lemma {:induction false} SumRaised(s: seq<real>, m: real)
    ensures Sum(Raised(s, m)) == Sum(s) + Deficit(s, m)
  {
    if s != [] {
      var n := |s| - 1;
      SumRaised(s[..n], m);
      assert Raised(s, m)[..n] == Raised(s[..n], m);
    }
  }

  lemma {:induction false} SurplusRaised(s: seq<real>, m: real)
    ensures Surplus(Raised(s, m), m) == Surplus(s, m)
  {
    if s != [] {
      var n := |s| - 1;
      SurplusRaised(s[..n], m);
      assert Raised(s, m)[..n] == Raised(s[..n], m);
    }
  }

  lemma {:induction false} SumReduced(t: seq<real>, m: real, d: real, p: real)
    requires p > 0.0
    ensures Sum(Reduced(t, m, d, p)) == Sum(t) - Share(d, Surplus(t, m), p)
  {
    ShareAll(d, p);
    if t != [] {
      var n := |t| - 1;
      SumReduced(t[..n], m, d, p);
      assert Reduced(t, m, d, p)[..n] == Reduced(t[..n], m, d, p);
      ShareAdds(d, Surplus(t[..n], m), Excess(t[n], m), p);
    }
  }

  lemma {:induction false} SumScaled(t: seq<real>, total: real)
    requires total > 0.0
    ensures Sum(Scaled(t, total)) == Sum(t) / total
  {
    if t != [] {
      var n := |t| - 1;
      SumScaled(t[..n], total);
      assert Scaled(t, total)[..n] == Scaled(t[..n], total);
      assert Sum(t) / total == Sum(t[..n]) / total + t[n] / total;
    }
  }

  lemma RedistributedSum(s: seq<real>, m: real)
    ensures var d, p := Deficit(s, m), Surplus(s, m);
            Sum(Redistributed(s, m)) == if p > 0.0 then Sum(s) else Sum(s) + d
  {
    var d, p := Deficit(s, m), Surplus(s, m);
    PartsNonNegative(s, m);
    SumRaised(s, m);
    if d > 0.0 && p > 0.0 {
      SurplusRaised(s, m);
      SumReduced(Raised(s, m), m, d, p);
      ShareAll(d, p);
    }
  }

  /** The total is conserved for every vector of ratios, of any length and for any floor. */
  lemma EnforcedConserves(s: seq<real>, minAlloc: real)
    requires InSimplex(s)
    ensures Sum(Enforced(s, minAlloc)) == 1.0
  {
    var k := ActiveCount(s);
    if k > 0 {
      var m := Floor(k, minAlloc);
      PartsNonNegative(s, m);
      RedistributedSum(s, m);
      ScaledToOne(Redistributed(s, m));
    }
  }

  lemma ScaledToOne(t: seq<real>)
    requires Sum(t) > 0.0
    ensures Sum(Scaled(t, Sum(t))) == 1.0
    ensures Sum(t) == 1.0 ==> Scaled(t, Sum(t)) == t
  {
    SumScaled(t, Sum(t));
    assert Sum(t) / Sum(t) == 1.0;
  }

  // ---------- the floor ----------

  /** Whether the surplus covers the deficit; a caller can compute this before the call. */
  predicate Feasible(s: seq<real>, minAlloc: real) {
    var k := ActiveCount(s);
    k as real * Floor(k, minAlloc) + InactiveSum(s) <= 1.0
  }

  lemma {:induction false} ActiveWeight(s: seq<real>)
    requires forall i :: 0 <= i < |s| ==> s[i] >= 0.0
    ensures InactiveSum(s) >= 0.0
    ensures Sum(s) - InactiveSum(s) >= ActiveCount(s) as real * ACTIVE_THRESHOLD
    ensures ActiveCount(s) > 0 ==> Sum(s) - InactiveSum(s) > ActiveCount(s) as real * ACTIVE_THRESHOLD
  {
    if s != [] {
      ActiveWeight(s[..|s| - 1]);
    }
  }

  lemma FloorAboveThreshold(s: seq<real>, minAlloc: real)
    requires InSimplex(s) && ActiveCount(s) > 0 && minAlloc > ACTIVE_THRESHOLD
    ensures Floor(ActiveCount(s), minAlloc) > ACTIVE_THRESHOLD
  {
    ActiveWeight(s);
    var k := ActiveCount(s) as real;
    assert k * ACTIVE_THRESHOLD < 1.0;
    assert (1.0 / k) * k == 1.0;
  }

  /** What becomes of a single ratio. */
  function Settled(x: real, m: real, d: real, p: real): real {
    var t := x + Lack(x, m);
    if d > 0.0 && p > 0.0 && t > m then t - Share(d, t - m, p) else t
  }

  lemma RedistributedAt(s: seq<real>, m: real, i: nat)
    requires i < |s|
    ensures Redistributed(s, m)[i] == Settled(s[i], m, Deficit(s, m), Surplus(s, m))
  {
  }

  lemma SettledBounds(x: real, m: real, d: real, p: real)
    requires m > ACTIVE_THRESHOLD && 0.0 <= d <= p
    ensures if Active(x) then Settled(x, m, d, p) >= m else Settled(x, m, d, p) == x
  {
    if d > 0.0 && x > m {
      ShareBounded(d, x - m, p);
    }
  }

  lemma SettledOrder(x: real, y: real, m: real, d: real, p: real)
    requires m > ACTIVE_THRESHOLD && 0.0 <= d <= p && x <= y
    ensures Settled(x, m, d, p) <= Settled(y, m, d, p)
  {
    SettledBounds(x, m, d, p);
    SettledBounds(y, m, d, p);
    if d > 0.0 && x > m {
      ShareAdds(d, x - m, y - x, p);
      ShareBounded(d, y - x, p);
    }
  }

  lemma FeasibleIffCovered(s: seq<real>, minAlloc: real)
    requires InSimplex(s) && ActiveCount(s) > 0 && minAlloc > ACTIVE_THRESHOLD
    ensures var m := Floor(ActiveCount(s), minAlloc);
            Feasible(s, minAlloc) <==> Deficit(s, m) <= Surplus(s, m)
  {
    var k, m := ActiveCount(s), Floor(ActiveCount(s), minAlloc);
    FloorAboveThreshold(s, minAlloc);
    Balance(s, m);
    assert Feasible(s, minAlloc) <==> k as real * m + InactiveSum(s) <= 1.0;
  }

  /** On feasible ratios the result is the redistribution itself: normalising it changes nothing. */
  lemma FeasibleTotal(s: seq<real>, minAlloc: real)
    requires InSimplex(s) && ActiveCount(s) > 0 && minAlloc > ACTIVE_THRESHOLD && Feasible(s, minAlloc)
    ensures var t := Redistributed(s, Floor(ActiveCount(s), minAlloc));
            Sum(t) == 1.0 && Enforced(s, minAlloc) == t
  {
    var m := Floor(ActiveCount(s), minAlloc);
    FeasibleIffCovered(s, minAlloc);
    PartsNonNegative(s, m);
    RedistributedSum(s, m);
    ScaledToOne(Redistributed(s, m));
  }

  /** Inactive entries are kept, active ones reach the floor, and the order is kept. */
  ghost predicate RespectsFloor(s: seq<real>, r: seq<real>, m: real) {
    && |r| == |s|
    && (forall i :: 0 <= i < |s| ==> if Active(s[i]) then r[i] >= m else r[i] == s[i])
    && (forall i, j :: 0 <= i < |s| && 0 <= j < |s| && s[i] <= s[j] ==> r[i] <= r[j])
  }

  lemma FeasibleRespectsFloor(s: seq<real>, minAlloc: real)
    requires InSimplex(s) && ActiveCount(s) > 0 && minAlloc > ACTIVE_THRESHOLD && Feasible(s, minAlloc)
    ensures RespectsFloor(s, Enforced(s, minAlloc), Floor(ActiveCount(s), minAlloc))
    ensures InSimplex(Enforced(s, minAlloc))
  {
    var m, r := Floor(ActiveCount(s), minAlloc), Enforced(s, minAlloc);
    var d, p := Deficit(s, m), Surplus(s, m);
    FeasibleTotal(s, minAlloc);
    FeasibleIffCovered(s, minAlloc);
    FloorAboveThreshold(s, minAlloc);
    PartsNonNegative(s, m);
    forall i | 0 <= i < |s| ensures r[i] == Settled(s[i], m, d, p) {
      RedistributedAt(s, m, i);
    }
    forall i | 0 <= i < |s| ensures if Active(s[i]) then r[i] >= m else r[i] == s[i] {
      SettledBounds(s[i], m, d, p);
    }
    forall i, j | 0 <= i < |s| && 0 <= j < |s| && s[i] <= s[j] ensures r[i] <= r[j] {
      SettledOrder(s[i], s[j], m, d, p);
    }
  }

  // ---------- exactness of the condition ----------

  lemma {:induction false} SomeActive(s: seq<real>)
    requires ActiveCount(s) > 0
    ensures exists i :: 0 <= i < |s| && Active(s[i])
  {
    var n := |s| - 1;
    if !Active(s[n]) {
      SomeActive(s[..n]);
      var i :| 0 <= i < n && Active(s[..n][i]);
      assert Active(s[i]);
    }
  }

  lemma OvershootFallsShort(s: seq<real>, minAlloc: real)
    requires InSimplex(s) && ActiveCount(s) > 0
    requires var m := Floor(ActiveCount(s), minAlloc);
             m > ACTIVE_THRESHOLD && 0.0 < Surplus(s, m) < Deficit(s, m)
    ensures exists i :: 0 <= i < |s| && Active(s[i]) && Enforced(s, minAlloc)[i] < Floor(ActiveCount(s), minAlloc)
  {
    var m := Floor(ActiveCount(s), minAlloc);
    var t := Redistributed(s, m);
    PartsNonNegative(s, m);
    RedistributedSum(s, m);
    var i :| 0 <= i < |s| && s[i] > m;
    RedistributedAt(s, m, i);
    ShareBounded(Deficit(s, m), s[i] - m, Surplus(s, m));
    assert t[i] < m;
    ScaledToOne(t);
    assert Enforced(s, minAlloc)[i] == t[i];
  }

  lemma NoSurplusFallsShort(s: seq<real>, minAlloc: real)
    requires InSimplex(s) && ActiveCount(s) > 0
    requires var m := Floor(ActiveCount(s), minAlloc);
             m > ACTIVE_THRESHOLD && Surplus(s, m) == 0.0 < Deficit(s, m)
    ensures exists i :: 0 <= i < |s| && Active(s[i]) && Enforced(s, minAlloc)[i] < Floor(ActiveCount(s), minAlloc)
  {
    var m := Floor(ActiveCount(s), minAlloc);
    var t := Redistributed(s, m);
    PartsNonNegative(s, m);
    RedistributedSum(s, m);
    SomeActive(s);
    var i :| 0 <= i < |s| && Active(s[i]);
    RedistributedAt(s, m, i);
    ShrinksBelow(m, Sum(t));
    assert Enforced(s, minAlloc)[i] == m / Sum(t);
  }

  /** Without enough surplus some active entry ends below the floor. */
  lemma InfeasibleFallsShort(s: seq<real>, minAlloc: real)
    requires InSimplex(s) && ActiveCount(s) > 0 && minAlloc > ACTIVE_THRESHOLD && !Feasible(s, minAlloc)
    ensures exists i :: 0 <= i < |s| && Active(s[i]) && Enforced(s, minAlloc)[i] < Floor(ActiveCount(s), minAlloc)
  {
    FeasibleIffCovered(s, minAlloc);
    FloorAboveThreshold(s, minAlloc);
    PartsNonNegative(s, Floor(ActiveCount(s), minAlloc));
    if Surplus(s, Floor(ActiveCount(s), minAlloc)) > 0.0 {
      OvershootFallsShort(s, minAlloc);
    } else {
      NoSurplusFallsShort(s, minAlloc);
    }
  }

  lemma ShrinksBelow(m: real, total: real)
    requires m > 0.0 && total > 1.0
    ensures m / total < m
  {
    var q := m / total;
    assert q * total == m;
    assert q > 0.0;
    TimesPositive(q, total - 1.0);
    assert Times(q, total - 1.0) == m - q;
  }

  /** The floor is reached by every active entry exactly when the ratios are feasible. */
  lemma FloorReachedIffFeasible(s: seq<real>, minAlloc: real)
    requires InSimplex(s) && ActiveCount(s) > 0 && minAlloc > ACTIVE_THRESHOLD
    ensures Feasible(s, minAlloc) <==>
            forall i :: 0 <= i < |s| && Active(s[i]) ==> Enforced(s, minAlloc)[i] >= Floor(ActiveCount(s), minAlloc)
  {
    if Feasible(s, minAlloc) {
      FeasibleRespectsFloor(s, minAlloc);
    } else {
      InfeasibleFallsShort(s, minAlloc);
    }
  }

  // ---------- a second application ----------

  lemma {:induction false} SameActives(s: seq<real>, r: seq<real>, m: real)
    requires |r| == |s| && m > ACTIVE_THRESHOLD
    requires forall i :: 0 <= i < |s| ==> if Active(s[i]) then r[i] >= m else r[i] == s[i]
    ensures ActiveCount(r) == ActiveCount(s) && Deficit(r, m) == 0.0
  {
    if s != [] {
      var n := |s| - 1;
      assert forall i :: 0 <= i < n ==> s[..n][i] == s[i] && r[..n][i] == r[i];
      SameActives(s[..n], r[..n], m);
    }
  }

  /** Enforcing the floor again changes nothing. */
  lemma EnforcedTwice(s: seq<real>, minAlloc: real)
    requires InSimplex(s) && ActiveCount(s) > 0 && minAlloc > ACTIVE_THRESHOLD && Feasible(s, minAlloc)
    ensures Enforced(Enforced(s, minAlloc), minAlloc) == Enforced(s, minAlloc)
  {
    var m, r := Floor(ActiveCount(s), minAlloc), Enforced(s, minAlloc);
    FeasibleRespectsFloor(s, minAlloc);
    FloorAboveThreshold(s, minAlloc);
    SameActives(s, r, m);
    NothingLacking(r, m);
    ScaledToOne(r);
  }

  lemma NothingLacking(r: seq<real>, m: real)
    requires Deficit(r, m) == 0.0
    ensures Redistributed(r, m) == r
  {
    PartsNonNegative(r, m);
  }

  // ---------- up to twenty paths ----------

  lemma {:induction false} InactiveIsSmall(s: seq<real>)
    ensures InactiveSum(s) <= (|s| - ActiveCount(s)) as real * ACTIVE_THRESHOLD
    ensures ActiveCount(s) <= |s|
  {
    if s != [] {
      InactiveIsSmall(s[..|s| - 1]);
    }
  }

  /** With a floor of 5% every vector of at most twenty ratios is feasible, and the floor is 5%. */
  lemma TwentyPathsAreFeasible(s: seq<real>)
    requires InSimplex(s) && ActiveCount(s) > 0 && |s| <= 20
    ensures Feasible(s, 0.05) && Floor(ActiveCount(s), 0.05) == 0.05
  {
    InactiveIsSmall(s);
    var k := ActiveCount(s);
    assert k as real * 0.05 <= 1.0;
    assert k < 20 ==> k as real * 0.05 <= 0.95;
  }

  // ---------- twenty-one paths ----------

  /** `base` followed by `n` entries of `r`. */
  function Padded(base: seq<real>, n: nat, r: real): (s: seq<real>)
    ensures |s| == |base| + n
  {
    if n == 0 then base else Padded(base, n - 1, r) + [r]
  }

  lemma {:induction false} PaddedAt(base: seq<real>, n: nat, r: real, i: nat)
    requires i < |base| + n
    ensures Padded(base, n, r)[i] == if i < |base| then base[i] else r
  {
    if n > 0 && i < |base| + n - 1 {
      PaddedAt(base, n - 1, r, i);
    }
  }

  lemma PaddedNonNegative(base: seq<real>, n: nat, r: real)
    requires r >= 0.0 && forall i :: 0 <= i < |base| ==> base[i] >= 0.0
    ensures forall i :: 0 <= i < |base| + n ==> Padded(base, n, r)[i] >= 0.0
  {
    forall i | 0 <= i < |base| + n ensures Padded(base, n, r)[i] >= 0.0 {
      PaddedAt(base, n, r, i);
    }
  }

  lemma Appended(s: seq<real>, r: real, m: real)
    ensures ActiveCount(s + [r]) == ActiveCount(s) + if Active(r) then 1 else 0
    ensures InactiveSum(s + [r]) == InactiveSum(s) + if Active(r) then 0.0 else r
    ensures Sum(s + [r]) == Sum(s) + r
    ensures Deficit(s + [r], m) == Deficit(s, m) + Lack(r, m)
    ensures Surplus(s + [r], m) == Surplus(s, m) + Excess(r, m)
  {
    assert (s + [r])[..|s|] == s;
  }

  lemma TimesStep(n: nat, r: real)
    requires n > 0
    ensures Times(n as real, r) == Times((n - 1) as real, r) + r
  {
  }

  lemma {:induction false} PaddedCount(base: seq<real>, n: nat, r: real)
    ensures Active(r) ==> ActiveCount(Padded(base, n, r)) == ActiveCount(base) + n
    ensures !Active(r) ==> ActiveCount(Padded(base, n, r)) == ActiveCount(base)
  {
    if n == 0 {
      assert Padded(base, 0, r) == base;
    } else {
      PaddedCount(base, n - 1, r);
      var before := Padded(base, n - 1, r);
      assert Padded(base, n, r) == before + [r];
      Appended(before, r, 0.0);
      assert ActiveCount(Padded(base, n, r)) == ActiveCount(before) + if Active(r) then 1 else 0;
    }
  }

  lemma {:induction false} PaddedSums(base: seq<real>, n: nat, r: real)
    ensures InactiveSum(Padded(base, n, r)) == InactiveSum(base) + if Active(r) then 0.0 else Times(n as real, r)
    ensures Sum(Padded(base, n, r)) == Sum(base) + Times(n as real, r)
  {
    if n == 0 {
      assert Padded(base, 0, r) == base && Times(0.0, r) == 0.0;
    } else {
      PaddedSums(base, n - 1, r);
      var before := Padded(base, n - 1, r);
      assert Padded(base, n, r) == before + [r];
      Appended(before, r, 0.0);
      TimesStep(n, r);
    }
  }

  lemma {:induction false} PaddedParts(base: seq<real>, n: nat, r: real, m: real)
    ensures Deficit(Padded(base, n, r), m) == Deficit(base, m) + Times(n as real, Lack(r, m))
    ensures Surplus(Padded(base, n, r), m) == Surplus(base, m) + Times(n as real, Excess(r, m))
  {
    if n == 0 {
      assert Padded(base, 0, r) == base;
      assert Times(0.0, Lack(r, m)) == 0.0 && Times(0.0, Excess(r, m)) == 0.0;
    } else {
      PaddedParts(base, n - 1, r, m);
      var before := Padded(base, n - 1, r);
      assert Padded(base, n, r) == before + [r];
      Appended(before, r, m);
      TimesStep(n, Lack(r, m));
      TimesStep(n, Excess(r, m));
    }
  }

  lemma PaddedTotals(base: seq<real>, n: nat, r: real, m: real)
    ensures ActiveCount(Padded(base, n, r)) == ActiveCount(base) + (if Active(r) then n else 0)
    ensures InactiveSum(Padded(base, n, r)) == InactiveSum(base) + if Active(r) then 0.0 else Times(n as real, r)
    ensures Sum(Padded(base, n, r)) == Sum(base) + Times(n as real, r)
    ensures Deficit(Padded(base, n, r), m) == Deficit(base, m) + Times(n as real, Lack(r, m))
    ensures Surplus(Padded(base, n, r), m) == Surplus(base, m) + Times(n as real, Excess(r, m))
  {
    PaddedCount(base, n, r);
    PaddedSums(base, n, r);
    PaddedParts(base, n, r, m);
  }

  /** The bound of twenty is sharp: an inactive twenty-first entry leaves too little for the floor. */
  lemma TwentyOneFallShort()
    ensures var s := Padded(Padded([], 20, 0.04995), 1, 0.001);
            && |s| == 21 && InSimplex(s) && !Feasible(s, 0.05) && Floor(ActiveCount(s), 0.05) == 0.05
            && exists i :: 0 <= i < |s| && Active(s[i]) && Enforced(s, 0.05)[i] < 0.05
  {
    var s := Padded(Padded([], 20, 0.04995), 1, 0.001);
    PaddedTotals([], 20, 0.04995, 0.05);
    PaddedTotals(Padded([], 20, 0.04995), 1, 0.001, 0.05);
    PaddedNonNegative([], 20, 0.04995);
    PaddedNonNegative(Padded([], 20, 0.04995), 1, 0.001);
    assert ActiveCount(s) == 20 && InactiveSum(s) == 0.001 && Sum(s) == 1.0;
    InfeasibleFallsShort(s, 0.05);
  }

  // ---------- when the result stays non-negative ----------

  /** An entry `x` does not bear more of the deficit `d` than it has. */
  predicate Bears(x: real, m: real, d: real, p: real) {
    x > m ==> Times(d, x - m) <= Times(p, x)
  }

  ghost predicate Bearable(s: seq<real>, minAlloc: real) {
    var m := Floor(ActiveCount(s), minAlloc);
    forall i :: 0 <= i < |s| ==> Bears(s[i], m, Deficit(s, m), Surplus(s, m))
  }

  lemma ShareAgainst(d: real, x: real, p: real, y: real)
    requires p > 0.0
    ensures Share(d, x, p) <= y <==> Times(d, x) <= Times(p, y)
  {
    var q := x / p;
    assert q * p == x;
    assert Times(p, y) - Times(d, x) == Times(p, y - d * q);
    if y - d * q > 0.0 {
      TimesPositive(p, y - d * q);
    } else if d * q - y > 0.0 {
      TimesPositive(p, d * q - y);
    }
  }

  lemma SettledSign(x: real, m: real, d: real, p: real)
    requires x >= 0.0 && m >= 0.0 && d >= 0.0 && p >= 0.0 && (x > m ==> p > 0.0)
    ensures Settled(x, m, d, p) >= 0.0 <==> Bears(x, m, d, p)
  {
    if x > m {
      ShareAgainst(d, x - m, p, x);
    }
  }

  lemma QuotientSign(x: real, total: real)
    requires total > 0.0
    ensures x / total >= 0.0 <==> x >= 0.0
  {
    assert (x / total) * total == x;
  }

  lemma EnforcedAt(s: seq<real>, minAlloc: real, i: nat)
    requires InSimplex(s) && ActiveCount(s) > 0 && i < |s|
    ensures var t := Redistributed(s, Floor(ActiveCount(s), minAlloc));
            Sum(t) > 0.0 && Enforced(s, minAlloc)[i] == t[i] / Sum(t)
  {
    var m := Floor(ActiveCount(s), minAlloc);
    PartsNonNegative(s, m);
    RedistributedSum(s, m);
  }

  lemma EnforcedSign(s: seq<real>, minAlloc: real, i: nat)
    requires InSimplex(s) && ActiveCount(s) > 0 && minAlloc > ACTIVE_THRESHOLD && i < |s|
    ensures var m := Floor(ActiveCount(s), minAlloc);
            Enforced(s, minAlloc)[i] >= 0.0 <==> Bears(s[i], m, Deficit(s, m), Surplus(s, m))
  {
    var m := Floor(ActiveCount(s), minAlloc);
    var t := Redistributed(s, m);
    FloorAboveThreshold(s, minAlloc);
    EnforcedAt(s, minAlloc, i);
    QuotientSign(t[i], Sum(t));
    RedistributedAt(s, m, i);
    PartsNonNegative(s, m);
    SettledSign(s[i], m, Deficit(s, m), Surplus(s, m));
  }

  /** Beyond twenty entries a ratio can become negative: none does exactly when the cost is bearable. */
  lemma NonNegativeIffBearable(s: seq<real>, minAlloc: real)
    requires InSimplex(s) && ActiveCount(s) > 0 && minAlloc > ACTIVE_THRESHOLD
    ensures (forall i :: 0 <= i < |s| ==> Enforced(s, minAlloc)[i] >= 0.0) <==> Bearable(s, minAlloc)
    ensures Feasible(s, minAlloc) ==> Bearable(s, minAlloc)
  {
    forall i | 0 <= i < |s|
      ensures var m := Floor(ActiveCount(s), minAlloc);
              Enforced(s, minAlloc)[i] >= 0.0 <==> Bears(s[i], m, Deficit(s, m), Surplus(s, m))
    {
      EnforcedSign(s, minAlloc, i);
    }
    if Feasible(s, minAlloc) {
      FeasibleRespectsFloor(s, minAlloc);
    }
  }

  /** Sixty inactive entries beside twenty active ones take more from the largest than it has. */
  lemma EightyGoNegative()
    ensures var s := Padded(Padded(Padded([], 60, 0.001), 19, 0.04), 1, 0.18);
            |s| == 80 && InSimplex(s) && Enforced(s, 0.05)[79] < 0.0
  {
    var small := Padded([], 60, 0.001);
    var most := Padded(small, 19, 0.04);
    var s := Padded(most, 1, 0.18);
    PaddedTotals([], 60, 0.001, 0.05);
    PaddedTotals(small, 19, 0.04, 0.05);
    PaddedTotals(most, 1, 0.18, 0.05);
    PaddedNonNegative([], 60, 0.001);
    PaddedNonNegative(small, 19, 0.04);
    PaddedNonNegative(most, 1, 0.18);
    PaddedAt(most, 1, 0.18, 79);
    assert Floor(ActiveCount(s), 0.05) == 0.05 && Deficit(s, 0.05) == 0.19 && Surplus(s, 0.05) == 0.13;
    EnforcedSign(s, 0.05, 79);
  }

  // ---------- the procedure ----------

  method CountActive(ratios: array<real>) returns (k: nat)
    ensures k == ActiveCount(ratios[..])
  {
    k := 0;
    for i := 0 to ratios.Length
      invariant k == ActiveCount(ratios[..i])
    {
      assert ratios[..i + 1][..i] == ratios[..i];
      if ratios[i] > ACTIVE_THRESHOLD {
        k := k + 1;
      }
    }
    assert ratios[..] == ratios[..ratios.Length];
  }

  /** Raises the small entries in place and measures deficit and surplus on the way. */
  method RaiseInPlace(ratios: array<real>, m: real) returns (deficit: real, surplus: real)
    modifies ratios
    ensures ratios[..] == Raised(old(ratios[..]), m)
    ensures deficit == Deficit(old(ratios[..]), m) && surplus == Surplus(old(ratios[..]), m)
  {
    ghost var s := ratios[..];
    deficit, surplus := 0.0, 0.0;
    for i := 0 to ratios.Length
      invariant deficit == Deficit(s[..i], m) && surplus == Surplus(s[..i], m)
      invariant forall k :: 0 <= k < ratios.Length ==> ratios[k] == if k < i then s[k] + Lack(s[k], m) else s[k]
    {
      assert s[..i + 1][..i] == s[..i];
      if ratios[i] > ACTIVE_THRESHOLD && ratios[i] < m {
        deficit := deficit + (m - ratios[i]);
        ratios[i] := m;
      } else if ratios[i] > m {
        surplus := surplus + (ratios[i] - m);
      }
    }
    assert s[..ratios.Length] == s;
  }

  method ReduceInPlace(ratios: array<real>, m: real, deficit: real, surplusTotal: real)
    requires surplusTotal > 0.0
    modifies ratios
    ensures ratios[..] == Reduced(old(ratios[..]), m, deficit, surplusTotal)
  {
    ghost var t := ratios[..];
    for i := 0 to ratios.Length
      invariant forall k :: 0 <= k < ratios.Length ==>
        ratios[k] == if k < i && t[k] > m then t[k] - Share(deficit, t[k] - m, surplusTotal) else t[k]
    {
      if ratios[i] > m {
        var surplus := ratios[i] - m;
        var reduction := deficit * (surplus / surplusTotal);
        ratios[i] := ratios[i] - reduction;
      }
    }
  }

  method NormalizeInPlace(ratios: array<real>)
    modifies ratios
    ensures var t := old(ratios[..]); ratios[..] == if Sum(t) > 0.0 then Scaled(t, Sum(t)) else t
  {
    ghost var t := ratios[..];
    var sum := 0.0;
    for i := 0 to ratios.Length
      invariant sum == Sum(t[..i]) && ratios[..] == t
    {
      assert t[..i + 1][..i] == t[..i];
      sum := sum + ratios[i];
    }
    assert t[..ratios.Length] == t;
    if sum > 0.0 {
      for i := 0 to ratios.Length
        invariant forall k :: 0 <= k < ratios.Length ==> ratios[k] == if k < i then t[k] / sum else t[k]
      {
        ratios[i] := ratios[i] / sum;
      }
    }
  }

  method RedistributeInPlace(ratios: array<real>, m: real)
    modifies ratios
    ensures ratios[..] == Redistributed(old(ratios[..]), m)
  {
    var deficit, surplusTotal := RaiseInPlace(ratios, m);
    if deficit > 0.0 && surplusTotal > 0.0 {
      ReduceInPlace(ratios, m, deficit, surplusTotal);
    }
  }

  /** Enforces the floor in place. */
  method EnforceMinimumAllocationInPlace(ratios: array<real>, minAlloc: real)
    modifies ratios
    ensures ratios[..] == Enforced(old(ratios[..]), minAlloc)
  {
    ghost var s := ratios[..];
    var activeCount := CountActive(ratios);
    if activeCount == 0 {
      return;
    }
    var effectiveMin := Floor(activeCount, minAlloc);
    RedistributeInPlace(ratios, effectiveMin);
    ghost var t := ratios[..];
    assert t == Redistributed(s, effectiveMin);
    NormalizeInPlace(ratios);
    assert ratios[..] == if Sum(t) > 0.0 then Scaled(t, Sum(t)) else t;
  }
}
