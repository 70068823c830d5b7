// Euclidean projection onto the probability simplex, over exact reals.
module Simplex {

  function Sum(s: seq<real>): real {
    if s == [] then 0.0 else Sum(s[..|s| - 1]) + s[|s| - 1]
  }

  ghost predicate InSimplex(z: seq<real>) {
    Sum(z) == 1.0 && forall i :: 0 <= i < |z| ==> z[i] >= 0.0
  }

  /** Squared Euclidean distance. */
  function Dist2(a: seq<real>, b: seq<real>): real
    requires |a| == |b|
  {
    if a == [] then 0.0 else
      var n := |a| - 1;
      Dist2(a[..n], b[..n]) + Times(a[n] - b[n], a[n] - b[n])
  }

  function Times(x: real, y: real): real {
    x * y
  }

  function Clip(x: real): real {
    if x < 0.0 then 0.0 else x
  }

  /** The vector lowered by `theta` and clipped at zero. */
  function Lowered(v: seq<real>, theta: real): (z: seq<real>)
    ensures |z| == |v| && forall i :: 0 <= i < |v| ==> z[i] == Clip(v[i] - theta)
  {
    seq(|v|, i requires 0 <= i < |v| => Clip(v[i] - theta))
  }

  // ---------- the threshold ----------

  ghost predicate Descending(u: seq<real>) {
    forall i, j :: 0 <= i < j < |u| ==> u[i] >= u[j]
  }

  /** Entry `j` stays positive if the threshold is computed from the first `j + 1` entries. */
  predicate StaysPositive(u: seq<real>, j: nat)
    requires j < |u|
  {
    u[j] > (Sum(u[..j + 1]) - 1.0) / (j + 1) as real
  }

  /** `rho` is one more than the last index that stays positive. */
  ghost predicate IsRho(u: seq<real>, rho: nat) {
    && 0 < rho <= |u|
    && StaysPositive(u, rho - 1)
    && forall j :: rho <= j < |u| ==> !StaysPositive(u, j)
  }

  function Theta(u: seq<real>, rho: nat): real
    requires 0 < rho <= |u|
  {
    (Sum(u[..rho]) - 1.0) / rho as real
  }

  lemma ScaleOrder(x: real, y: real, n: real)
    requires n > 0.0
    ensures (x / n) * n == x
    ensures y * n <= x ==> y <= x / n
    ensures y <= x / n ==> y * n <= x
  {
    assert (x / n) * n == x;
    assert (x / n - y) * n == x - y * n;
  }

  /** The first `rho` sorted entries lie above the threshold and the others do not. */
  lemma ThetaSeparates(u: seq<real>, rho: nat)
    requires Descending(u) && IsRho(u, rho)
    ensures forall i :: 0 <= i < rho ==> u[i] > Theta(u, rho)
    ensures forall i :: rho <= i < |u| ==> u[i] <= Theta(u, rho)
  {
    if rho < |u| {
      var n, s, x := rho as real, Sum(u[..rho]), u[rho];
      assert u[..rho + 1][..rho] == u[..rho];
      assert !StaysPositive(u, rho);
      ScaleOrder(s + x - 1.0, x, n + 1.0);
      assert x * (n + 1.0) == x * n + x;
      ScaleOrder(s - 1.0, x, n);
    }
  }

  // ---------- the projection lies in the simplex ----------

  function SumClipped(s: seq<real>, theta: real): real {
    if s == [] then 0.0 else SumClipped(s[..|s| - 1], theta) + Clip(s[|s| - 1] - theta)
  }

  lemma {:induction false} SumLowered(v: seq<real>, theta: real)
    ensures Sum(Lowered(v, theta)) == SumClipped(v, theta)
  {
    if v != [] {
      var n := |v| - 1;
      SumLowered(v[..n], theta);
      assert Lowered(v, theta)[..n] == Lowered(v[..n], theta);
    }
  }

  lemma {:induction false} SumClippedWithout(s: seq<real>, theta: real, k: nat)
    requires k < |s|
    ensures SumClipped(s, theta) == SumClipped(s[..k] + s[k + 1..], theta) + Clip(s[k] - theta)
  {
    var n := |s| - 1;
    if k < n {
      SumClippedWithout(s[..n], theta, k);
      var r := s[..k] + s[k + 1..];
      assert r[..|r| - 1] == s[..n][..k] + s[..n][k + 1..];
      assert r[|r| - 1] == s[n];
    } else {
      assert s[..k] + s[k + 1..] == s[..n];
    }
  }

  lemma MultisetWithout<T>(s: seq<T>, k: nat)
    requires k < |s|
    ensures multiset(s[..k] + s[k + 1..]) == multiset(s) - multiset{s[k]}
  {
    assert s == s[..k] + [s[k]] + s[k + 1..];
  }

  /** The clipped sum does not depend on the order. */
  lemma {:induction false} SumClippedPermutes(a: seq<real>, b: seq<real>, theta: real)
    requires multiset(a) == multiset(b)
    ensures SumClipped(a, theta) == SumClipped(b, theta)
    decreases |a|
  {
    assert |multiset(a)| == |a| && |multiset(b)| == |b|;
    if a != [] {
      var n := |a| - 1;
      assert a[n] in multiset(b);
      var k :| 0 <= k < |b| && b[k] == a[n];
      var rest := b[..k] + b[k + 1..];
      MultisetWithout(a, n);
      MultisetWithout(b, k);
      assert a[..n] + a[n + 1..] == a[..n];
      SumClippedPermutes(a[..n], rest, theta);
      SumClippedWithout(b, theta, k);
    }
  }

  lemma ScaleStep(k: nat, theta: real)
    requires k > 0
    ensures k as real * theta == (k - 1) as real * theta + theta
  {
  }

  /** Clipping only removes the entries from `rho` on. */
  lemma {:induction false} SumClippedSorted(u: seq<real>, rho: nat, theta: real, k: nat)
    requires rho <= |u| && k <= |u|
    requires forall i :: 0 <= i < rho ==> u[i] > theta
    requires forall i :: rho <= i < |u| ==> u[i] <= theta
    ensures SumClipped(u[..k], theta) ==
            if k <= rho then Sum(u[..k]) - k as real * theta else Sum(u[..rho]) - rho as real * theta
  {
    if k == 0 {
      assert u[..0] == [] && 0 as real * theta == 0.0;
    } else {
      SumClippedSorted(u, rho, theta, k - 1);
      assert u[..k][..k - 1] == u[..k - 1];
      assert SumClipped(u[..k], theta) == SumClipped(u[..k - 1], theta) + Clip(u[k - 1] - theta);
      if k <= rho {
        ScaleStep(k, theta);
      }
    }
  }

  /** What the projection computes: the vector lowered by the threshold of its sorted form. */
  ghost predicate IsProjection(z: seq<real>, v: seq<real>) {
    exists u, rho :: Thresholds(z, v, u, rho)
  }

  ghost predicate Thresholds(z: seq<real>, v: seq<real>, u: seq<real>, rho: nat) {
    && multiset(u) == multiset(v) && Descending(u) && IsRho(u, rho)
    && z == Lowered(v, Theta(u, rho))
  }

  lemma ClippedSumIsOne(u: seq<real>, rho: nat)
    requires Descending(u) && IsRho(u, rho)
    ensures SumClipped(u, Theta(u, rho)) == 1.0
  {
    ThetaSeparates(u, rho);
    SumClippedSorted(u, rho, Theta(u, rho), |u|);
    assert u[..|u|] == u;
    ScaleOrder(Sum(u[..rho]) - 1.0, 0.0, rho as real);
  }

  lemma ProjectionInSimplex(z: seq<real>, v: seq<real>, u: seq<real>, rho: nat)
    requires Thresholds(z, v, u, rho)
    ensures InSimplex(z) && |z| == |v|
  {
    var theta := Theta(u, rho);
    ClippedSumIsOne(u, rho);
    SumLowered(v, theta);
    SumClippedPermutes(v, u, theta);
  }

  // ---------- the projection is the nearest point ----------

  /** The sum of `c * (y[i] - z[i])`. */
  function Tilt(y: seq<real>, z: seq<real>, c: real): real
    requires |y| == |z|
  {
    if y == [] then 0.0 else
      var n := |y| - 1;
      Tilt(y[..n], z[..n], c) + Times(c, y[n] - z[n])
  }

  lemma {:induction false} TiltIsTotal(y: seq<real>, z: seq<real>, c: real)
    requires |y| == |z|
    ensures Tilt(y, z, c) == Times(c, Sum(y) - Sum(z))
  {
    if y != [] {
      var n := |y| - 1;
      TiltIsTotal(y[..n], z[..n], c);
      Distribute(c, Sum(y[..n]) - Sum(z[..n]), y[n] - z[n]);
    }
  }

  lemma NoTilt(y: seq<real>, z: seq<real>, c: real)
    requires |y| == |z| && Sum(y) == Sum(z)
    ensures Tilt(y, z, c) == 0.0
  {
    TiltIsTotal(y, z, c);
    assert Sum(y) - Sum(z) == 0.0 && Times(c, 0.0) == 0.0;
  }

  lemma Distribute(c: real, x: real, y: real)
    ensures Times(c, x + y) == Times(c, x) + Times(c, y)
  {
  }

  /**
   * The optimality condition, summed over the coordinates: moving from the
   * lowered vector to another non-negative one brings no gain but the tilt.
   */
  lemma {:induction false} LoweredIsNearest(v: seq<real>, y: seq<real>, z: seq<real>, theta: real, c: real)
    requires |y| == |z| == |v| && (forall i :: 0 <= i < |y| ==> y[i] >= 0.0 && z[i] == Clip(v[i] - theta))
    requires c == 2.0 * theta
    ensures Dist2(v, y) >= Dist2(v, z) + Dist2(y, z) - Tilt(y, z, c)
  {
    if v != [] {
      var n := |v| - 1;
      LoweredIsNearest(v[..n], y[..n], z[..n], theta, c);
      CoordinateGap(v[n], y[n], theta, c);
    }
  }

  lemma TimesPositive(x: real, y: real)
    requires (x > 0.0 && y > 0.0) || (x < 0.0 && y < 0.0)
    ensures Times(x, y) > 0.0
  {
    if x < 0.0 {
      assert Times(x, y) == (-x) * (-y);
    }
  }

  lemma CoordinateGap(v: real, y: real, theta: real, c: real)
    requires y >= 0.0 && c == 2.0 * theta
    ensures var z := Clip(v - theta);
            Times(v - y, v - y) >= Times(v - z, v - z) + Times(y - z, y - z) - Times(c, y - z)
  {
    var z := Clip(v - theta);
    assert Times(v - y, v - y) - Times(v - z, v - z) - Times(y - z, y - z) == 2.0 * (z - v) * (y - z);
    if v - theta >= 0.0 {
      assert z - v == -theta;
    } else {
      assert (theta - v) * y >= 0.0;
    }
  }

  lemma NearestOfSameTotal(v: seq<real>, y: seq<real>, z: seq<real>, theta: real)
    requires |y| == |v| && z == Lowered(v, theta) && Sum(y) == Sum(z) && forall i :: 0 <= i < |y| ==> y[i] >= 0.0
    ensures Dist2(v, y) >= Dist2(v, z) + Dist2(y, z)
  {
    NoTilt(y, z, 2.0 * theta);
    LoweredIsNearest(v, y, z, theta, 2.0 * theta);
  }

  /**
   * The projection is right: it lies in the simplex, no point of the simplex
   * is nearer to `v`, and no other point is as near.
   */
  lemma ProjectionIsNearest(z: seq<real>, v: seq<real>, y: seq<real>)
    requires IsProjection(z, v) && |y| == |v| && InSimplex(y)
    ensures InSimplex(z) && |z| == |v|
    ensures Dist2(v, y) >= Dist2(v, z) + Dist2(y, z)
    ensures Dist2(v, y) <= Dist2(v, z) ==> y == z
  {
    var u, rho :| Thresholds(z, v, u, rho);
    ProjectionInSimplex(z, v, u, rho);
    NearestOfSameTotal(v, y, z, Theta(u, rho));
    Dist2Zero(y, z);
  }

  lemma {:induction false} Dist2Zero(a: seq<real>, b: seq<real>)
    requires |a| == |b|
    ensures Dist2(a, b) >= 0.0
    ensures Dist2(a, b) <= 0.0 ==> a == b
  {
    if a != [] {
      var n := |a| - 1;
      Dist2Zero(a[..n], b[..n]);
      if a[n] != b[n] {
        TimesPositive(a[n] - b[n], a[n] - b[n]);
      }
      assert a == a[..n] + [a[n]] && b == b[..n] + [b[n]];
    }
  }

  /** Projecting twice changes nothing: a point of the simplex is its own projection. */
  lemma ProjectionFixesSimplex(z: seq<real>, v: seq<real>)
    requires IsProjection(z, v) && InSimplex(v)
    ensures z == v
  {
    ProjectionIsNearest(z, v, v);
    Dist2Self(v);
    Dist2Zero(v, z);
  }

  lemma {:induction false} Dist2Self(a: seq<real>)
    ensures Dist2(a, a) == 0.0
  {
    if a != [] {
      Dist2Self(a[..|a| - 1]);
    }
  }

  // ---------- the procedure ----------

  /** Insertion sort, largest first, in place. */
  method SortDescending(a: array<real>)
    modifies a
    ensures Descending(a[..]) && multiset(a[..]) == multiset(old(a[..]))
  {
    if a.Length == 0 {
      return;
    }
    for i := 1 to a.Length
      invariant Descending(a[..i])
      invariant multiset(a[..]) == multiset(old(a[..]))
    {
      InsertKey(a, i);
    }
    assert a[..a.Length] == a[..];
  }

  /** The sequence with the entries from `p` up to `i` moved one place right. */
  ghost function Gap(s: seq<real>, p: nat, i: nat): (r: seq<real>)
    requires p <= i < |s|
    ensures |r| == |s|
  {
    s[..p + 1] + s[p..i] + s[i + 1..]
  }

  lemma GapMoves(s: seq<real>, p: nat, i: nat)
    requires 0 < p <= i < |s|
    ensures Gap(s, p, i)[p - 1] == s[p - 1]
    ensures Gap(s, p, i)[p := s[p - 1]] == Gap(s, p - 1, i)
  {
  }

  /** Shifts the entries smaller than the one at `i` right, opening a gap for it at `p`. */
  method OpenGap(a: array<real>, i: nat, ghost s: seq<real>) returns (p: nat)
    requires i < a.Length && a[..] == s
    modifies a
    ensures p <= i && a[..] == Gap(s, p, i)
    ensures (0 < p ==> s[p - 1] >= s[i]) && forall k :: p <= k < i ==> s[k] < s[i]
  {
    var key := a[i];
    assert s[i] == key;
    p := i;
    assert Gap(s, i, i) == s;
    while p > 0 && a[p - 1] < key
      invariant p <= i && a[..] == Gap(s, p, i)
      invariant forall k :: p <= k < i ==> s[k] < key
    {
      GapMoves(s, p, i);
      ghost var was := a[..];
      a[p] := a[p - 1];
      assert a[..] == was[p := was[p - 1]];
      p := p - 1;
    }
    if p > 0 {
      GapMoves(s, p, i);
      assert a[p - 1] == a[..][p - 1];
    }
  }

  /** Moves the entry at `i` left to its place in the sorted prefix. */
  method InsertKey(a: array<real>, i: nat)
    requires i < a.Length && Descending(a[..i])
    modifies a
    ensures Descending(a[..i + 1]) && multiset(a[..]) == multiset(old(a[..]))
  {
    ghost var s := a[..];
    assert s[..i] == a[..i];
    var key := a[i];
    var p := OpenGap(a, i, s);
    ghost var gap := a[..];
    GapFilled(s, p, i);
    a[p] := key;
    assert a[..] == gap[p := key];
    InsertedDescending(s, p, i);
    InsertedPermutes(s, p, i);
    assert a[..i + 1] == a[..][..i + 1];
  }

  /** The sequence with the entry at `i` moved left to position `p`. */
  ghost function Inserted(s: seq<real>, p: nat, i: nat): seq<real>
    requires p <= i < |s|
  {
    s[..p] + [s[i]] + s[p..i] + s[i + 1..]
  }

  lemma GapFilled(s: seq<real>, p: nat, i: nat)
    requires p <= i < |s|
    ensures Gap(s, p, i)[p := s[i]] == Inserted(s, p, i)
  {
  }

  lemma InsertedDescending(s: seq<real>, p: nat, i: nat)
    requires p <= i < |s| && Descending(s[..i])
    requires 0 < p ==> s[p - 1] >= s[i]
    requires forall k :: p <= k < i ==> s[k] < s[i]
    ensures Descending(Inserted(s, p, i)[..i + 1])
  {
    var t := Inserted(s, p, i)[..i + 1];
    forall x, y | 0 <= x < y < |t| ensures t[x] >= t[y] {
      assert t[x] == if x < p then s[..i][x] else if x == p then s[i] else s[..i][x - 1];
      assert t[y] == if y < p then s[..i][y] else if y == p then s[i] else s[..i][y - 1];
      assert x < p ==> s[..i][x] >= s[..i][p - 1];
    }
  }

  lemma InsertedPermutes(s: seq<real>, p: nat, i: nat)
    requires p <= i < |s|
    ensures multiset(Inserted(s, p, i)) == multiset(s)
  {
    var a, b, c := s[..p], s[p..i], s[i + 1..];
    assert s == a + b + [s[i]] + c;
    assert multiset(s) == multiset(a) + multiset(b) + multiset{s[i]} + multiset(c);
    assert multiset(a + [s[i]] + b + c) == multiset(a) + multiset{s[i]} + multiset(b) + multiset(c);
  }

  /** The number of entries that stay positive. The first always does, so `rho` is never zero. */
  method FindRho(u: array<real>) returns (rho: nat)
    requires 0 < u.Length
    ensures IsRho(u[..], rho)
  {
    var cumSum := 0.0;
    rho := 0;
    for j := 0 to u.Length
      invariant cumSum == Sum(u[..j])
      invariant rho <= j && (0 < j ==> 0 < rho) && (0 < rho ==> StaysPositive(u[..], rho - 1))
      invariant forall k :: rho <= k < j ==> !StaysPositive(u[..], k)
    {
      assert u[..j + 1][..j] == u[..j] && u[..][..j + 1] == u[..j + 1];
      cumSum := cumSum + u[j];
      if u[j] > (cumSum - 1.0) / (j + 1) as real {
        rho := j + 1;
      }
    }
  }

  /** A sorted copy of `v`. */
  method SortInto(v: array<real>, sortBuf: array<real>)
    requires sortBuf.Length == v.Length && v != sortBuf
    modifies sortBuf
    ensures Descending(sortBuf[..]) && multiset(sortBuf[..]) == multiset(v[..])
  {
    for i := 0 to v.Length
      invariant sortBuf[..i] == v[..i]
    {
      sortBuf[i] := v[i];
    }
    assert sortBuf[..] == v[..];
    SortDescending(sortBuf);
  }

  /** The threshold of the first `rho` sorted entries. */
  method ThresholdOf(u: array<real>, rho: nat) returns (theta: real)
    requires 0 < rho <= u.Length
    ensures theta == Theta(u[..], rho)
  {
    var cumSum := 0.0;
    for j := 0 to rho
      invariant cumSum == Sum(u[..j])
    {
      assert u[..j + 1][..j] == u[..j];
      cumSum := cumSum + u[j];
    }
    assert u[..][..rho] == u[..rho];
    theta := (cumSum - 1.0) / rho as real;
  }

  /** Projects `v` into `out`, using `sortBuf` for the sorted copy. */
  method ProjectOntoSimplexInto(v: array<real>, out: array<real>, sortBuf: array<real>)
    requires out.Length == sortBuf.Length == v.Length && v != out && v != sortBuf && out != sortBuf
    modifies out, sortBuf
    ensures v.Length > 0 ==> IsProjection(out[..], v[..]) && InSimplex(out[..])
  {
    var n := v.Length;
    if n == 0 {
      return;
    }
    SortInto(v, sortBuf);
    var rho := FindRho(sortBuf);
    var theta := ThresholdOf(sortBuf, rho);
    ghost var u := sortBuf[..];
    for i := 0 to n
      invariant forall k :: 0 <= k < i ==> out[k] == Clip(v[k] - theta)
      invariant sortBuf[..] == u
    {
      var val := v[i] - theta;
      if val < 0.0 {
        val := 0.0;
      }
      out[i] := val;
    }
    assert Thresholds(out[..], v[..], u, rho);
    ProjectionInSimplex(out[..], v[..], u, rho);
  }
}
