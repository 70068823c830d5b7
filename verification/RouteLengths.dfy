// What the routes of a search are, all of them: each token known to both sides
// stands for one route through it, as long as its two distances together.
module RouteLengths {
  import opened Network
  import opened Search

  // ---------- every meeting is recorded once it is seen ----------

  ghost predicate NonEmpty(m: Trails) {
    forall v :: v in m ==> m[v] != []
  }

  /** Both sides have visited `v`, and `path` joins their two recorded walks. */
  predicate Joins(back: bool, m: Trails, far: Trails, v: TokenID, path: seq<TokenID>) {
    v in m && v in far && path == Route(back, m[v], far[v])
  }

  ghost predicate SomeJoins(back: bool, m: Trails, far: Trails, path: seq<TokenID>) {
    exists v: TokenID :: Joins(back, m, far, v, path)
  }

  /** The stored routes are exactly those through the tokens met so far. */
  ghost predicate Accounted(back: bool, m: Trails, far: Trails, paths: seq<seq<TokenID>>) {
    && (forall i :: 0 <= i < |paths| ==> SomeJoins(back, m, far, paths[i]))
    && (forall v: TokenID, path :: Joins(back, m, far, v, path) ==> path in paths)
  }

  lemma RecordHolds(paths: seq<seq<TokenID>>, back: bool, path: seq<TokenID>)
    ensures path in Record(paths, back, path)
    ensures paths <= Record(paths, back, path)
    ensures forall i :: |paths| <= i < |Record(paths, back, path)| ==> Record(paths, back, path)[i] == path
  {
    if !(back && path in paths) {
      assert Record(paths, back, path)[|paths|] == path;
    }
  }

  lemma VisitAccounts(sw: Sweep, far: Trails, back: bool, u: TokenID, n: TokenID)
    requires NonEmpty(sw.seen) && NonEmpty(far) && Accounted(back, sw.seen, far, sw.paths)
    ensures NonEmpty(Visit(sw, far, back, u, n).seen)
    ensures Accounted(back, Visit(sw, far, back, u, n).seen, far, Visit(sw, far, back, u, n).paths)
  {
    if n !in sw.seen {
      var r := Visit(sw, far, back, u, n);
      if n in far {
        RecordHolds(sw.paths, back, Route(back, r.seen[n], far[n]));
      }
      forall i | 0 <= i < |r.paths| ensures SomeJoins(back, r.seen, far, r.paths[i]) {
        if i < |sw.paths| {
          var v: TokenID :| Joins(back, sw.seen, far, v, sw.paths[i]);
          assert Joins(back, r.seen, far, v, r.paths[i]);
        } else {
          assert Joins(back, r.seen, far, n, r.paths[i]);
        }
      }
      forall v: TokenID, path | Joins(back, r.seen, far, v, path) ensures path in r.paths {
        if v != n {
          assert Joins(back, sw.seen, far, v, path);
        }
      }
    }
  }

  lemma {:induction false} VisitAllAccounts(sw: Sweep, far: Trails, back: bool, u: TokenID, ns: seq<TokenID>)
    requires NonEmpty(sw.seen) && NonEmpty(far) && Accounted(back, sw.seen, far, sw.paths)
    ensures NonEmpty(VisitAll(sw, far, back, u, ns).seen)
    ensures Accounted(back, VisitAll(sw, far, back, u, ns).seen, far, VisitAll(sw, far, back, u, ns).paths)
    decreases |ns|
  {
    if ns != [] && !Full(sw) {
      VisitAccounts(sw, far, back, u, ns[0]);
      VisitAllAccounts(Visit(sw, far, back, u, ns[0]), far, back, u, ns[1..]);
    }
  }

  lemma {:induction false} SweepAllAccounts(g: Net, sw: Sweep, far: Trails, back: bool, us: seq<TokenID>)
    requires NonEmpty(sw.seen) && NonEmpty(far) && Accounted(back, sw.seen, far, sw.paths)
    ensures NonEmpty(SweepAll(g, sw, far, back, us).seen)
    ensures Accounted(back, SweepAll(g, sw, far, back, us).seen, far, SweepAll(g, sw, far, back, us).paths)
    decreases |us|
  {
    if us != [] && !Full(sw) {
      VisitAllAccounts(sw, far, back, us[0], Neighbors(g, us[0]));
      SweepAllAccounts(g, VisitAll(sw, far, back, us[0], Neighbors(g, us[0])), far, back, us[1..]);
    }
  }

  ghost predicate StageAccounted(st: Stage) {
    NonEmpty(st.fwd.seen) && NonEmpty(st.bwd.seen) && Accounted(false, st.fwd.seen, st.bwd.seen, st.paths)
  }

  lemma AccountedTurned(back: bool, turned: bool, m: Trails, far: Trails, paths: seq<seq<TokenID>>)
    requires turned == !back && Accounted(back, m, far, paths)
    ensures Accounted(turned, far, m, paths)
  {
    forall i | 0 <= i < |paths| ensures SomeJoins(turned, far, m, paths[i]) {
      var v: TokenID :| Joins(back, m, far, v, paths[i]);
      assert Joins(turned, far, m, v, paths[i]);
    }
    forall v: TokenID, path | Joins(turned, far, m, v, path) ensures path in paths {
      assert Joins(back, m, far, v, path);
    }
  }

  lemma RoundAccounts(g: Net, st: Stage)
    requires StageAccounted(st)
    ensures StageAccounted(Round(g, st))
  {
    SweepAllAccounts(g, Sweep(st.fwd.seen, [], st.paths), st.bwd.seen, false, st.fwd.frontier);
    var f := Forward(g, st.fwd, st.bwd, st.paths);
    if !Full(f) {
      AccountedTurned(false, true, f.seen, st.bwd.seen, f.paths);
      SweepAllAccounts(g, Sweep(st.bwd.seen, [], f.paths), f.seen, true, st.bwd.frontier);
      var b := Backward(g, f, st.bwd);
      AccountedTurned(true, false, b.seen, f.seen, b.paths);
    }
  }

  lemma {:induction false} RoundsAccount(g: Net, st: Stage, k: nat)
    requires StageAccounted(st)
    ensures StageAccounted(Rounds(g, st, k))
    decreases k
  {
    if k > 0 && !st.done {
      RoundAccounts(g, st);
      RoundsAccount(g, Round(g, st), k - 1);
    }
  }

  // ---------- recorded walks are shortest ----------

  /** Token `v` is exactly `h` hops from `r`. */
  ghost predicate AtDistance(g: Net, r: TokenID, v: TokenID, h: nat) {
    && (exists p :: WalkBetween(g, p, r, v) && |p| == h + 1)
    && (forall p :: WalkBetween(g, p, r, v) ==> |p| >= h + 1)
  }

  /** Every recorded walk is a shortest one, and at most `d` hops long. */
  ghost predicate Trusted(g: Net, r: TokenID, m: Trails, d: nat) {
    forall v :: v in m ==> WalkBetween(g, m[v], r, v) && |m[v]| <= d + 1 && AtDistance(g, r, v, |m[v]| - 1)
  }

  lemma CoversTrusted(g: Net, r: TokenID, m: Trails, d: nat)
    requires Covers(g, r, m, d)
    ensures Trusted(g, r, m, d)
  {
    forall v | v in m ensures AtDistance(g, r, v, |m[v]| - 1) {
      assert WalkBetween(g, m[v], r, v) && |m[v]| == |m[v]| - 1 + 1;
    }
  }

  lemma GrownTrusted(g: Net, r: TokenID, side: Side, sw: Sweep, d: nat)
    requires Layered(g, r, side, d) && Grown(g, r, side.seen, sw, d)
    ensures Trusted(g, r, sw.seen, d + 1)
  {
    CoversTrusted(g, r, side.seen, d);
    forall v | v in sw.seen && v !in side.seen ensures AtDistance(g, r, v, |sw.seen[v]| - 1) {
      assert WalkBetween(g, sw.seen[v], r, v) && |sw.seen[v]| == d + 2;
    }
  }

  lemma TrustedMore(g: Net, r: TokenID, m: Trails, d: nat, e: nat)
    requires Trusted(g, r, m, d) && d <= e
    ensures Trusted(g, r, m, e)
  {
  }

  /** What a finished search knows: shortest walks on both sides, and all of them unless ten routes stopped it. */
  ghost predicate Settled(g: Net, s: TokenID, t: TokenID, st: Stage, e: nat) {
    && Trusted(g, s, st.fwd.seen, e) && Trusted(g, t, st.bwd.seen, e)
    && (|st.paths| < MAX_PATHS ==> Covers(g, s, st.fwd.seen, e) && Covers(g, t, st.bwd.seen, e))
  }

  /** After a round that filled up, the walks recorded so far are still shortest. */
  lemma RoundTrusted(g: Net, s: TokenID, t: TokenID, st: Stage, d: nat)
    requires RoundInv(g, s, t, st.fwd, st.bwd, st.paths, d)
    ensures Trusted(g, s, Round(g, st).fwd.seen, d + 1) && Trusted(g, t, Round(g, st).bwd.seen, d + 1)
  {
    ForwardKeeps(g, s, t, st.fwd, st.bwd, st.paths, d);
    var f := Forward(g, st.fwd, st.bwd, st.paths);
    GrownTrusted(g, s, st.fwd, f, d);
    if Full(f) {
      CoversTrusted(g, t, st.bwd.seen, d);
      TrustedMore(g, t, st.bwd.seen, d, d + 1);
    } else {
      BackwardKeeps(g, s, t, f, st.bwd, d);
      GrownTrusted(g, t, st.bwd, Backward(g, f, st.bwd), d);
    }
  }

  lemma StuckSettles(g: Net, s: TokenID, t: TokenID, st: Stage, d: nat, e: nat)
    requires RoundInv(g, s, t, st.fwd, st.bwd, st.paths, d) && d <= e
    requires (st.fwd.frontier == [] && st.bwd.frontier == []) || d == e
    ensures Settled(g, s, t, st, e)
  {
    if d < e {
      ExhaustedCovers(g, s, st.fwd, d, e);
      ExhaustedCovers(g, t, st.bwd, d, e);
    }
    CoversTrusted(g, s, st.fwd.seen, e);
    CoversTrusted(g, t, st.bwd.seen, e);
  }

  lemma LastRoundSettles(g: Net, s: TokenID, t: TokenID, st: Stage, d: nat, e: nat)
    requires RoundInv(g, s, t, st.fwd, st.bwd, st.paths, d) && !st.done && d < e && Round(g, st).done
    ensures Settled(g, s, t, Round(g, st), e)
  {
    var r := Round(g, st);
    RoundKeeps(g, s, t, st, d);
    if |r.paths| >= MAX_PATHS {
      RoundTrusted(g, s, t, st, d);
      TrustedMore(g, s, r.fwd.seen, d + 1, e);
      TrustedMore(g, t, r.bwd.seen, d + 1, e);
    } else {
      StuckSettles(g, s, t, r, d + 1, e);
    }
  }

  lemma {:induction false} RoundsSettle(g: Net, s: TokenID, t: TokenID, st: Stage, d: nat, k: nat, e: nat)
    requires RoundInv(g, s, t, st.fwd, st.bwd, st.paths, d) && !st.done && e == d + k
    ensures Settled(g, s, t, Rounds(g, st, k), e)
    decreases k
  {
    if d == e {
      RoundsEnd(g, st, k);
      StuckSettles(g, s, t, st, d, e);
      return;
    }
    var r, rest := Round(g, st), k - 1;
    RoundsStep(g, st, k, rest);
    if r.done {
      RoundsEnd(g, r, rest);
      LastRoundSettles(g, s, t, st, d, e);
    } else {
      RoundKeeps(g, s, t, st, d);
      RoundsSettle(g, s, t, r, d + 1, rest, e);
    }
  }

  // ---------- the routes and the tokens they meet at ----------

  /** Token `v` is `a` hops from the input and `b` from the output, both within `e`. */
  ghost predicate Between(g: Net, s: TokenID, t: TokenID, v: TokenID, a: nat, b: nat, e: nat) {
    a <= e && b <= e && AtDistance(g, s, v, a) && AtDistance(g, t, v, b)
  }

  /** The route takes `a` hops to `v` and `b` more to its end. */
  predicate Passes(path: seq<TokenID>, v: TokenID, a: nat, b: nat) {
    |path| == a + b + 1 && path[a] == v
  }

  /** The route leads over `v`, which is near both ends, by shortest walks. */
  ghost predicate PassesVia(g: Net, s: TokenID, t: TokenID, path: seq<TokenID>, v: TokenID, a: nat, b: nat, e: nat) {
    Between(g, s, t, v, a, b, e) && Passes(path, v, a, b)
  }

  ghost predicate PassesSome(g: Net, s: TokenID, t: TokenID, path: seq<TokenID>, e: nat) {
    exists v: TokenID, a: nat, b: nat :: PassesVia(g, s, t, path, v, a, b, e)
  }

  ghost predicate SomePasses(paths: seq<seq<TokenID>>, v: TokenID, a: nat, b: nat) {
    exists i :: 0 <= i < |paths| && Passes(paths[i], v, a, b)
  }

  /** Every route leads over a token near both ends. */
  ghost predicate AllMeet(g: Net, s: TokenID, t: TokenID, paths: seq<seq<TokenID>>, e: nat) {
    forall i :: 0 <= i < |paths| ==> PassesSome(g, s, t, paths[i], e)
  }

  /** Every token near both ends has a route over it. */
  ghost predicate AllPassed(g: Net, s: TokenID, t: TokenID, paths: seq<seq<TokenID>>, e: nat) {
    forall v: TokenID, a: nat, b: nat :: Between(g, s, t, v, a, b, e) ==> SomePasses(paths, v, a, b)
  }

  /** A side that covers `e` hops has recorded a token at most that far, by a shortest walk. */
  lemma CoveredAt(g: Net, r: TokenID, m: Trails, e: nat, v: TokenID, h: nat)
    requires Covers(g, r, m, e) && AtDistance(g, r, v, h) && h <= e
    ensures v in m && |m[v]| == h + 1 && WalkBetween(g, m[v], r, v)
  {
    var p :| WalkBetween(g, p, r, v) && |p| == h + 1;
    assert v in m && |m[v]| <= |p|;
  }

  lemma SplicePasses(g: Net, s: TokenID, t: TokenID, v: TokenID, front: seq<TokenID>, rear: seq<TokenID>)
    requires WalkBetween(g, front, s, v) && WalkBetween(g, rear, t, v)
    ensures Passes(Splice(front, rear), v, |front| - 1, |rear| - 1)
  {
  }

  lemma JoinPasses(g: Net, s: TokenID, t: TokenID, m: Trails, far: Trails, e: nat, v: TokenID)
    requires Trusted(g, s, m, e) && Trusted(g, t, far, e) && v in m && v in far
    ensures PassesSome(g, s, t, Splice(m[v], far[v]), e)
  {
    var a, b := |m[v]| - 1, |far[v]| - 1;
    SplicePasses(g, s, t, v, m[v], far[v]);
    assert PassesVia(g, s, t, Splice(m[v], far[v]), v, a, b, e);
  }

  lemma RouteMeets(g: Net, s: TokenID, t: TokenID, r: Stage, e: nat, i: nat)
    requires Settled(g, s, t, r, e) && StageAccounted(r) && i < |r.paths|
    ensures PassesSome(g, s, t, r.paths[i], e)
  {
    var v: TokenID :| Joins(false, r.fwd.seen, r.bwd.seen, v, r.paths[i]);
    JoinPasses(g, s, t, r.fwd.seen, r.bwd.seen, e, v);
  }

  lemma MeetingPassed(g: Net, s: TokenID, t: TokenID, r: Stage, e: nat, v: TokenID, a: nat, b: nat)
    requires Settled(g, s, t, r, e) && StageAccounted(r) && |r.paths| < MAX_PATHS && Between(g, s, t, v, a, b, e)
    ensures SomePasses(r.paths, v, a, b)
  {
    CoveredAt(g, s, r.fwd.seen, e, v, a);
    CoveredAt(g, t, r.bwd.seen, e, v, b);
    var path := Splice(r.fwd.seen[v], r.bwd.seen[v]);
    SplicePasses(g, s, t, v, r.fwd.seen[v], r.bwd.seen[v]);
    assert Joins(false, r.fwd.seen, r.bwd.seen, v, path);
    var i :| 0 <= i < |r.paths| && r.paths[i] == path;
    assert Passes(r.paths[i], v, a, b);
  }

  /**
   * Without a direct edge every route leads over some token within the depth
   * of both ends, by a shortest walk to it and a shortest walk from it; and
   * unless ten routes stopped the search, every such token has its own route.
   */
  lemma EveryMeetingHasItsRoute(g: Net, s: TokenID, t: TokenID, maxHops: int)
    requires Symmetric(g) && s != t && 1 <= maxHops && !Edge(g, s, t)
    ensures var paths, e := FindRoutes(g, s, t, maxHops), DepthPerSide(maxHops);
            AllMeet(g, s, t, paths, e) && (|paths| < MAX_PATHS ==> AllPassed(g, s, t, paths, e))
  {
    var e, st := DepthPerSide(maxHops), Start(s, t);
    var r := Rounds(g, st, e);
    StartInv(g, s, t);
    RoundsAccount(g, st, e);
    RoundsSettle(g, s, t, st, 0, e, e);
    forall i | 0 <= i < |r.paths| ensures PassesSome(g, s, t, r.paths[i], e) {
      RouteMeets(g, s, t, r, e, i);
    }
    if |r.paths| < MAX_PATHS {
      forall v: TokenID, a: nat, b: nat | Between(g, s, t, v, a, b, e) ensures SomePasses(r.paths, v, a, b) {
        MeetingPassed(g, s, t, r, e, v, a, b);
      }
    }
  }

  // ---------- the lengths of all routes ----------

  /** Some route has `h` hops. */
  ghost predicate HasHops(paths: seq<seq<TokenID>>, h: nat) {
    exists i :: 0 <= i < |paths| && |paths[i]| == h + 1
  }

  ghost predicate SomeBetween(g: Net, s: TokenID, t: TokenID, h: nat, e: nat) {
    exists v: TokenID, a: nat, b: nat :: Between(g, s, t, v, a, b, e) && a + b == h
  }

  lemma HopsBetween(g: Net, s: TokenID, t: TokenID, paths: seq<seq<TokenID>>, e: nat, h: nat)
    requires AllMeet(g, s, t, paths, e) && HasHops(paths, h)
    ensures SomeBetween(g, s, t, h, e)
  {
    var i :| 0 <= i < |paths| && |paths[i]| == h + 1;
    var v: TokenID, a: nat, b: nat :| PassesVia(g, s, t, paths[i], v, a, b, e);
    assert Between(g, s, t, v, a, b, e) && a + b == h;
  }

  lemma BetweenHops(g: Net, s: TokenID, t: TokenID, paths: seq<seq<TokenID>>, e: nat, h: nat)
    requires AllPassed(g, s, t, paths, e) && SomeBetween(g, s, t, h, e)
    ensures HasHops(paths, h)
  {
    var v: TokenID, a: nat, b: nat :| Between(g, s, t, v, a, b, e) && a + b == h;
    assert SomePasses(paths, v, a, b);
  }

  /**
   * The hop counts of the routes, when there is no direct edge: every route is
   * as long as the two distances of some token within the depth of both ends,
   * and unless ten routes stopped the search, all such lengths occur.
   */
  lemma RouteLengthsAreExact(g: Net, s: TokenID, t: TokenID, maxHops: int, h: nat)
    requires Symmetric(g) && s != t && 1 <= maxHops && !Edge(g, s, t)
    ensures var paths, e := FindRoutes(g, s, t, maxHops), DepthPerSide(maxHops);
            && (HasHops(paths, h) ==> SomeBetween(g, s, t, h, e))
            && (|paths| < MAX_PATHS ==> (HasHops(paths, h) <==> SomeBetween(g, s, t, h, e)))
  {
    var paths, e := FindRoutes(g, s, t, maxHops), DepthPerSide(maxHops);
    EveryMeetingHasItsRoute(g, s, t, maxHops);
    if HasHops(paths, h) {
      HopsBetween(g, s, t, paths, e, h);
    }
    if |paths| < MAX_PATHS && SomeBetween(g, s, t, h, e) {
      BetweenHops(g, s, t, paths, e, h);
    }
  }

  // ---------- odd hop limits ----------

  ghost predicate Overshoots(paths: seq<seq<TokenID>>, maxHops: int) {
    exists i :: 0 <= i < |paths| && |paths[i]| - 1 > maxHops
  }

  /** Some token lies exactly `e` hops from both ends. */
  ghost predicate HasMidpoint(g: Net, s: TokenID, t: TokenID, e: nat) {
    exists v: TokenID :: AtDistance(g, s, v, e) && AtDistance(g, t, v, e)
  }

  lemma IndirectOvershoots(g: Net, s: TokenID, t: TokenID, maxHops: int, e: nat)
    requires Symmetric(g) && s != t && !Edge(g, s, t)
    requires 1 <= maxHops && maxHops + 1 == 2 * e && e == DepthPerSide(maxHops)
    ensures var paths := FindRoutes(g, s, t, maxHops);
            && (Overshoots(paths, maxHops) ==> HasMidpoint(g, s, t, e))
            && (|paths| < MAX_PATHS ==> (Overshoots(paths, maxHops) <==> HasMidpoint(g, s, t, e)))
  {
    SearchIsComplete(g, s, t, maxHops);
    OvershootHops(g, s, t, FindRoutes(g, s, t, maxHops), maxHops, e);
    RouteLengthsAreExact(g, s, t, maxHops, 2 * e);
    FarthestIsMidpoint(g, s, t, e);
  }

  /**
   * For an odd limit a route may take one hop too many. It does so only if
   * there is no direct edge and some token lies half of that many hops from
   * both ends; and unless ten routes stopped the search, it then always does,
   * however short the shortest walk is.
   */
  lemma OddBoundOvershoots(g: Net, s: TokenID, t: TokenID, maxHops: int)
    requires Symmetric(g) && s != t && 1 <= maxHops && maxHops % 2 == 1
    ensures var paths, e := FindRoutes(g, s, t, maxHops), DepthPerSide(maxHops);
            && (Overshoots(paths, maxHops) ==> !Edge(g, s, t) && HasMidpoint(g, s, t, e))
            && (|paths| < MAX_PATHS ==> (Overshoots(paths, maxHops) <==> !Edge(g, s, t) && HasMidpoint(g, s, t, e)))
  {
    if Edge(g, s, t) {
      assert FindRoutes(g, s, t, maxHops) == [[s, t]];
    } else {
      IndirectOvershoots(g, s, t, maxHops, DepthPerSide(maxHops));
    }
  }

  lemma OvershootHops(g: Net, s: TokenID, t: TokenID, paths: seq<seq<TokenID>>, maxHops: int, e: nat)
    requires Sound(g, s, t, paths, 2 * e) && maxHops + 1 == 2 * e
    ensures Overshoots(paths, maxHops) <==> HasHops(paths, 2 * e)
  {
    if Overshoots(paths, maxHops) {
      var i :| 0 <= i < |paths| && |paths[i]| - 1 > maxHops;
      assert |paths[i]| == 2 * e + 1;
    }
  }

  lemma FarthestIsMidpoint(g: Net, s: TokenID, t: TokenID, e: nat)
    ensures SomeBetween(g, s, t, 2 * e, e) <==> HasMidpoint(g, s, t, e)
  {
    if HasMidpoint(g, s, t, e) {
      var v: TokenID :| AtDistance(g, s, v, e) && AtDistance(g, t, v, e);
      assert Between(g, s, t, v, e, e, e) && e + e == 2 * e;
    }
  }

  /** Expanding one more token of a layer. */
  lemma SweepNext(g: Net, sw: Sweep, far: Trails, back: bool, u: TokenID, rest: seq<TokenID>)
    requires !Full(sw)
    ensures SweepAll(g, sw, far, back, [u] + rest)
         == SweepAll(g, VisitAll(sw, far, back, u, Neighbors(g, u)), far, back, rest)
  {
    assert ([u] + rest)[1..] == rest;
  }

  /** Expanding a layer of one token with the neighbours `ns`. */
  lemma SweepOne(g: Net, sw: Sweep, far: Trails, back: bool, u: TokenID, ns: seq<TokenID>, r: Sweep)
    requires !Full(sw) && Neighbors(g, u) == ns && VisitAll(sw, far, back, u, ns) == r
    ensures SweepAll(g, sw, far, back, [u]) == r
  {
    SweepNext(g, sw, far, back, u, []);
  }

  /** Visiting one more neighbour: `path` is the route through it, if the other side knows it. */
  lemma VisitNext(sw: Sweep, far: Trails, back: bool, u: TokenID, n: TokenID, rest: seq<TokenID>,
                  path: seq<TokenID>, r: Sweep)
    requires !Full(sw) && n !in sw.seen
    requires n in r.seen && r.seen[n] == Trail(sw.seen, u) + [n] && r.seen == sw.seen[n := r.seen[n]]
    requires r.next == sw.next + [n]
    requires n in far ==> path == Route(back, r.seen[n], far[n])
    requires r.paths == if n in far then Record(sw.paths, back, path) else sw.paths
    ensures VisitAll(sw, far, back, u, [n] + rest) == VisitAll(r, far, back, u, rest)
  {
    assert ([n] + rest)[1..] == rest;
    assert Visit(sw, far, back, u, n) == r;
  }

  lemma VisitOld(sw: Sweep, far: Trails, back: bool, u: TokenID, n: TokenID, rest: seq<TokenID>)
    requires !Full(sw) && n in sw.seen
    ensures VisitAll(sw, far, back, u, [n] + rest) == VisitAll(sw, far, back, u, rest)
  {
    assert ([n] + rest)[1..] == rest;
  }

  const UNSORTED: Net := [[1], [0, 2, 3], [1, 3], [1, 2]]
  const REVISITING: Net := [[1], [0, 2, 3], [1], [1]]

  lemma SpliceOne(front: seq<TokenID>, t: TokenID, v: TokenID)
    ensures Splice(front, [t, v]) == front + [t]
  {
    assert [t, v][..1] == [t] && Reverse([t]) == [t];
  }

  lemma SpliceTwo(front: seq<TokenID>, t: TokenID, u: TokenID, v: TokenID)
    ensures Splice(front, [t, u, v]) == front + [u, t]
  {
    assert [t, u, v][..2] == [t, u];
    assert Reverse([t, u]) == [u, t];
  }

  lemma SpliceNone(front: seq<TokenID>, v: TokenID)
    ensures Splice(front, [v]) == front
  {
    assert [v][..0] == [];
  }

  lemma ExamplesAreSymmetric()
    ensures Symmetric(REVISITING) && Symmetric(UNSORTED)
  {
    forall u, v | Edge(REVISITING, u, v) ensures Edge(REVISITING, v, u) {
      assert u < 4;
    }
    forall u, v | Edge(UNSORTED, u, v) ensures Edge(UNSORTED, v, u) {
      assert u < 4;
    }
  }

  /** The first round on either example: token 1 neighbours both ends, which have no direct edge. */
  lemma FirstRound(g: Net, rest: seq<TokenID>) returns (st: Stage)
    requires rest == [1] || rest == [1, 2]
    requires 4 <= |g| && g[0] == [1] && g[3] == rest
    ensures st == Round(g, Start(0, 3)) && !st.done && st.paths == [[0, 1, 3]]
    ensures st.fwd == Side(Root(0).seen[1 := [0, 1]], [1])
    ensures st.bwd == if |rest| == 1 then Side(Root(3).seen[1 := [3, 1]], [1])
                      else Side(Root(3).seen[1 := [3, 1]][2 := [3, 2]], [1, 2])
  {
    var sw, far := Sweep(Root(0).seen, [], []), Root(3).seen;
    var f := Sweep(sw.seen[1 := [0, 1]], [1], []);
    VisitNext(sw, far, false, 0, 1, [], [], f);
    SweepNext(g, sw, far, false, 0, []);
    assert Forward(g, Root(0), Root(3), []) == f;
    var b := Sweep(far, [], []);
    var b1 := Sweep(far[1 := [3, 1]], [1], [[0, 1, 3]]);
    SpliceOne([0, 1], 3, 1);
    VisitNext(b, f.seen, true, 3, 1, rest[1..], [0, 1, 3], b1);
    assert rest == [1] + rest[1..];
    if |rest| == 2 {
      var b2 := Sweep(b1.seen[2 := [3, 2]], [1, 2], b1.paths);
      VisitNext(b1, f.seen, true, 3, 2, [], [], b2);
      assert rest[1..] == [2] + [];
    }
    SweepNext(g, b, f.seen, true, 3, []);
    st := Round(g, Start(0, 3));
  }

  lemma RevisitForward(m: Trails, far: Trails) returns (f: Sweep)
    requires m == Root(0).seen[1 := [0, 1]] && far == Root(3).seen[1 := [3, 1]]
    ensures f.seen == m[2 := [0, 1, 2]][3 := [0, 1, 3]] && f.next == [2, 3] && f.paths == [[0, 1, 3], [0, 1, 3]]
    ensures f == VisitAll(Sweep(m, [], [[0, 1, 3]]), far, false, 1, [0, 2, 3])
  {
    var sw := Sweep(m, [], [[0, 1, 3]]);
    var sw2 := Sweep(m[2 := [0, 1, 2]], [2], sw.paths);
    f := Sweep(sw2.seen[3 := [0, 1, 3]], [2, 3], sw.paths + [[0, 1, 3]]);
    SpliceNone([0, 1, 3], 3);
    VisitOld(sw, far, false, 1, 0, [2, 3]);
    VisitNext(sw, far, false, 1, 2, [3], [], sw2);
    VisitNext(sw2, far, false, 1, 3, [], [0, 1, 3], f);
  }

  lemma RevisitSecond(sw: Sweep, far: Trails, paths: seq<seq<TokenID>>)
    requires sw == Sweep(Root(3).seen[1 := [3, 1]][0 := [3, 1, 0]], [0], paths)
    requires |paths| == 2 && paths[0] == [0, 1, 3] && paths[1] == [0, 1, 3] && 2 in far && far[2] == [0, 1, 2]
    ensures VisitAll(sw, far, true, 1, [2, 3]).paths == paths + [[0, 1, 2, 1, 3]]
  {
    var path := [0, 1, 2, 1, 3];
    var b2 := Sweep(sw.seen[2 := [3, 1, 2]], [0, 2], paths + [path]);
    SpliceTwo([0, 1, 2], 3, 1, 2);
    assert |path| == 5 && path !in paths;
    VisitNext(sw, far, true, 1, 2, [3], path, b2);
    VisitOld(b2, far, true, 1, 3, []);
  }

  lemma RevisitBackward(m: Trails, far: Trails, paths: seq<seq<TokenID>>)
    requires m == Root(3).seen[1 := [3, 1]] && paths == [[0, 1, 3], [0, 1, 3]]
    requires far == Root(0).seen[1 := [0, 1]][2 := [0, 1, 2]][3 := [0, 1, 3]]
    ensures VisitAll(Sweep(m, [], paths), far, true, 1, [0, 2, 3]).paths == [[0, 1, 3], [0, 1, 3], [0, 1, 2, 1, 3]]
  {
    var b0 := Sweep(m[0 := [3, 1, 0]], [0], paths);
    SpliceTwo([0], 3, 1, 0);
    VisitNext(Sweep(m, [], paths), far, true, 1, 0, [2, 3], [0, 1, 3], b0);
    RevisitSecond(b0, far, paths);
  }

  /** Two hops suffice from token 0 to token 3, but a limit of three hops also returns a route of four. */
  lemma OddBoundRevisits()
    ensures Symmetric(REVISITING)
    ensures FindRoutes(REVISITING, 0, 3, 3) == [[0, 1, 3], [0, 1, 3], [0, 1, 2, 1, 3]]
  {
    ExamplesAreSymmetric();
    var st := FirstRound(REVISITING, [1]);
    var f := RevisitForward(st.fwd.seen, st.bwd.seen);
    SweepOne(REVISITING, Sweep(st.fwd.seen, [], st.paths), st.bwd.seen, false, 1, [0, 2, 3], f);
    RevisitBackward(st.bwd.seen, f.seen, f.paths);
    var b := Sweep(st.bwd.seen, [], f.paths);
    SweepOne(REVISITING, b, f.seen, true, 1, [0, 2, 3], VisitAll(b, f.seen, true, 1, [0, 2, 3]));
    RoundsStep(REVISITING, Start(0, 3), 2, 1);
    RoundsStep(REVISITING, st, 1, 0);
  }

  // ---------- the order of the routes ----------

  ghost predicate SortedByHops(paths: seq<seq<TokenID>>) {
    forall i, j :: 0 <= i < j < |paths| ==> |paths[i]| <= |paths[j]|
  }

  ghost predicate AllHave(paths: seq<seq<TokenID>>, h: nat) {
    forall i :: 0 <= i < |paths| ==> |paths[i]| == h + 1
  }

  /** Every token within `e` hops of both ends lies on a walk of `h` hops between them. */
  ghost predicate NoDetours(g: Net, s: TokenID, t: TokenID, h: nat, e: nat) {
    forall v: TokenID, a: nat, b: nat :: Between(g, s, t, v, a, b, e) ==> a + b == h
  }

  lemma UnsortedForward(m: Trails, far: Trails) returns (f: Sweep)
    requires m == Root(0).seen[1 := [0, 1]] && far == Root(3).seen[1 := [3, 1]][2 := [3, 2]]
    ensures f.seen == m[2 := [0, 1, 2]][3 := [0, 1, 3]] && f.next == [2, 3]
    ensures f.paths == [[0, 1, 3], [0, 1, 2, 3], [0, 1, 3]]
    ensures f == VisitAll(Sweep(m, [], [[0, 1, 3]]), far, false, 1, [0, 2, 3])
  {
    var sw := Sweep(m, [], [[0, 1, 3]]);
    var sw2 := Sweep(m[2 := [0, 1, 2]], [2], sw.paths + [[0, 1, 2, 3]]);
    f := Sweep(sw2.seen[3 := [0, 1, 3]], [2, 3], sw2.paths + [[0, 1, 3]]);
    SpliceOne([0, 1, 2], 3, 2);
    SpliceNone([0, 1, 3], 3);
    VisitOld(sw, far, false, 1, 0, [2, 3]);
    VisitNext(sw, far, false, 1, 2, [3], [0, 1, 2, 3], sw2);
    VisitNext(sw2, far, false, 1, 3, [], [0, 1, 3], f);
  }

  lemma UnsortedBackward(m: Trails, far: Trails, paths: seq<seq<TokenID>>)
    requires m == Root(3).seen[1 := [3, 1]][2 := [3, 2]] && 3 == |paths| && paths[0] == [0, 1, 3]
    requires far == Root(0).seen[1 := [0, 1]][2 := [0, 1, 2]][3 := [0, 1, 3]]
    ensures SweepAll(UNSORTED, Sweep(m, [], paths), far, true, [1, 2]).paths == paths
  {
    var b := Sweep(m, [], paths);
    var b0 := Sweep(m[0 := [3, 1, 0]], [0], paths);
    SpliceTwo([0], 3, 1, 0);
    VisitNext(b, far, true, 1, 0, [2, 3], [0, 1, 3], b0);
    VisitOld(b0, far, true, 1, 2, [3]);
    VisitOld(b0, far, true, 1, 3, []);
    VisitOld(b0, far, true, 2, 1, [3]);
    VisitOld(b0, far, true, 2, 3, []);
    SweepNext(UNSORTED, b, far, true, 1, [2]);
    SweepNext(UNSORTED, b0, far, true, 2, []);
  }

  lemma UnsortedRoutes()
    ensures FindRoutes(UNSORTED, 0, 3, 4) == [[0, 1, 3], [0, 1, 2, 3], [0, 1, 3]]
  {
    var st := FirstRound(UNSORTED, [1, 2]);
    var f := UnsortedForward(st.fwd.seen, st.bwd.seen);
    SweepOne(UNSORTED, Sweep(st.fwd.seen, [], st.paths), st.bwd.seen, false, 1, [0, 2, 3], f);
    UnsortedBackward(st.bwd.seen, f.seen, f.paths);
    RoundsStep(UNSORTED, Start(0, 3), 2, 1);
    RoundsStep(UNSORTED, st, 1, 0);
  }

  /** The routes come unsorted: two, three and two hops. */
  lemma UnsortedExample()
    ensures Symmetric(UNSORTED)
    ensures FindRoutes(UNSORTED, 0, 3, 4) == [[0, 1, 3], [0, 1, 2, 3], [0, 1, 3]]
    ensures !SortedByHops(FindRoutes(UNSORTED, 0, 3, 4))
  {
    ExamplesAreSymmetric();
    UnsortedRoutes();
    var paths := FindRoutes(UNSORTED, 0, 3, 4);
    assert |paths[1]| > |paths[2]|;
  }

  /**
   * The routes are all as short as the shortest walk, and so sorted, if no
   * token within the search depth of both ends lies off the shortest walks;
   * unless ten routes stopped the search, only then.
   */
  lemma AllShortestIffNoDetours(g: Net, s: TokenID, t: TokenID, maxHops: int, h: nat)
    requires Symmetric(g) && s != t && 1 <= maxHops && !Edge(g, s, t) && AtDistance(g, s, t, h)
    ensures var paths, e := FindRoutes(g, s, t, maxHops), DepthPerSide(maxHops);
            && (NoDetours(g, s, t, h, e) ==> AllHave(paths, h) && SortedByHops(paths))
            && (|paths| < MAX_PATHS ==> (AllHave(paths, h) <==> NoDetours(g, s, t, h, e)))
  {
    var paths, e := FindRoutes(g, s, t, maxHops), DepthPerSide(maxHops);
    SearchIsComplete(g, s, t, maxHops);
    if NoDetours(g, s, t, h, e) {
      forall i | 0 <= i < |paths| ensures |paths[i]| == h + 1 {
        var k := |paths[i]| - 1;
        assert HasHops(paths, k);
        RouteLengthsAreExact(g, s, t, maxHops, k);
      }
    }
    if |paths| < MAX_PATHS && AllHave(paths, h) {
      forall v: TokenID, a: nat, b: nat | Between(g, s, t, v, a, b, e) ensures a + b == h {
        assert SomeBetween(g, s, t, a + b, e);
        RouteLengthsAreExact(g, s, t, maxHops, a + b);
      }
    }
  }

  /** When the ends are as far apart as the search reaches, all routes are equally long. */
  lemma FarthestIsSorted(g: Net, s: TokenID, t: TokenID, maxHops: int)
    requires Symmetric(g) && s != t && 1 <= maxHops && AtDistance(g, s, t, 2 * DepthPerSide(maxHops))
    ensures var paths := FindRoutes(g, s, t, maxHops);
            paths != [] && AllHave(paths, 2 * DepthPerSide(maxHops)) && SortedByHops(paths)
  {
    SearchIsComplete(g, s, t, maxHops);
    var p :| WalkBetween(g, p, s, t) && |p| == 2 * DepthPerSide(maxHops) + 1;
  }
}
