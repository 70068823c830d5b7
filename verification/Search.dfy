// The bidirectional breadth-first search as a function of the network alone.
//
// Where the arena keeps one parent per visited token, this form keeps the
// whole walk from the root to that token. The arena is proved to compute this
// function (module Arenas); the theorems about the routes found are proved
// here.
module Search {
  import opened Network

  const MAX_PATHS: nat := 10

  /** The walk recorded for each visited token. */
  type Trails = map<TokenID, seq<TokenID>>

  /** One side of the search: what it has visited, and its newest layer. */
  datatype Side = Side(seen: Trails, frontier: seq<TokenID>)

  /** The expansion of one layer in progress: visited tokens, next layer, routes so far. */
  datatype Sweep = Sweep(seen: Trails, next: seq<TokenID>, paths: seq<seq<TokenID>>)

  predicate Full(sw: Sweep) {
    |sw.paths| >= MAX_PATHS
  }

  function Trail(m: Trails, u: TokenID): seq<TokenID> {
    if u in m then m[u] else []
  }

  function Route(back: bool, near: seq<TokenID>, far: seq<TokenID>): seq<TokenID> {
    if back then Splice(far, near) else Splice(near, far)
  }

  function Record(paths: seq<seq<TokenID>>, back: bool, path: seq<TokenID>): seq<seq<TokenID>> {
    if back && path in paths then paths else paths + [path]
  }

  /** Token `n` is met as a neighbour of `u`; only the backward side drops duplicates. */
  function Visit(sw: Sweep, far: Trails, back: bool, u: TokenID, n: TokenID): Sweep {
    if n in sw.seen then sw else
      var trail := Trail(sw.seen, u) + [n];
      Sweep(sw.seen[n := trail],
            sw.next + [n],
            if n in far then Record(sw.paths, back, Route(back, trail, far[n])) else sw.paths)
  }

  function VisitAll(sw: Sweep, far: Trails, back: bool, u: TokenID, ns: seq<TokenID>): Sweep
    decreases |ns|
  {
    if ns == [] || Full(sw) then sw
    else VisitAll(Visit(sw, far, back, u, ns[0]), far, back, u, ns[1..])
  }

  function SweepAll(g: Net, sw: Sweep, far: Trails, back: bool, frontier: seq<TokenID>): Sweep
    decreases |frontier|
  {
    if frontier == [] || Full(sw) then sw
    else SweepAll(g, VisitAll(sw, far, back, frontier[0], Neighbors(g, frontier[0])), far, back, frontier[1..])
  }

  /** Visiting the rest of `ns` from `i` on leads to `goal`. */
  ghost predicate LeadsTo(goal: Sweep, sw: Sweep, far: Trails, back: bool, u: TokenID, ns: seq<TokenID>, i: nat) {
    forall rest :: i <= |ns| && rest == ns[i..] ==> goal == VisitAll(sw, far, back, u, rest)
  }

  lemma LeadsFirst(sw: Sweep, far: Trails, back: bool, u: TokenID, ns: seq<TokenID>)
    ensures LeadsTo(VisitAll(sw, far, back, u, ns), sw, far, back, u, ns, 0)
  {
    assert ns[0..] == ns;
  }

  lemma LeadsLast(goal: Sweep, sw: Sweep, far: Trails, back: bool, u: TokenID, ns: seq<TokenID>)
    requires LeadsTo(goal, sw, far, back, u, ns, |ns|)
    ensures goal == sw
  {
    assert goal == VisitAll(sw, far, back, u, ns[|ns|..]);
  }

  lemma LeadsNext(goal: Sweep, sw: Sweep, far: Trails, back: bool, u: TokenID, ns: seq<TokenID>, i: nat)
    requires i < |ns| && !Full(sw) && LeadsTo(goal, sw, far, back, u, ns, i)
    ensures var sw' := Visit(sw, far, back, u, ns[i]);
            && LeadsTo(goal, sw', far, back, u, ns, i + 1)
            && (Full(sw') ==> goal == sw')
            && (u in sw.seen ==> u in sw'.seen)
  {
    assert goal == VisitAll(sw, far, back, u, ns[i..]);
    assert ns[i..][1..] == ns[i + 1..];
  }

  lemma SweepAllStep(g: Net, sw: Sweep, far: Trails, back: bool, us: seq<TokenID>, i: nat)
    requires i < |us| && !Full(sw)
    ensures var sw' := VisitAll(sw, far, back, us[i], Neighbors(g, us[i]));
            && SweepAll(g, sw, far, back, us[i..]) == SweepAll(g, sw', far, back, us[i + 1..])
            && (Full(sw') ==> SweepAll(g, sw', far, back, us[i + 1..]) == sw')
  {
    assert us[i..][1..] == us[i + 1..];
  }

  /** A later state of a sweep: recorded walks and stored routes are kept, and the next layer has been visited. */
  ghost predicate Follows(sw: Sweep, later: Sweep) {
    && (forall v :: v in sw.seen ==> v in later.seen && later.seen[v] == sw.seen[v])
    && sw.paths <= later.paths
    && (forall v :: v in later.next ==> v in later.seen)
  }

  lemma {:induction false} VisitAllFollows(sw: Sweep, far: Trails, back: bool, u: TokenID, ns: seq<TokenID>)
    requires Follows(sw, sw)
    ensures Follows(sw, VisitAll(sw, far, back, u, ns))
    decreases |ns|
  {
    if ns != [] && !Full(sw) {
      VisitAllFollows(Visit(sw, far, back, u, ns[0]), far, back, u, ns[1..]);
    }
  }

  lemma {:induction false} SweepAllFollows(g: Net, sw: Sweep, far: Trails, back: bool, us: seq<TokenID>)
    requires Follows(sw, sw)
    ensures Follows(sw, SweepAll(g, sw, far, back, us))
    decreases |us|
  {
    if us != [] && !Full(sw) {
      VisitAllFollows(sw, far, back, us[0], Neighbors(g, us[0]));
      SweepAllFollows(g, VisitAll(sw, far, back, us[0], Neighbors(g, us[0])), far, back, us[1..]);
    }
  }

  function Forward(g: Net, fwd: Side, bwd: Side, paths: seq<seq<TokenID>>): Sweep {
    SweepAll(g, Sweep(fwd.seen, [], paths), bwd.seen, false, fwd.frontier)
  }

  function Backward(g: Net, f: Sweep, bwd: Side): Sweep {
    SweepAll(g, Sweep(bwd.seen, [], f.paths), f.seen, true, bwd.frontier)
  }

  /** The search between rounds; `done` when ten routes are stored or nothing is left to expand. */
  datatype Stage = Stage(fwd: Side, bwd: Side, paths: seq<seq<TokenID>>, done: bool)

  /** A forward and then a backward layer. */
  function Round(g: Net, st: Stage): Stage {
    var f := Forward(g, st.fwd, st.bwd, st.paths);
    var fwd := Side(f.seen, f.next);
    if Full(f) then Stage(fwd, st.bwd, f.paths, true) else
      var b := Backward(g, f, st.bwd);
      Stage(fwd, Side(b.seen, b.next), b.paths, Full(b) || (f.next == [] && b.next == []))
  }

  /** At most `k` further rounds. */
  function Rounds(g: Net, st: Stage, k: nat): Stage
    decreases k
  {
    if k == 0 || st.done then st else Rounds(g, Round(g, st), k - 1)
  }

  lemma RoundsStep(g: Net, st: Stage, k: nat, rest: nat)
    requires !st.done && k == rest + 1
    ensures Rounds(g, st, k) == Rounds(g, Round(g, st), rest)
  {
  }

  lemma RoundsEnd(g: Net, st: Stage, k: nat)
    requires st.done || k == 0
    ensures Rounds(g, st, k) == st
  {
  }

  function Start(s: TokenID, t: TokenID): Stage {
    Stage(Root(s), Root(t), [], false)
  }

  function Root(v: TokenID): Side {
    Side(map[v := [v]], [v])
  }

  function DepthPerSide(maxHops: int): nat
    requires 1 <= maxHops
  {
    (maxHops + 1) / 2
  }

  function FindRoutes(g: Net, s: TokenID, t: TokenID, maxHops: int): seq<seq<TokenID>> {
    if maxHops < 1 then []
    else if Edge(g, s, t) then [[s, t]]
    else Rounds(g, Start(s, t), DepthPerSide(maxHops)).paths
  }

  // ---------- layers ----------

  /** `m` records a shortest walk to exactly the tokens at most `d` hops from `r`. */
  ghost predicate Covers(g: Net, r: TokenID, m: Trails, d: nat) {
    && (forall v :: v in m ==> WalkBetween(g, m[v], r, v) && |m[v]| <= d + 1)
    && (forall p, v :: WalkBetween(g, p, r, v) && |p| <= d + 1 ==> v in m && |m[v]| <= |p|)
  }

  /** `frontier` holds exactly the tokens `m` records at distance `d`. */
  ghost predicate IsLayer(m: Trails, frontier: seq<TokenID>, d: nat) {
    && (forall v :: v in frontier ==> v in m && |m[v]| == d + 1)
    && (forall v :: v in m && |m[v]| == d + 1 ==> v in frontier)
  }

  ghost predicate Layered(g: Net, r: TokenID, side: Side, d: nat) {
    Covers(g, r, side.seen, d) && IsLayer(side.seen, side.frontier, d)
  }

  lemma RootLayered(g: Net, r: TokenID)
    ensures Layered(g, r, Root(r), 0)
  {
    var m := Root(r).seen;
    assert WalkBetween(g, m[r], r, r);
    forall p, v | WalkBetween(g, p, r, v) && |p| <= 1 ensures v in m && |m[v]| <= |p| {
      assert p[0] == p[|p| - 1];
    }
  }

  /** The tokens added by a sweep of layer `d`: each has a walk one hop longer, and is in `next`. */
  ghost predicate Grown(g: Net, r: TokenID, m0: Trails, sw: Sweep, d: nat) {
    && (forall v :: v in m0 ==> v in sw.seen && sw.seen[v] == m0[v])
    && (forall v :: v in sw.seen && v !in m0 ==>
          WalkBetween(g, sw.seen[v], r, v) && |sw.seen[v]| == d + 2 && v in sw.next)
    && (forall v :: v in sw.next ==> v in sw.seen && v !in m0)
  }

  /** Every neighbour of a layer has been visited, so the next distance is covered as well. */
  lemma NextLayered(g: Net, r: TokenID, side: Side, sw: Sweep, d: nat)
    requires Layered(g, r, side, d) && Grown(g, r, side.seen, sw, d)
    requires forall u, n :: u in side.frontier && Edge(g, u, n) ==> n in sw.seen
    ensures Layered(g, r, Side(sw.seen, sw.next), d + 1)
  {
    forall p, v | WalkBetween(g, p, r, v) && |p| <= d + 2 ensures v in sw.seen && |sw.seen[v]| <= |p| {
      if |p| == d + 2 {
        CoversLongest(g, r, side, sw, d, p, v);
      }
    }
  }

  lemma CoversLongest(g: Net, r: TokenID, side: Side, sw: Sweep, d: nat, p: seq<TokenID>, v: TokenID)
    requires Layered(g, r, side, d) && Grown(g, r, side.seen, sw, d)
    requires forall u, n :: u in side.frontier && Edge(g, u, n) ==> n in sw.seen
    requires WalkBetween(g, p, r, v) && |p| == d + 2
    ensures v in sw.seen && |sw.seen[v]| <= |p|
  {
    var u := p[d];
    PrefixIsWalk(g, p, d + 1);
    assert Hop(g, p, d) && u in side.seen;
    if |side.seen[u]| < d + 1 {
      ExtendIsWalk(g, side.seen[u], r, u, v);
    } else {
      assert u in side.frontier;
    }
  }

  // ---------- routes ----------

  ghost predicate Disjoint(m: Trails, far: Trails) {
    forall v :: v in m ==> v !in far
  }

  /** Routes are walks from `s` to `t` of at most `hops` hops, and there are at most ten. */
  ghost predicate Sound(g: Net, s: TokenID, t: TokenID, paths: seq<seq<TokenID>>, hops: nat) {
    && |paths| <= MAX_PATHS
    && forall i :: 0 <= i < |paths| ==> WalkBetween(g, paths[i], s, t) && |paths[i]| <= hops + 1
  }

  ghost predicate Shortest(g: Net, s: TokenID, t: TokenID, path: seq<TokenID>) {
    && WalkBetween(g, path, s, t)
    && forall p :: WalkBetween(g, p, s, t) ==> |path| <= |p|
  }

  /** There is a route exactly when the sides have met, and the first one is a shortest walk. */
  ghost predicate Met(g: Net, s: TokenID, t: TokenID, m: Trails, far: Trails, paths: seq<seq<TokenID>>) {
    && (paths == [] <==> Disjoint(m, far))
    && (paths != [] ==> Shortest(g, s, t, paths[0]))
  }

  /** A walk short enough to be covered from its two ends passes a token both sides have visited. */
  lemma WalkIsMet(g: Net, s: TokenID, t: TokenID, m: Trails, a: nat, far: Trails, b: nat, p: seq<TokenID>)
    requires Symmetric(g) && Covers(g, s, m, a) && Covers(g, t, far, b)
    requires WalkBetween(g, p, s, t) && |p| <= a + b + 1
    ensures !Disjoint(m, far)
  {
    var k := if |p| <= a + 1 then |p| else a + 1;
    PrefixIsWalk(g, p, k);
    SuffixIsWalk(g, p, k - 1);
    ReverseIsWalk(g, p[k - 1..], p[k - 1], t);
    assert p[k - 1] in m && p[k - 1] in far;
  }

  /** Two sides that cover `a` and `b` hops and have not met rule out walks of `a + b` hops. */
  lemma ApartMeansFar(g: Net, s: TokenID, t: TokenID, m: Trails, a: nat, far: Trails, b: nat)
    requires Symmetric(g) && Covers(g, s, m, a) && Covers(g, t, far, b) && Disjoint(m, far)
    ensures forall p :: WalkBetween(g, p, s, t) ==> |p| > a + b + 1
  {
    forall p | WalkBetween(g, p, s, t) ensures |p| > a + b + 1 {
      if |p| <= a + b + 1 {
        WalkIsMet(g, s, t, m, a, far, b, p);
      }
    }
  }

  /** What a sweep from root `r` with opposite root `o` keeps, whatever it has visited so far. */
  ghost predicate SweepInv(g: Net, back: bool, s: TokenID, t: TokenID, side: Side, a: nat, far: Trails, b: nat,
                           sw: Sweep) {
    var r, o := if back then t else s, if back then s else t;
    && Symmetric(g)
    && Layered(g, r, side, a) && Covers(g, o, far, b)
    && Grown(g, r, side.seen, sw, a)
    && Sound(g, s, t, sw.paths, a + b + 1)
    && Met(g, s, t, sw.seen, far, sw.paths)
    && (Disjoint(side.seen, far) ==> forall p :: WalkBetween(g, p, s, t) ==> |p| > a + b + 1)
  }

  lemma VisitKeepsGrown(g: Net, r: TokenID, m0: Trails, sw: Sweep, d: nat, far: Trails, back: bool, u: TokenID,
                        n: TokenID)
    requires Grown(g, r, m0, sw, d)
    requires u in m0 && WalkBetween(g, m0[u], r, u) && |m0[u]| == d + 1 && Edge(g, u, n)
    ensures Grown(g, r, m0, Visit(sw, far, back, u, n), d)
    ensures n in Visit(sw, far, back, u, n).seen
  {
    ExtendIsWalk(g, m0[u], r, u, n);
  }

  lemma RouteIsWalk(g: Net, back: bool, s: TokenID, t: TokenID, near: seq<TokenID>, far: seq<TokenID>, n: TokenID)
    requires Symmetric(g)
    requires WalkBetween(g, near, if back then t else s, n) && WalkBetween(g, far, if back then s else t, n)
    ensures WalkBetween(g, Route(back, near, far), s, t)
    ensures |Route(back, near, far)| == |near| + |far| - 1
  {
    if back {
      SpliceIsWalk(g, far, near, s, t, n);
    } else {
      SpliceIsWalk(g, near, far, s, t, n);
    }
  }

  lemma RecordSound(g: Net, s: TokenID, t: TokenID, paths: seq<seq<TokenID>>, back: bool, path: seq<TokenID>, hops: nat)
    requires Sound(g, s, t, paths, hops) && |paths| < MAX_PATHS
    requires WalkBetween(g, path, s, t) && |path| <= hops + 1
    ensures Sound(g, s, t, Record(paths, back, path), hops)
  {
  }

  lemma RecordMet(g: Net, s: TokenID, t: TokenID, m: Trails, m': Trails, far: Trails, paths: seq<seq<TokenID>>,
                  back: bool, path: seq<TokenID>)
    requires Met(g, s, t, m, far, paths) && !Disjoint(m', far)
    requires Disjoint(m, far) ==> Shortest(g, s, t, path)
    ensures Met(g, s, t, m', far, Record(paths, back, path))
  {
  }

  lemma VisitMeets(g: Net, back: bool, s: TokenID, t: TokenID, side: Side, a: nat, far: Trails, b: nat, sw: Sweep,
                   u: TokenID, n: TokenID)
    requires SweepInv(g, back, s, t, side, a, far, b, sw) && !Full(sw)
    requires n !in sw.seen && n in far && n in Visit(sw, far, back, u, n).seen
    requires WalkBetween(g, Visit(sw, far, back, u, n).seen[n], if back then t else s, n)
    requires |Visit(sw, far, back, u, n).seen[n]| <= a + 2
    ensures var sw' := Visit(sw, far, back, u, n);
            Sound(g, s, t, sw'.paths, a + b + 1) && Met(g, s, t, sw'.seen, far, sw'.paths)
  {
    var sw' := Visit(sw, far, back, u, n);
    var path := Route(back, sw'.seen[n], far[n]);
    RouteIsWalk(g, back, s, t, sw'.seen[n], far[n], n);
    RecordSound(g, s, t, sw.paths, back, path, a + b + 1);
    if Disjoint(sw.seen, far) {
      assert Disjoint(side.seen, far);
      assert Shortest(g, s, t, path);
    }
    assert !Disjoint(sw'.seen, far);
    RecordMet(g, s, t, sw.seen, sw'.seen, far, sw.paths, back, path);
  }

  lemma VisitKeepsSweep(g: Net, back: bool, s: TokenID, t: TokenID, side: Side, a: nat, far: Trails, b: nat,
                        sw: Sweep, u: TokenID, n: TokenID)
    requires SweepInv(g, back, s, t, side, a, far, b, sw) && !Full(sw)
    requires u in side.frontier && Edge(g, u, n)
    ensures SweepInv(g, back, s, t, side, a, far, b, Visit(sw, far, back, u, n))
    ensures n in Visit(sw, far, back, u, n).seen
  {
    var r := if back then t else s;
    VisitKeepsGrown(g, r, side.seen, sw, a, far, back, u, n);
    if n !in sw.seen {
      var sw' := Visit(sw, far, back, u, n);
      if n in far {
        VisitMeets(g, back, s, t, side, a, far, b, sw, u, n);
      } else {
        assert Disjoint(sw.seen, far) <==> Disjoint(sw'.seen, far) by {
          assert forall v :: v in sw.seen ==> v in sw'.seen;
        }
      }
    }
  }

  lemma VisitAllKeepsSweep(g: Net, back: bool, s: TokenID, t: TokenID, side: Side, a: nat, far: Trails, b: nat,
                           sw: Sweep, u: TokenID, ns: seq<TokenID>)
    requires SweepInv(g, back, s, t, side, a, far, b, sw)
    requires u in side.frontier && forall n :: n in ns ==> Edge(g, u, n)
    ensures var r := VisitAll(sw, far, back, u, ns);
            && SweepInv(g, back, s, t, side, a, far, b, r)
            && (forall v :: v in sw.seen ==> v in r.seen)
            && (Full(r) || forall n :: n in ns ==> n in r.seen)
    decreases |ns|
  {
    if ns != [] && !Full(sw) {
      VisitKeepsSweep(g, back, s, t, side, a, far, b, sw, u, ns[0]);
      VisitAllKeepsSweep(g, back, s, t, side, a, far, b, Visit(sw, far, back, u, ns[0]), u, ns[1..]);
    }
  }

  lemma SweepAllKeepsSweep(g: Net, back: bool, s: TokenID, t: TokenID, side: Side, a: nat, far: Trails, b: nat,
                           sw: Sweep, us: seq<TokenID>)
    requires SweepInv(g, back, s, t, side, a, far, b, sw)
    requires forall u :: u in us ==> u in side.frontier
    ensures var r := SweepAll(g, sw, far, back, us);
            && SweepInv(g, back, s, t, side, a, far, b, r)
            && (forall v :: v in sw.seen ==> v in r.seen)
            && (Full(r) || forall u, n :: u in us && Edge(g, u, n) ==> n in r.seen)
    decreases |us|
  {
    if us != [] && !Full(sw) {
      var ns := Neighbors(g, us[0]);
      assert forall n :: n in ns ==> Edge(g, us[0], n);
      VisitAllKeepsSweep(g, back, s, t, side, a, far, b, sw, us[0], ns);
      SweepAllKeepsSweep(g, back, s, t, side, a, far, b, VisitAll(sw, far, back, us[0], ns), us[1..]);
    }
  }

  // ---------- whole searches ----------

  /** Between rounds both sides are complete to the same depth `d`. */
  ghost predicate RoundInv(g: Net, s: TokenID, t: TokenID, fwd: Side, bwd: Side, paths: seq<seq<TokenID>>, d: nat) {
    && Symmetric(g)
    && Layered(g, s, fwd, d) && Layered(g, t, bwd, d)
    && Sound(g, s, t, paths, 2 * d)
    && Met(g, s, t, fwd.seen, bwd.seen, paths)
  }

  lemma ForwardKeeps(g: Net, s: TokenID, t: TokenID, fwd: Side, bwd: Side, paths: seq<seq<TokenID>>, d: nat)
    requires RoundInv(g, s, t, fwd, bwd, paths, d)
    ensures var f := Forward(g, fwd, bwd, paths);
            && SweepInv(g, false, s, t, fwd, d, bwd.seen, d, f)
            && (Full(f) || Layered(g, s, Side(f.seen, f.next), d + 1))
  {
    if Disjoint(fwd.seen, bwd.seen) {
      ApartMeansFar(g, s, t, fwd.seen, d, bwd.seen, d);
    }
    var start := Sweep(fwd.seen, [], paths);
    SweepAllKeepsSweep(g, false, s, t, fwd, d, bwd.seen, d, start, fwd.frontier);
    var f := Forward(g, fwd, bwd, paths);
    if !Full(f) {
      NextLayered(g, s, fwd, f, d);
    }
  }

  lemma BackwardKeeps(g: Net, s: TokenID, t: TokenID, f: Sweep, bwd: Side, d: nat)
    requires Symmetric(g) && Layered(g, s, Side(f.seen, f.next), d + 1) && Layered(g, t, bwd, d)
    requires Sound(g, s, t, f.paths, 2 * d + 1) && Met(g, s, t, f.seen, bwd.seen, f.paths)
    ensures var b := Backward(g, f, bwd);
            && SweepInv(g, true, s, t, bwd, d, f.seen, d + 1, b)
            && (Full(b) || Layered(g, t, Side(b.seen, b.next), d + 1))
  {
    assert Disjoint(f.seen, bwd.seen) <==> Disjoint(bwd.seen, f.seen);
    if Disjoint(f.seen, bwd.seen) {
      ApartMeansFar(g, s, t, f.seen, d + 1, bwd.seen, d);
    }
    var start := Sweep(bwd.seen, [], f.paths);
    SweepAllKeepsSweep(g, true, s, t, bwd, d, f.seen, d + 1, start, bwd.frontier);
    var b := Backward(g, f, bwd);
    if !Full(b) {
      NextLayered(g, t, bwd, b, d);
    }
  }

  /** A side with an empty frontier already covers every distance. */
  lemma {:induction false} ExhaustedCovers(g: Net, r: TokenID, side: Side, d: nat, e: nat)
    requires Layered(g, r, side, d) && side.frontier == [] && d <= e
    ensures Covers(g, r, side.seen, e)
    decreases e - d
  {
    if d < e {
      var still := Sweep(side.seen, [], []);
      NextLayered(g, r, side, still, d);
      ExhaustedCovers(g, r, side, d + 1, e);
    }
  }

  /** The verdict on a finished search that may use up to `hops` hops. */
  ghost predicate Verdict(g: Net, s: TokenID, t: TokenID, paths: seq<seq<TokenID>>, hops: nat) {
    && Sound(g, s, t, paths, hops)
    && (paths != [] ==> Shortest(g, s, t, paths[0]))
    && (paths == [] ==> forall p :: WalkBetween(g, p, s, t) ==> |p| > hops + 1)
  }

  /** One round: it either fills up with sound routes, or ends one hop deeper on both sides. */
  lemma RoundKeeps(g: Net, s: TokenID, t: TokenID, st: Stage, d: nat)
    requires RoundInv(g, s, t, st.fwd, st.bwd, st.paths, d)
    ensures var r := Round(g, st);
            if |r.paths| >= MAX_PATHS then Verdict(g, s, t, r.paths, 2 * d + 2) && r.done
            else && RoundInv(g, s, t, r.fwd, r.bwd, r.paths, d + 1)
                 && (r.done ==> r.fwd.frontier == [] && r.bwd.frontier == [])
  {
    ForwardKeeps(g, s, t, st.fwd, st.bwd, st.paths, d);
    var f := Forward(g, st.fwd, st.bwd, st.paths);
    if !Full(f) {
      BackwardKeeps(g, s, t, f, st.bwd, d);
      var b := Backward(g, f, st.bwd);
      assert Disjoint(f.seen, b.seen) <==> Disjoint(b.seen, f.seen);
    }
  }

  /** When no deeper round can add anything, the verdict holds for every larger bound. */
  lemma StuckVerdict(g: Net, s: TokenID, t: TokenID, fwd: Side, bwd: Side, paths: seq<seq<TokenID>>, d: nat, e: nat)
    requires RoundInv(g, s, t, fwd, bwd, paths, d) && d <= e
    requires (fwd.frontier == [] && bwd.frontier == []) || d == e
    ensures Verdict(g, s, t, paths, 2 * e)
  {
    if d < e {
      ExhaustedCovers(g, s, fwd, d, e);
      ExhaustedCovers(g, t, bwd, d, e);
    }
    if paths == [] {
      ApartMeansFar(g, s, t, fwd.seen, e, bwd.seen, e);
    }
  }

  lemma FullVerdict(g: Net, s: TokenID, t: TokenID, paths: seq<seq<TokenID>>, hops: nat, more: nat)
    requires Verdict(g, s, t, paths, hops) && paths != [] && hops <= more
    ensures Verdict(g, s, t, paths, more)
  {
  }

  /** The verdict when the next round is the last one. */
  lemma LastRoundVerdict(g: Net, s: TokenID, t: TokenID, st: Stage, d: nat, e: nat)
    requires RoundInv(g, s, t, st.fwd, st.bwd, st.paths, d) && Round(g, st).done && d < e
    ensures Verdict(g, s, t, Round(g, st).paths, 2 * e)
  {
    RoundKeeps(g, s, t, st, d);
    var r := Round(g, st);
    if |r.paths| >= MAX_PATHS {
      FullVerdict(g, s, t, r.paths, 2 * d + 2, 2 * e);
    } else {
      StuckVerdict(g, s, t, r.fwd, r.bwd, r.paths, d + 1, e);
    }
  }

  lemma {:induction false} RoundsVerdict(g: Net, s: TokenID, t: TokenID, st: Stage, d: nat, k: nat, e: nat)
    requires RoundInv(g, s, t, st.fwd, st.bwd, st.paths, d) && !st.done && e == d + k
    ensures Verdict(g, s, t, Rounds(g, st, k).paths, 2 * e)
    decreases k
  {
    if d == e {
      RoundsEnd(g, st, k);
      StuckVerdict(g, s, t, st.fwd, st.bwd, st.paths, d, e);
      return;
    }
    var r, rest := Round(g, st), k - 1;
    RoundsStep(g, st, k, rest);
    if r.done {
      RoundsEnd(g, r, rest);
      LastRoundVerdict(g, s, t, st, d, e);
    } else {
      RoundKeeps(g, s, t, st, d);
      RoundsVerdict(g, s, t, r, d + 1, rest, e);
    }
  }

  lemma StartInv(g: Net, s: TokenID, t: TokenID)
    requires Symmetric(g) && s != t
    ensures var st := Start(s, t);
            RoundInv(g, s, t, st.fwd, st.bwd, st.paths, 0)
  {
    RootLayered(g, s);
    RootLayered(g, t);
  }

  lemma DirectVerdict(g: Net, s: TokenID, t: TokenID, hops: nat)
    requires s != t && Edge(g, s, t) && 1 <= hops
    ensures Verdict(g, s, t, [[s, t]], hops)
  {
    assert WalkBetween(g, [s, t], s, t);
  }

  lemma IndirectVerdict(g: Net, s: TokenID, t: TokenID, e: nat)
    requires Symmetric(g) && s != t
    ensures Verdict(g, s, t, Rounds(g, Start(s, t), e).paths, 2 * e)
  {
    StartInv(g, s, t);
    RoundsVerdict(g, s, t, Start(s, t), 0, e, e);
  }

  lemma SearchVerdict(g: Net, s: TokenID, t: TokenID, maxHops: int)
    requires Symmetric(g) && s != t && 1 <= maxHops
    ensures Verdict(g, s, t, FindRoutes(g, s, t, maxHops), 2 * DepthPerSide(maxHops))
  {
    var e := DepthPerSide(maxHops);
    if Edge(g, s, t) {
      DirectVerdict(g, s, t, 2 * e);
    } else {
      IndirectVerdict(g, s, t, e);
    }
  }

  /**
   * The search is complete and its first answer is optimal. On a symmetric
   * network every route is a walk from input to output within the hop bound,
   * at most ten are returned, some route is returned exactly when some walk
   * is within the bound, and the first route is a shortest walk.
   */
  lemma SearchIsComplete(g: Net, s: TokenID, t: TokenID, maxHops: int)
    requires Symmetric(g) && s != t && 1 <= maxHops
    ensures var bound := 2 * DepthPerSide(maxHops);
            var paths := FindRoutes(g, s, t, maxHops);
            && Sound(g, s, t, paths, bound)
            && (paths != [] <==> exists p :: WalkBetween(g, p, s, t) && |p| <= bound + 1)
            && (paths != [] ==> Shortest(g, s, t, paths[0]))
  {
    SearchVerdict(g, s, t, maxHops);
    var paths := FindRoutes(g, s, t, maxHops);
    if paths != [] {
      assert WalkBetween(g, paths[0], s, t) && |paths[0]| <= 2 * DepthPerSide(maxHops) + 1;
    }
  }

  /** For the even bounds the router asks for, the hop limit is met exactly. */
  lemma EvenBoundIsExact(g: Net, s: TokenID, t: TokenID, maxHops: int)
    requires Symmetric(g) && s != t && 1 <= maxHops && maxHops % 2 == 0
    ensures var paths := FindRoutes(g, s, t, maxHops);
            && (paths != [] <==> exists p :: WalkBetween(g, p, s, t) && |p| - 1 <= maxHops)
            && Sound(g, s, t, paths, maxHops)
  {
    assert 2 * DepthPerSide(maxHops) == maxHops;
    SearchIsComplete(g, s, t, maxHops);
  }

  /** For odd bounds the first route exceeds the limit, by one hop, exactly when no shorter walk exists. */
  lemma FirstRouteOvershoots(g: Net, s: TokenID, t: TokenID, maxHops: int)
    requires Symmetric(g) && s != t && 1 <= maxHops && maxHops % 2 == 1
    ensures var paths := FindRoutes(g, s, t, maxHops);
            && Sound(g, s, t, paths, maxHops + 1)
            && ((paths != [] && |paths[0]| - 1 > maxHops) <==>
                (&& (exists p :: WalkBetween(g, p, s, t) && |p| - 1 == maxHops + 1)
                 && (forall p :: WalkBetween(g, p, s, t) ==> |p| - 1 > maxHops)))
  {
    assert 2 * DepthPerSide(maxHops) == maxHops + 1;
    SearchIsComplete(g, s, t, maxHops);
  }

  /** A line of three tokens searched with a limit of one hop returns a two-hop route. */
  lemma OddBoundExample()
    ensures Symmetric([[1], [0, 2], [1]])
    ensures FindRoutes([[1], [0, 2], [1]], 0, 2, 1) != []
    ensures |FindRoutes([[1], [0, 2], [1]], 0, 2, 1)[0]| - 1 == 2
  {
    var g: Net := [[1], [0, 2], [1]];
    forall u, v | Edge(g, u, v) ensures Edge(g, v, u) {
      assert u < 3;
    }
    var p := [0, 1, 2];
    assert Hop(g, p, 0) && Hop(g, p, 1);
    assert WalkBetween(g, p, 0, 2);
    forall q | WalkBetween(g, q, 0, 2) ensures |q| - 1 > 1 {
      assert !Edge(g, 0, 2);
      assert 2 <= |q| ==> Hop(g, q, 0);
    }
    FirstRouteOvershoots(g, 0, 2, 1);
  }
}
