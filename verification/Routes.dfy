// Routes as the caller sees them: lists of mints, joined by the lists of a
// compiled adjacency. The theorems of module Search are carried over from ids.
module Routes {
  import opened Domain
  import opened Network
  import opened Search
  import opened GraphStates
  import opened Snapshots

  /** A list of mints whose consecutive members have a non-empty pool list. */
  ghost predicate MintWalk(adj: AdjMap, p: seq<PublicKey>, a: PublicKey, b: PublicKey) {
    && 0 < |p| && p[0] == a && p[|p| - 1] == b
    && forall i :: 0 <= i < |p| - 1 ==> MintHop(adj, p, i)
  }

  predicate MintHop(adj: AdjMap, p: seq<PublicKey>, i: nat)
    requires i + 1 < |p|
  {
    Listed(adj, p[i], p[i + 1]) != []
  }

  ghost predicate SymmetricPairs(adj: AdjMap) {
    forall a, b :: Listed(adj, a, b) != [] ==> Listed(adj, b, a) != []
  }

  /** The network `g` has an edge exactly where the compiled adjacency lists pools. */
  ghost predicate Depicts(g: Net, adj: AdjMap, toMint: seq<PublicKey>) {
    && Registered(adj, toMint)
    && (forall i, j :: 0 <= i < j < |toMint| ==> toMint[i] != toMint[j])
    && (forall u, v :: Edge(g, u, v) <==> ByID(adj, toMint, u, v).Some?)
  }

  function MintPath(p: seq<TokenID>, toMint: seq<PublicKey>): seq<PublicKey> {
    seq(|p|, i requires 0 <= i < |p| => if p[i] < |toMint| then toMint[p[i]] else ZERO_KEY)
  }

  function MintPaths(ps: seq<seq<TokenID>>, toMint: seq<PublicKey>): seq<seq<PublicKey>> {
    seq(|ps|, i requires 0 <= i < |ps| => MintPath(ps[i], toMint))
  }

  lemma DepictsSymmetric(g: Net, adj: AdjMap, toMint: seq<PublicKey>)
    requires Depicts(g, adj, toMint) && SymmetricPairs(adj)
    ensures Symmetric(g)
  {
    forall u, v | Edge(g, u, v) ensures Edge(g, v, u) {
      assert ByID(adj, toMint, u, v).Some?;
      assert ByID(adj, toMint, v, u).Some?;
    }
  }

  lemma DepictsBelow(g: Net, adj: AdjMap, toMint: seq<PublicKey>, u: TokenID, v: TokenID)
    requires Depicts(g, adj, toMint) && Edge(g, u, v)
    ensures u < |toMint| && v < |toMint|
  {
    assert ByID(adj, toMint, u, v).Some?;
  }

  /** The ends of a walk between different mints are registered. */
  lemma WalkEndsRegistered(adj: AdjMap, toMint: seq<PublicKey>, q: seq<PublicKey>, a: PublicKey, b: PublicKey)
    requires Registered(adj, toMint) && MintWalk(adj, q, a, b) && a != b
    ensures a in toMint && b in toMint
  {
    assert MintHop(adj, q, 0) && MintHop(adj, q, |q| - 2);
  }

  lemma WalkToMints(g: Net, adj: AdjMap, toMint: seq<PublicKey>, p: seq<TokenID>, s: TokenID, t: TokenID)
    requires Depicts(g, adj, toMint) && WalkBetween(g, p, s, t) && s < |toMint| && t < |toMint|
    ensures MintWalk(adj, MintPath(p, toMint), toMint[s], toMint[t])
  {
    var q := MintPath(p, toMint);
    forall i | 0 <= i < |q| - 1 ensures MintHop(adj, q, i) {
      assert Hop(g, p, i);
      assert ByID(adj, toMint, p[i], p[i + 1]).Some?;
    }
  }

  lemma MintsToWalk(g: Net, adj: AdjMap, toMint: seq<PublicKey>, q: seq<PublicKey>, s: TokenID, t: TokenID)
    returns (p: seq<TokenID>)
    requires Depicts(g, adj, toMint) && s < |toMint| && t < |toMint|
    requires MintWalk(adj, q, toMint[s], toMint[t])
    ensures WalkBetween(g, p, s, t) && |p| == |q|
  {
    forall i | 0 <= i < |q| ensures q[i] in toMint {
      if i < |q| - 1 {
        assert MintHop(adj, q, i);
      }
    }
    p := seq(|q|, i requires 0 <= i < |q| && q[i] in toMint => IndexIn(toMint, q[i]));
    forall i | 0 <= i < |p| - 1 ensures Hop(g, p, i) {
      assert MintHop(adj, q, i);
      assert ByID(adj, toMint, p[i], p[i + 1]).Some?;
    }
  }

  ghost function IndexIn(toMint: seq<PublicKey>, m: PublicKey): (i: TokenID)
    requires m in toMint
    ensures i < |toMint| && toMint[i] == m
  {
    var i :| 0 <= i < |toMint| && toMint[i] == m;
    i
  }

  /**
   * What a route search must answer: walks of mints from input to output within
   * the hop bound, at most ten; some answer exactly when such a walk exists;
   * and a first answer no longer than any walk.
   */
  ghost predicate Answers(r: seq<seq<PublicKey>>, adj: AdjMap, a: PublicKey, b: PublicKey, bound: nat) {
    && |r| <= MAX_PATHS
    && (forall i :: 0 <= i < |r| ==> MintWalk(adj, r[i], a, b) && |r[i]| - 1 <= bound)
    && (r != [] <==> exists q :: MintWalk(adj, q, a, b) && |q| - 1 <= bound)
    && (r != [] ==> forall q :: MintWalk(adj, q, a, b) ==> |r[0]| <= |q|)
  }

  lemma SearchAnswers(g: Net, adj: AdjMap, toMint: seq<PublicKey>, s: TokenID, t: TokenID, maxHops: int)
    requires Depicts(g, adj, toMint) && SymmetricPairs(adj)
    requires s < |toMint| && t < |toMint| && s != t && 1 <= maxHops
    ensures Answers(MintPaths(FindRoutes(g, s, t, maxHops), toMint), adj, toMint[s], toMint[t],
                    2 * DepthPerSide(maxHops))
  {
    var bound, ps := 2 * DepthPerSide(maxHops), FindRoutes(g, s, t, maxHops);
    var r := MintPaths(ps, toMint);
    DepictsSymmetric(g, adj, toMint);
    SearchIsComplete(g, s, t, maxHops);
    forall i | 0 <= i < |r| ensures MintWalk(adj, r[i], toMint[s], toMint[t]) && |r[i]| - 1 <= bound {
      WalkToMints(g, adj, toMint, ps[i], s, t);
    }
    if r != [] {
      assert MintWalk(adj, r[0], toMint[s], toMint[t]) && |r[0]| - 1 <= bound;
    }
    forall q | MintWalk(adj, q, toMint[s], toMint[t])
      ensures (|q| - 1 <= bound ==> r != []) && (r != [] ==> |r[0]| <= |q|)
    {
      var p := MintsToWalk(g, adj, toMint, q, s, t);
      assert WalkBetween(g, p, s, t) && |p| == |q|;
    }
  }

  /** Mirrored lists compile to a symmetric relation, although each direction ranks its own reserves. */
  lemma CompiledSymmetric(compiled: AdjMap, st: GraphState, isReady: Pool -> bool)
    requires Linked(st) && IsCompiled(compiled, st.adj, isReady)
    ensures SymmetricPairs(compiled)
  {
    forall a, b | Listed(compiled, a, b) != [] ensures Listed(compiled, b, a) != [] {
      assert Listed(st.adj, a, b) == Listed(st.adj, b, a);
      assert IsRanked(compiled, st.adj, isReady, a, b) && IsRanked(compiled, st.adj, isReady, b, a);
    }
  }
}
