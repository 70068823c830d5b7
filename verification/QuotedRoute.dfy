// Quoting the routes that the search returns.
module QuotedRoutes {
  import opened Domain
  import opened GraphStates
  import opened Routes
  import opened SuperEdgeQuotes
  import opened PathEvaluator

  /** The deepest pool of hop `i`, in the order of evaluation, refuses the amount carried into it with `error`. */
  ghost predicate RefusedAt(w: Width, adj: AdjMap, q: Quoter, path: seq<PublicKey>, amount: nat, exactIn: bool, i: nat,
                            error: QuoteError)
    requires i + 1 < |path|
  {
    var from, before := HopFrom(path, exactIn, i), Before(w, EdgesOf(w, adj, q), path, amount, exactIn, i);
    before.Success? && Refuses(q, Listed(adj, from, HopTo(path, exactIn, i)), from, before.value.amount, exactIn, error)
  }

  predicate Refuses(q: Quoter, pools: seq<Pool>, from: PublicKey, amount: nat, exactIn: bool, error: QuoteError) {
    pools != [] && q(pools[0], amount, pools[0].mintA == from, exactIn) == Failure(error)
  }

  lemma HopRefused(w: Width, adj: AdjMap, q: Quoter, from: PublicKey, to: PublicKey, amount: nat, exactIn: bool)
    requires Listed(adj, from, to) != []
    ensures var r := Hop(EdgesOf(w, adj, q), from, to, amount, exactIn);
            r.Failure? ==> Refuses(q, Listed(adj, from, to), from, amount, exactIn, r.error)
  {
    QuoteOutcome(w, q, Listed(adj, from, to), from, amount, exactIn);
  }

  /** One of the first `n` hops is refused. */
  ghost predicate Refused(w: Width, adj: AdjMap, q: Quoter, path: seq<PublicKey>, amount: nat, exactIn: bool, n: nat,
                          error: QuoteError)
    requires n < |path|
  {
    exists i: nat :: i < n && RefusedAt(w, adj, q, path, amount, exactIn, i, error)
  }

  /** The evaluation over the first `n` hops fails only if one of them is refused. */
  ghost predicate FailsRefused(w: Width, adj: AdjMap, q: Quoter, path: seq<PublicKey>, amount: nat, exactIn: bool,
                               n: nat)
    requires n < |path|
  {
    var r := Before(w, EdgesOf(w, adj, q), path, amount, exactIn, n);
    r.Failure? ==> Refused(w, adj, q, path, amount, exactIn, n, r.error)
  }

  lemma RefusedLonger(w: Width, adj: AdjMap, q: Quoter, path: seq<PublicKey>, amount: nat, exactIn: bool, n: nat,
                      error: QuoteError)
    requires n + 1 < |path|
    requires Refused(w, adj, q, path, amount, exactIn, n, error)
          || RefusedAt(w, adj, q, path, amount, exactIn, n, error)
    ensures Refused(w, adj, q, path, amount, exactIn, n + 1, error)
  {
  }

  lemma NextRefused(w: Width, adj: AdjMap, q: Quoter, path: seq<PublicKey>, amount: nat, exactIn: bool, n: nat)
    requires n + 1 < |path| && Listed(adj, HopFrom(path, exactIn, n), HopTo(path, exactIn, n)) != []
    requires FailsRefused(w, adj, q, path, amount, exactIn, n)
    ensures FailsRefused(w, adj, q, path, amount, exactIn, n + 1)
  {
    var from, to := HopFrom(path, exactIn, n), HopTo(path, exactIn, n);
    var before := Before(w, EdgesOf(w, adj, q), path, amount, exactIn, n);
    var r := Before(w, EdgesOf(w, adj, q), path, amount, exactIn, n + 1);
    if before.Failure? {
      assert r == before;
      RefusedLonger(w, adj, q, path, amount, exactIn, n, r.error);
    } else if r.Failure? {
      HopRefused(w, adj, q, from, to, before.value.amount, exactIn);
      assert Hop(EdgesOf(w, adj, q), from, to, before.value.amount, exactIn) == Failure(r.error);
      RefusedLonger(w, adj, q, path, amount, exactIn, n, r.error);
    }
  }

  ghost predicate EveryHopListed(adj: AdjMap, path: seq<PublicKey>) {
    forall i: nat :: i + 1 < |path| ==> MintHop(adj, path, i)
  }

  lemma HopListed(adj: AdjMap, path: seq<PublicKey>, exactIn: bool, n: nat)
    requires n + 1 < |path| && EveryHopListed(adj, path)
    ensures Listed(adj, HopFrom(path, exactIn, n), HopTo(path, exactIn, n)) != []
  {
    assert MintHop(adj, path, if exactIn then n else |path| - n - 2);
  }

  lemma NoneRefused(w: Width, adj: AdjMap, q: Quoter, path: seq<PublicKey>, amount: nat, exactIn: bool)
    requires path != []
    ensures FailsRefused(w, adj, q, path, amount, exactIn, 0)
  {
  }

  lemma {:induction false} BeforeRefused(w: Width, adj: AdjMap, q: Quoter, path: seq<PublicKey>, amount: nat,
                                         exactIn: bool, n: nat)
    requires n < |path| && EveryHopListed(adj, path)
    ensures FailsRefused(w, adj, q, path, amount, exactIn, n)
  {
    if n == 0 {
      NoneRefused(w, adj, q, path, amount, exactIn);
    } else {
      BeforeRefused(w, adj, q, path, amount, exactIn, n - 1);
      HopListed(adj, path, exactIn, n - 1);
      NextRefused(w, adj, q, path, amount, exactIn, n - 1);
    }
  }

  /**
   * On a route the search can return, an evaluation fails only because the
   * deepest pool of some hop refuses the amount carried into that hop; it
   * never lacks a super edge.
   */
  lemma RouteFailsOnlyIfRefused(w: Width, adj: AdjMap, q: Quoter, path: seq<PublicKey>, a: PublicKey, b: PublicKey,
                                amount: nat, exactIn: bool)
    requires MintWalk(adj, path, a, b) && a != b
    ensures var r := Evaluation(w, EdgesOf(w, adj, q), path, amount, exactIn);
            r.Failure? ==> Refused(w, adj, q, path, amount, exactIn, |path| - 1, r.error)
  {
    BeforeRefused(w, adj, q, path, amount, exactIn, |path| - 1);
  }
}
