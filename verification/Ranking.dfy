// What the lists of a compiled snapshot promise about the reserves of their pools.
module Rankings {
  import opened Domain
  import opened GraphStates
  import opened SuperEdges
  import opened Snapshots

  /** The units of `mint` in the pool, for a pool of that mint. */
  function Holds(pool: Pool, mint: PublicKey): nat {
    if pool.mintB == mint then pool.reserveB else pool.reserveA
  }

  predicate Falling(list: seq<Pool>, mint: PublicKey) {
    forall i, j :: 0 <= i < j < |list| ==> Holds(list[i], mint) >= Holds(list[j], mint)
  }

  /**
   * The list holds at most five of the ready pools, those holding most of
   * `mint` first; a ready pool left out holds no more than any of them, and
   * none is left out while there is room.
   */
  ghost predicate Deepest(list: seq<Pool>, pools: seq<Pool>, isReady: Pool -> bool, mint: PublicKey) {
    && |list| <= 5 && Falling(list, mint)
    && (forall p :: p in list ==> p in pools && isReady(p))
    && (forall p, q :: p in list && LeftOut(list, pools, isReady, q) ==> Holds(p, mint) >= Holds(q, mint))
    && (|list| < 5 ==> forall q :: q in pools && isReady(q) ==> q in list)
  }

  predicate LeftOut(list: seq<Pool>, pools: seq<Pool>, isReady: Pool -> bool, q: Pool) {
    q in pools && isReady(q) && q !in list
  }

  lemma {:induction false} ReadyOnes(pools: seq<Pool>, isReady: Pool -> bool, p: Pool)
    ensures p in ReadyOf(pools, isReady) <==> p in pools && isReady(p)
  {
    if pools != [] {
      var last := |pools| - 1;
      ReadyOnes(pools[..last], isReady, p);
      assert pools == pools[..last] + [pools[last]];
    }
  }

  /** A pool listed from `a` to `b` pays out of its reserve of `b`. */
  lemma PaysFromReserve(st: GraphState, a: PublicKey, b: PublicKey, p: Pool)
    requires Linked(st) && p in Listed(st.adj, a, b)
    ensures OutputReserve(p, a) == Holds(p, b)
  {
    OccursIffListed(Listed(st.adj, a, b), p.address);
    assert Occurrences(Listed(st.adj, a, b), p.address) == Expected(st.pools, a, b, p.address);
    assert Joins(p, a, b) && a != b;
  }

  /** `ready` are the ready ones of `pools`, each paying out of its reserve of `b` for `a`. */
  ghost predicate ReadyPaying(ready: seq<Pool>, pools: seq<Pool>, isReady: Pool -> bool, a: PublicKey, b: PublicKey) {
    && (forall p :: p in ready <==> p in pools && isReady(p))
    && (forall p :: p in ready ==> OutputReserve(p, a) == Holds(p, b))
  }

  lemma ReadyPay(st: GraphState, isReady: Pool -> bool, a: PublicKey, b: PublicKey)
    requires Linked(st)
    ensures ReadyPaying(ReadyOf(Listed(st.adj, a, b), isReady), Listed(st.adj, a, b), isReady, a, b)
  {
    var pools := Listed(st.adj, a, b);
    var ready := ReadyOf(pools, isReady);
    forall p ensures p in ready <==> p in pools && isReady(p) {
      ReadyOnes(pools, isReady, p);
    }
    forall p | p in ready ensures OutputReserve(p, a) == Holds(p, b) {
      PaysFromReserve(st, a, b, p);
    }
  }

  lemma SplitMembers(list: seq<Pool>, rest: seq<Pool>, ready: seq<Pool>, a: PublicKey, p: Pool)
    requires Splits(list, rest, ready, a)
    ensures p in ready <==> p in list || p in rest
    ensures |list| < 5 ==> rest == []
  {
    assert p in multiset(ready) <==> p in multiset(list) + multiset(rest);
    assert |multiset(list)| + |multiset(rest)| == |multiset(ready)|;
  }

  lemma SplitIsDeepest(list: seq<Pool>, rest: seq<Pool>, ready: seq<Pool>, pools: seq<Pool>, isReady: Pool -> bool,
                       a: PublicKey, b: PublicKey)
    requires Splits(list, rest, ready, a) && ReadyPaying(ready, pools, isReady, a, b)
    ensures Deepest(list, pools, isReady, b)
  {
    forall p
      ensures p in ready <==> p in list || p in rest
      ensures |list| < 5 ==> rest == []
    {
      SplitMembers(list, rest, ready, a, p);
    }
    forall i, j | 0 <= i < j < |list| ensures Holds(list[i], b) >= Holds(list[j], b) {
      assert list[i] in list && list[j] in list;
    }
  }

  /** In fields only: every list of a snapshot compiled from a linked state is ranked by what its pools pay from. */
  lemma CompiledByReserve(compiled: AdjMap, st: GraphState, isReady: Pool -> bool, a: PublicKey, b: PublicKey)
    requires IsCompiled(compiled, st.adj, isReady) && Linked(st)
    ensures Deepest(Listed(compiled, a, b), Listed(st.adj, a, b), isReady, b)
  {
    assert IsRanked(compiled, st.adj, isReady, a, b);
    var pools := Listed(st.adj, a, b);
    var rest :| Splits(Listed(compiled, a, b), rest, ReadyOf(pools, isReady), a);
    ReadyPay(st, isReady, a, b);
    SplitIsDeepest(Listed(compiled, a, b), rest, ReadyOf(pools, isReady), pools, isReady, a, b);
  }

  /** The first pool of a ranked list holds at least as much as any ready pool. */
  lemma FirstHoldsMost(list: seq<Pool>, pools: seq<Pool>, isReady: Pool -> bool, mint: PublicKey, q: Pool)
    requires Deepest(list, pools, isReady, mint) && q in pools && isReady(q)
    ensures list != [] && Holds(list[0], mint) >= Holds(q, mint)
  {
    if q in list {
      var i :| 0 <= i < |list| && list[i] == q;
    } else {
      assert LeftOut(list, pools, isReady, q);
      assert list[0] in list;
    }
  }
}
