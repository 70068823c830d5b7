// Ranking the pools of a mint pair, and the precomputed super edges.
module SuperEdges {
  import opened Domain
  import opened Network

  const MAX_POOLS_PER_PAIR: nat := 5

  predicate Descending(pools: seq<Pool>, input: PublicKey) {
    forall i, j :: 0 <= i < j < |pools| ==> OutputReserve(pools[i], input) >= OutputReserve(pools[j], input)
  }

  /** `pools` splits into `top` and `rest`, and nothing in `rest` has more output reserve. */
  ghost predicate Splits(top: seq<Pool>, rest: seq<Pool>, pools: seq<Pool>, input: PublicKey) {
    && multiset(top) + multiset(rest) == multiset(pools)
    && |top| == (if |pools| < MAX_POOLS_PER_PAIR then |pools| else MAX_POOLS_PER_PAIR)
    && Descending(top, input)
    && forall p, q :: p in top && q in rest ==> OutputReserve(p, input) >= OutputReserve(q, input)
  }

  /**
   * `top` is a choice of the at most five pools of greatest output reserve, in
   * descending order. Pools of equal reserve may be chosen either way.
   */
  ghost predicate IsTop(top: seq<Pool>, pools: seq<Pool>, input: PublicKey) {
    exists rest :: Splits(top, rest, pools, input)
  }

  function Insert(sorted: seq<Pool>, p: Pool, input: PublicKey): seq<Pool> {
    if sorted == [] || OutputReserve(sorted[0], input) < OutputReserve(p, input) then [p] + sorted
    else [sorted[0]] + Insert(sorted[1..], p, input)
  }

  lemma {:induction false} InsertAdds(sorted: seq<Pool>, p: Pool, input: PublicKey)
    ensures multiset(Insert(sorted, p, input)) == multiset(sorted) + multiset{p}
  {
    if sorted != [] && OutputReserve(sorted[0], input) >= OutputReserve(p, input) {
      assert sorted == [sorted[0]] + sorted[1..];
      InsertAdds(sorted[1..], p, input);
    }
  }

  lemma {:induction false} InsertKeepsDescending(sorted: seq<Pool>, p: Pool, input: PublicKey)
    requires Descending(sorted, input)
    ensures Descending(Insert(sorted, p, input), input)
  {
    if sorted != [] && OutputReserve(sorted[0], input) >= OutputReserve(p, input) {
      var rest := Insert(sorted[1..], p, input);
      InsertAdds(sorted[1..], p, input);
      InsertKeepsDescending(sorted[1..], p, input);
      forall j | 0 <= j < |rest| ensures OutputReserve(sorted[0], input) >= OutputReserve(rest[j], input) {
        assert rest[j] in multiset(sorted[1..]) + multiset{p};
      }
      PrependDescending(sorted[0], rest, input);
    }
  }

  lemma PrependDescending(p: Pool, rest: seq<Pool>, input: PublicKey)
    requires Descending(rest, input)
    requires forall j :: 0 <= j < |rest| ==> OutputReserve(p, input) >= OutputReserve(rest[j], input)
    ensures Descending([p] + rest, input)
  {
  }

  /** Sorts by output reserve, greatest first. The order of equal reserves is not promised. */
  method SortByOutputReserve(pools: seq<Pool>, input: PublicKey) returns (r: seq<Pool>)
    ensures multiset(r) == multiset(pools) && Descending(r, input)
  {
    r := [];
    for i := 0 to |pools|
      invariant multiset(r) == multiset(pools[..i]) && Descending(r, input)
    {
      assert pools[..i + 1] == pools[..i] + [pools[i]];
      InsertAdds(r, pools[i], input);
      InsertKeepsDescending(r, pools[i], input);
      r := Insert(r, pools[i], input);
    }
    assert pools[..|pools|] == pools;
  }

  lemma CutIsTop(sorted: seq<Pool>, pools: seq<Pool>, input: PublicKey)
    requires multiset(sorted) == multiset(pools) && Descending(sorted, input)
    ensures |sorted| == |pools|
    ensures IsTop(if |sorted| > MAX_POOLS_PER_PAIR then sorted[..MAX_POOLS_PER_PAIR] else sorted, pools, input)
  {
    assert |multiset(sorted)| == |sorted| && |multiset(pools)| == |pools|;
    var n := if |sorted| > MAX_POOLS_PER_PAIR then MAX_POOLS_PER_PAIR else |sorted|;
    assert sorted == sorted[..n] + sorted[n..];
    assert Splits(sorted[..n], sorted[n..], pools, input);
    assert n == |sorted| ==> sorted[..n] == sorted;
  }

  method Rank(pools: seq<Pool>, input: PublicKey) returns (top: seq<Pool>)
    ensures IsTop(top, pools, input)
  {
    var sorted := SortByOutputReserve(pools, input);
    CutIsTop(sorted, pools, input);
    top := if |sorted| > MAX_POOLS_PER_PAIR then sorted[..MAX_POOLS_PER_PAIR] else sorted;
  }

  /** A precomputed edge of a snapshot; it never changes once built. */
  datatype SuperEdge = SuperEdge(from: TokenID, to: TokenID, fromMint: PublicKey, toMint: PublicKey,
                                 pools: seq<Pool>, bestPool: Option<Pool>)

  function NewImmutableSuperEdge(from: TokenID, to: TokenID, fromMint: PublicKey, toMint: PublicKey, pools: seq<Pool>)
    : SuperEdge
  {
    SuperEdge(from, to, fromMint, toMint, pools, if pools != [] then Some(pools[0]) else None)
  }

  /** The cached pool is one of greatest output reserve among all the pools ranked. */
  lemma BestPoolIsDeepest(from: TokenID, to: TokenID, fromMint: PublicKey, toMint: PublicKey, top: seq<Pool>,
                          pools: seq<Pool>)
    requires IsTop(top, pools, fromMint) && pools != []
    ensures var se := NewImmutableSuperEdge(from, to, fromMint, toMint, top);
            && se.bestPool.Some? && se.bestPool.value in pools
            && forall q :: q in pools ==> OutputReserve(se.bestPool.value, fromMint) >= OutputReserve(q, fromMint)
  {
    var rest :| Splits(top, rest, pools, fromMint);
    assert top[0] in multiset(pools);
    forall q | q in pools ensures OutputReserve(top[0], fromMint) >= OutputReserve(q, fromMint) {
      assert q in multiset(top) + multiset(rest);
    }
  }

  /** Sparse id-indexed storage of super edges. */
  class SuperEdgeMatrix {
    var edges: map<TokenID, map<TokenID, SuperEdge>>

    function At(from: TokenID, to: TokenID): Option<SuperEdge>
      reads this
    {
      if from in edges && to in edges[from] then Some(edges[from][to]) else None
    }

    constructor ()
      ensures forall i, j :: At(i, j) == None
    {
      edges := map[];
    }

    method Set(from: TokenID, to: TokenID, se: SuperEdge)
      modifies this
      ensures forall i, j :: At(i, j) == if i == from && j == to then Some(se) else old(At(i, j))
    {
      if from !in edges {
        edges := edges[from := map[]];
      }
      var row: map<TokenID, SuperEdge> := edges[from][to := se];
      edges := edges[from := row];
    }

    method Get(from: TokenID, to: TokenID) returns (se: Option<SuperEdge>)
      ensures se == At(from, to)
    {
      if from in edges && to in edges[from] {
        return Some(edges[from][to]);
      }
      return None;
    }
  }
}
