// The id-indexed adjacency: a square table of pool lists that grows on demand.
module AdjSlices {
  import opened Domain
  import opened Network

  const MIN_CAPACITY: nat := 64

  /** `None` is the nil slice of a pair never set; `Some([])` is an emptied one. */
  type PoolList = Option<seq<Pool>>

  function PoolsOf(ps: PoolList): seq<Pool> {
    if ps.Some? then ps.value else []
  }

  predicate HasPools(ps: PoolList) {
    PoolsOf(ps) != []
  }

  class AdjSlice {
    var edges: array2<PoolList>
    var capacity: nat

    ghost predicate Valid()
      reads this
    {
      edges.Length0 == capacity && edges.Length1 == capacity
    }

    /** The pool list of a pair of ids, nil outside the table. */
    ghost function At(from: TokenID, to: TokenID): PoolList
      requires Valid()
      reads this, edges
    {
      if from < capacity && to < capacity then edges[from, to] else None
    }

    /** The ids below `k` that `from` has pools to, in increasing order. */
    ghost function NeighborsBelow(from: TokenID, k: nat): (r: seq<TokenID>)
      requires Valid()
      reads this, edges
      ensures forall v: TokenID :: v in r <==> v < k && HasPools(At(from, v))
      ensures capacity <= from ==> r == []
    {
      if k == 0 then [] else
        NeighborsBelow(from, k - 1) + if HasPools(At(from, k - 1)) then [k - 1] else []
    }

    /** The network the path finder searches. */
    ghost function Net(): Net
      requires Valid()
      reads this, edges
    {
      seq(capacity, u requires 0 <= u && Valid() reads this, edges => NeighborsBelow(u, capacity))
    }

    lemma NetEdges()
      requires Valid()
      ensures forall u: TokenID, v: TokenID :: Edge(Net(), u, v) <==> HasPools(At(u, v))
    {
      forall u: TokenID, v: TokenID ensures Edge(Net(), u, v) <==> HasPools(At(u, v)) {
        assert u < capacity ==> Neighbors(Net(), u) == NeighborsBelow(u, capacity);
      }
    }

    constructor (initialCapacity: int)
      ensures Valid() && fresh(edges)
      ensures forall i, j :: At(i, j) == None
      ensures capacity == if initialCapacity < MIN_CAPACITY then MIN_CAPACITY else initialCapacity
    {
      var n := if initialCapacity < MIN_CAPACITY then MIN_CAPACITY else initialCapacity;
      edges := new PoolList[n, n]((_, _) => None);
      capacity := n;
    }

    /** Grows the table to hold `id`; no pool list changes. */
    method EnsureCapacity(id: TokenID)
      requires Valid()
      modifies this
      ensures Valid() && id < capacity && old(capacity) <= capacity
      ensures edges == old(edges) || fresh(edges)
      ensures forall i, j :: At(i, j) == old(At(i, j))
    {
      var needed := id + 1;
      if needed <= capacity {
        return;
      }
      var newCap := capacity * 2;
      if newCap < needed {
        newCap := needed;
      }
      var newEdges := new PoolList[newCap, newCap]((_, _) => None);
      var table, cap := edges, capacity;
      for i := 0 to cap
        invariant forall p, q :: 0 <= p < newCap && 0 <= q < newCap ==>
          newEdges[p, q] == if p < i && q < cap then table[p, q] else None
      {
        for j := 0 to cap
          invariant forall p, q :: 0 <= p < newCap && 0 <= q < newCap ==>
            newEdges[p, q] == if (p < i && q < cap) || (p == i && q < j) then table[p, q] else None
        {
          newEdges[i, j] := table[i, j];
        }
      }
      edges := newEdges;
      capacity := newCap;
    }

    method Set(from: TokenID, to: TokenID, pools: seq<Pool>)
      requires Valid()
      modifies this, edges
      ensures Valid() && from < capacity && to < capacity && old(capacity) <= capacity
      ensures edges == old(edges) || fresh(edges)
      ensures forall i, j :: At(i, j) == if i == from && j == to then Some(pools) else old(At(i, j))
    {
      EnsureCapacity(from);
      EnsureCapacity(to);
      edges[from, to] := Some(pools);
    }

    method Get(from: TokenID, to: TokenID) returns (ps: PoolList)
      requires Valid()
      ensures ps == At(from, to)
    {
      if from >= capacity || to >= capacity {
        return None;
      }
      ps := edges[from, to];
    }

    method Append(from: TokenID, to: TokenID, pool: Pool)
      requires Valid()
      modifies this, edges
      ensures Valid() && (edges == old(edges) || fresh(edges))
      ensures forall i, j :: !(i == from && j == to) ==> At(i, j) == old(At(i, j))
      ensures At(from, to) == Some(old(PoolsOf(At(from, to))) + [pool])
    {
      EnsureCapacity(from);
      EnsureCapacity(to);
      edges[from, to] := Some(PoolsOf(edges[from, to]) + [pool]);
    }

    /** Removes the first pool with the address by moving the last one into its place. */
    method Remove(from: TokenID, to: TokenID, address: PublicKey)
      requires Valid()
      modifies edges
      ensures Valid()
      ensures forall i, j :: !(i == from && j == to) ==> At(i, j) == old(At(i, j))
      ensures At(from, to).Some? == old(At(from, to).Some?)
      ensures PoolsOf(At(from, to)) == SwapRemoved(old(PoolsOf(At(from, to))), address)
    {
      if from >= capacity || to >= capacity || edges[from, to].None? {
        return;
      }
      var pools := edges[from, to].value;
      for i := 0 to |pools|
        invariant IndexOf(pools, address, 0) == IndexOf(pools, address, i)
        invariant edges[from, to] == Some(pools)
        invariant forall p, q :: At(p, q) == old(At(p, q))
      {
        if pools[i].address == address {
          var last := |pools| - 1;
          edges[from, to] := Some(pools[i := pools[last]][..last]);
          return;
        }
      }
    }

    /** Appends the neighbours of `from` to the buffer. */
    method GetNeighborsInto(from: TokenID, buf: seq<TokenID>) returns (r: seq<TokenID>)
      requires Valid()
      ensures r == buf + Neighbors(Net(), from)
    {
      r := buf;
      if from >= capacity {
        return;
      }
      for j := 0 to capacity
        invariant r == buf + NeighborsBelow(from, j)
      {
        if edges[from, j].Some? && |edges[from, j].value| > 0 {
          r := r + [j];
        }
      }
    }
  }

  /** The first index at or after `i` holding the address, or the length if there is none. */
  function IndexOf(pools: seq<Pool>, address: PublicKey, i: nat): (k: nat)
    requires i <= |pools|
    ensures i <= k <= |pools|
    ensures k < |pools| ==> pools[k].address == address
    ensures forall j :: i <= j < k ==> pools[j].address != address
    decreases |pools| - i
  {
    if i == |pools| || pools[i].address == address then i else IndexOf(pools, address, i + 1)
  }

  function SwapRemoved(pools: seq<Pool>, address: PublicKey): seq<Pool> {
    var k := IndexOf(pools, address, 0);
    if k == |pools| then pools else pools[k := pools[|pools| - 1]][..|pools| - 1]
  }

  /** Exactly one pool leaves, the first with the address; without one the list is unchanged. */
  lemma SwapRemoveTakesOne(pools: seq<Pool>, address: PublicKey)
    ensures (forall p :: p in pools ==> p.address != address) ==> SwapRemoved(pools, address) == pools
    ensures (exists p :: p in pools && p.address == address) ==>
      var k := IndexOf(pools, address, 0);
      && k < |pools| && pools[k].address == address
      && multiset(SwapRemoved(pools, address)) == multiset(pools) - multiset{pools[k]}
  {
    if IndexOf(pools, address, 0) < |pools| {
      SwapOut(pools, IndexOf(pools, address, 0));
    }
  }

  lemma DropLast<T>(s: seq<T>)
    requires s != []
    ensures multiset(s[..|s| - 1]) == multiset(s) - multiset{s[|s| - 1]}
  {
    assert s == s[..|s| - 1] + [s[|s| - 1]];
  }

  lemma SwapOut<T>(s: seq<T>, k: nat)
    requires k < |s|
    ensures multiset(s[k := s[|s| - 1]][..|s| - 1]) == multiset(s) - multiset{s[k]}
  {
    DropLast(s[k := s[|s| - 1]]);
  }
}
