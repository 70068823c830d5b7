// The routing graph: mutable pool table and adjacency, lazily compiled into a
// snapshot that every lookup reads.
module Graphs {
  import opened Domain
  import opened Network
  import opened Search
  import opened GraphStates
  import opened AdjSlices
  import opened TokenRegistries
  import opened SuperEdges
  import opened Snapshots
  import opened Rankings
  import opened Arenas
  import opened Routes

  /** Changes since the last snapshot. */
  datatype GraphDiff = GraphDiff(added: seq<Pool>, removed: seq<PublicKey>, updated: seq<Pool>)

  const NO_DIFF := GraphDiff([], [], [])

  ghost function ReadyKeys(pools: map<PublicKey, Pool>, isReady: Pool -> bool): set<PublicKey> {
    set k | k in pools && isReady(pools[k])
  }

  class Graph {
    const registry: TokenRegistry
    var adj: AdjMap
    var pools: map<PublicKey, Pool>
    var isReady: Pool -> bool  // the pool's own flag, unless a checker was set
    var pendingDiff: GraphDiff
    var snapshotDirty: bool
    var snapshot: Option<Snapshot>
    var poolCount: nat
    var readyPoolCount: nat

    function State(): GraphState
      reads this`adj, this`pools
    {
      GraphState(adj, pools)
    }

    /** The three views of the current snapshot hold the same lists. */
    ghost predicate Served()
      reads this`snapshot, registry
      reads if snapshot.Some? then {snapshot.value.adjFast, snapshot.value.superEdges, snapshot.value.adjFast.edges}
            else {}
    {
      snapshot.Some? && snapshot.value.Consistent(registry)
    }

    /** The snapshot was compiled from the current state. */
    ghost predicate UpToDate()
      reads this`snapshot, this`adj, this`pools, this`isReady, this`poolCount, this`readyPoolCount
    {
      && snapshot.Some? && snapshot.value.CompiledFrom(State(), isReady)
      && poolCount == |pools| && readyPoolCount == |ReadyKeys(pools, isReady)|
    }

    /** The id space has room for every mint listed. */
    ghost predicate Roomy()
      reads this`adj, registry
    {
      registry.Valid() && |registry.toID.Keys + MintsOf(adj)| < ID_SPACE - 1
    }

    constructor ()
      ensures State() == GraphState(map[], map[]) && Linked(State())
      ensures Served() && UpToDate() && fresh(registry)
    {
      registry := new TokenRegistry();
      adj := map[];
      pools := map[];
      isReady := (p: Pool) => p.ready;
      pendingDiff := NO_DIFF;
      snapshotDirty := false;
      snapshot := None;
      new;
      EmptyLinked();
      assert |registry.toID.Keys + MintsOf(adj)| == 0;
      RebuildSnapshot();
    }

    // ---------- mutation ----------

    method AppendEdge(from: PublicKey, to: PublicKey, pool: Pool)
      modifies this`adj
      ensures adj == AddEdge(old(adj), from, to, pool)
    {
      if from !in adj {
        adj := adj[from := map[]];
      }
      var row := adj[from];
      adj := adj[from := row[to := (if to in row then row[to] else []) + [pool]]];
    }

    /** Adds a pool to the mutable state; true if its address was already known. */
    method AddPoolLocked(pool: Pool) returns (isUpdate: bool)
      modifies this`adj, this`pools
      ensures State() == Add(old(State()), pool)
      ensures isUpdate == (pool.address in old(pools))
    {
      if pool.address in pools {
        pools := pools[pool.address := pool];
        return true;
      }
      pools := pools[pool.address := pool];
      AppendEdge(pool.mintA, pool.mintB, pool);
      AppendEdge(pool.mintB, pool.mintA, pool);
      return false;
    }

    /** Only the mutable state changes; the snapshot is marked for a later rebuild. */
    method AddPool(pool: Pool)
      modifies this`adj, this`pools, this`pendingDiff, this`snapshotDirty
      ensures State() == Add(old(State()), pool) && snapshotDirty
      ensures pendingDiff == if pool.address in old(pools)
                             then old(pendingDiff).(updated := old(pendingDiff).updated + [pool])
                             else old(pendingDiff).(added := old(pendingDiff).added + [pool])
    {
      var isUpdate := AddPoolLocked(pool);
      if isUpdate {
        pendingDiff := pendingDiff.(updated := pendingDiff.updated + [pool]);
      } else {
        pendingDiff := pendingDiff.(added := pendingDiff.added + [pool]);
      }
      snapshotDirty := true;
    }

    method AddAllLocked(batch: seq<Pool>)
      modifies this`adj, this`pools
      ensures State() == AddAll(old(State()), batch)
    {
      for i := 0 to |batch|
        invariant State() == AddAll(old(State()), batch[..i])
      {
        var _ := AddPoolLocked(batch[i]);
        assert batch[..i + 1][..i] == batch[..i];
      }
      assert batch[..|batch|] == batch;
    }

    /** Adds a batch and compiles at once. */
    method AddPoolsBatch(batch: seq<Pool>)
      requires registry.Valid()
      requires |registry.toID.Keys + MintsOf(AddAll(State(), batch).adj)| < ID_SPACE - 1
      modifies this, registry
      ensures State() == AddAll(old(State()), batch)
      ensures Served() && UpToDate() && !snapshotDirty && pendingDiff == NO_DIFF
    {
      AddAllLocked(batch);
      RefreshSnapshot();
    }

    static method Filter(pools: seq<Pool>, address: PublicKey) returns (kept: seq<Pool>)
      ensures kept == Without(pools, address)
    {
      kept := [];
      for i := 0 to |pools|
        invariant kept + Without(pools[i..], address) == Without(pools, address)
      {
        assert pools[i..][1..] == pools[i + 1..];
        if pools[i].address != address {
          kept := kept + [pools[i]];
        }
      }
    }

    method RemoveEdgeFrom(from: PublicKey, to: PublicKey, address: PublicKey)
      modifies this`adj
      ensures adj == RemoveEdge(old(adj), from, to, address)
    {
      if from in adj {
        var row := adj[from];
        if to in row {
          var kept := Filter(row[to], address);
          row := if |kept| == 0 then row - {to} else row[to := kept];
        }
        adj := if row == map[] then adj - {from} else adj[from := row];
      }
    }

    method RemovePool(address: PublicKey)
      modifies this`adj, this`pools, this`pendingDiff, this`snapshotDirty
      ensures State() == Remove(old(State()), address)
      ensures address in old(pools) ==>
                snapshotDirty && pendingDiff == old(pendingDiff).(removed := old(pendingDiff).removed + [address])
      ensures address !in old(pools) ==> pendingDiff == old(pendingDiff) && snapshotDirty == old(snapshotDirty)
    {
      if address !in pools {
        return;
      }
      var pool := pools[address];
      pools := pools - {address};
      RemoveEdgeFrom(pool.mintA, pool.mintB, address);
      RemoveEdgeFrom(pool.mintB, pool.mintA, address);
      pendingDiff := pendingDiff.(removed := pendingDiff.removed + [address]);
      snapshotDirty := true;
    }

    // ---------- snapshots ----------

    method CountReady() returns (n: nat)
      ensures n == |ReadyKeys(pools, isReady)|
    {
      n := 0;
      var todo := pools.Keys;
      ghost var seen: set<PublicKey> := {};
      while todo != {}
        invariant todo <= pools.Keys && n == |seen|
        invariant seen == set k | k in pools && k !in todo && isReady(pools[k])
      {
        var k :| k in todo;
        todo := todo - {k};
        if isReady(pools[k]) {
          n := n + 1;
          seen := seen + {k};
        }
      }
      assert seen == ReadyKeys(pools, isReady);
    }

    method CompileSnapshot() returns (snap: Snapshot)
      requires Roomy()
      modifies registry
      ensures snap.Consistent(registry) && snap.CompiledFrom(State(), isReady)
    {
      var v := EmptyViews(registry);
      var newAdj := Compile(adj, isReady, v);
      snap := Snapshot(newAdj, pools, v.fast, v.supers);
    }

    method Publish(snap: Snapshot, readyCount: nat)
      requires snap.Consistent(registry) && snap.CompiledFrom(State(), isReady)
      requires readyCount == |ReadyKeys(pools, isReady)|
      modifies this`snapshot, this`poolCount, this`readyPoolCount
      ensures Served() && UpToDate()
    {
      snapshot := Some(snap);
      poolCount := |pools|;
      readyPoolCount := readyCount;
    }

    /** Compiles a new snapshot with pre-filtered, ranked pools. */
    method RebuildSnapshot()
      requires Roomy()
      modifies this`snapshot, this`poolCount, this`readyPoolCount, registry
      ensures Served() && UpToDate()
    {
      var readyCount := CountReady();
      var snap := CompileSnapshot();
      Publish(snap, readyCount);
    }

    method ClearPending()
      modifies this`pendingDiff, this`snapshotDirty
      ensures pendingDiff == NO_DIFF && !snapshotDirty
    {
      pendingDiff := NO_DIFF;
      snapshotDirty := false;
    }

    method RefreshSnapshot()
      requires Roomy()
      modifies this`pendingDiff, this`snapshotDirty, this`snapshot, this`poolCount, this`readyPoolCount, registry
      ensures unchanged(`adj, `pools) && !snapshotDirty && pendingDiff == NO_DIFF
      ensures Served() && UpToDate()
    {
      ClearPending();
      RebuildSnapshot();
    }

    // ---------- lookups ----------

    /** All ready pools of a pair; the id-indexed and the map lookup give the same answer. */
    method GetDirectRoutesForPair(mintA: PublicKey, mintB: PublicKey) returns (r: PoolList)
      requires Served()
      ensures PoolsOf(r) == Listed(snapshot.value.adj, mintA, mintB)
      ensures r.None? <==> Listed(snapshot.value.adj, mintA, mintB) == []
    {
      var snap := snapshot.value;
      var idA := registry.GetID(mintA);
      var idB := registry.GetID(mintB);
      if idA.Some? && idB.Some? {
        r := snap.adjFast.Get(idA.value, idB.value);
        return;
      }
      if mintA in snap.adj && mintB in snap.adj[mintA] && |snap.adj[mintA][mintB]| > 0 {
        return Some(snap.adj[mintA][mintB]);
      }
      return None;
    }

    /** The precomputed edge of a pair holds exactly the pair's list, and exists when that is non-empty. */
    method GetPrecomputedSuperEdge(from: PublicKey, to: PublicKey) returns (se: Option<SuperEdge>)
      requires Served()
      ensures se.Some? <==> Listed(snapshot.value.adj, from, to) != []
      ensures se.Some? ==>
                && se.value.pools == Listed(snapshot.value.adj, from, to)
                && se.value.fromMint == from && se.value.toMint == to && se.value.bestPool == Some(se.value.pools[0])
    {
      var idA := registry.GetID(from);
      var idB := registry.GetID(to);
      if idA.None? || idB.None? {
        return None;
      }
      se := snapshot.value.superEdges.Get(idA.value, idB.value);
    }

    // ---------- route search ----------

    /** The routes of a pair, as a function of the snapshot and the registry only. */
    ghost function RoutesFor(input: PublicKey, output: PublicKey, maxHops: int): seq<seq<PublicKey>>
      requires Served()
      reads this`snapshot, registry
      reads if snapshot.Some? then {snapshot.value.adjFast, snapshot.value.superEdges, snapshot.value.adjFast.edges}
            else {}
    {
      if input in registry.toID && output in registry.toID && input != output
      then MintPaths(FindRoutes(snapshot.value.adjFast.Net(), registry.toID[input], registry.toID[output], maxHops),
                     registry.toMint)
      else []
    }

    lemma ServedDepicts()
      requires Served()
      ensures Depicts(snapshot.value.adjFast.Net(), snapshot.value.adj, registry.toMint)
    {
      var snap := snapshot.value;
      assert snap.Consistent(registry);
      snap.adjFast.NetEdges();
      forall u, v ensures Edge(snap.adjFast.Net(), u, v) <==> ByID(snap.adj, registry.toMint, u, v).Some? {
        assert snap.adjFast.At(u, v) == ByID(snap.adj, registry.toMint, u, v);
      }
    }

    lemma ServedBelow(capacity: nat)
      requires Served() && |registry.toMint| <= capacity
      ensures Below(snapshot.value.adjFast.Net(), capacity)
    {
      ServedDepicts();
      var g := snapshot.value.adjFast.Net();
      forall u: TokenID, v: TokenID | Edge(g, u, v) ensures v < capacity {
        DepictsBelow(g, snapshot.value.adj, registry.toMint, u, v);
      }
    }

    lemma ServedAnswers(input: PublicKey, output: PublicKey, maxHops: int)
      requires Served() && SymmetricPairs(snapshot.value.adj) && input != output && 1 <= maxHops
      ensures Answers(RoutesFor(input, output, maxHops), snapshot.value.adj, input, output, 2 * DepthPerSide(maxHops))
    {
      var adj, toMint := snapshot.value.adj, registry.toMint;
      ServedDepicts();
      if input in registry.toID && output in registry.toID {
        SearchAnswers(snapshot.value.adjFast.Net(), adj, toMint, registry.toID[input], registry.toID[output], maxHops);
      } else {
        forall q | MintWalk(adj, q, input, output) ensures false {
          WalkEndsRegistered(adj, toMint, q, input, output);
        }
      }
    }

    method TranslatePath(path: seq<TokenID>) returns (mints: seq<PublicKey>)
      ensures mints == MintPath(path, registry.toMint)
    {
      mints := [];
      for j := 0 to |path|
        invariant mints == MintPath(path, registry.toMint)[..j]
      {
        mints := mints + [registry.GetMint(path[j])];
      }
    }

    method Translate(slices: seq<Slice>, rows: Rows, ghost paths: seq<seq<TokenID>>) returns (r: seq<seq<PublicKey>>)
      requires Denotes(rows, slices, paths)
      ensures r == MintPaths(paths, registry.toMint)
    {
      r := [];
      for i := 0 to |slices|
        invariant |r| == i && forall k :: 0 <= k < i ==> r[k] == MintPath(paths[k], registry.toMint)
      {
        var mints := TranslatePath(slices[i].Read(rows));
        r := r + [mints];
      }
    }

    /** Searches by id, translates the stored paths, and resets the arena for its next user. */
    method SearchIDs(fast: AdjSlice, s: TokenID, t: TokenID, maxHops: int, arena: Arena, ghost g: Net)
      returns (r: seq<seq<PublicKey>>)
      requires arena.Clean() && s < arena.capacity && t < arena.capacity
      requires fast.Valid() && fast.Net() == g && Below(g, arena.capacity) && fast.At(s, t) != Some([])
      modifies arena, arena.forward.gen, arena.forward.parent, arena.backward.gen, arena.backward.parent
      ensures arena.Clean() && r == MintPaths(FindRoutes(g, s, t, maxHops), registry.toMint)
    {
      var slices := arena.Search(fast, s, t, maxHops, g);
      r := Translate(slices, arena.pathStorage, FindRoutes(g, s, t, maxHops));
      arena.Reset();
    }

    method SearchSnapshot(s: TokenID, t: TokenID, maxHops: int, arena: Arena) returns (r: seq<seq<PublicKey>>)
      requires Served() && arena.Clean() && |registry.toMint| <= arena.capacity
      requires s < |registry.toMint| && t < |registry.toMint|
      modifies arena, arena.forward.gen, arena.forward.parent, arena.backward.gen, arena.backward.parent
      ensures arena.Clean() && Served()
      ensures r == MintPaths(FindRoutes(snapshot.value.adjFast.Net(), s, t, maxHops), registry.toMint)
    {
      var fast := snapshot.value.adjFast;
      ServedBelow(arena.capacity);
      r := SearchIDs(fast, s, t, maxHops, arena, fast.Net());
    }

    /**
     * Finds routes with a recycled arena. The result does not depend on what
     * the arena was used for before, and the arena is ready for reuse.
     */
    method FindPaths(input: PublicKey, output: PublicKey, maxHops: int, arena: Arena) returns (r: seq<seq<PublicKey>>)
      requires Served() && arena.Clean() && |registry.toMint| <= arena.capacity
      modifies arena, arena.forward.gen, arena.forward.parent, arena.backward.gen, arena.backward.parent
      ensures arena.Clean()
      ensures Served() && r == RoutesFor(input, output, maxHops)
    {
      var s := registry.GetID(input);
      var t := registry.GetID(output);
      if s.None? || t.None? || s.value == t.value {
        return [];
      }
      r := SearchSnapshot(s.value, t.value, maxHops, arena);
    }

    /** On a snapshot compiled from a linked state, the route search answers in full. */
    lemma UpToDateAnswers(input: PublicKey, output: PublicKey, maxHops: int)
      requires Served() && UpToDate() && Linked(State()) && input != output && 1 <= maxHops
      ensures SymmetricPairs(snapshot.value.adj)
      ensures Answers(RoutesFor(input, output, maxHops), snapshot.value.adj, input, output, 2 * DepthPerSide(maxHops))
    {
      CompiledSymmetric(snapshot.value.adj, State(), isReady);
      ServedAnswers(input, output, maxHops);
    }

    /**
     * Between any two registered mints the precomputed edge exists exactly when
     * some pool is ready. Its pools are the deepest, and its best pool holds at
     * least as much of the mint bought as any ready pool of the pair.
     */
    lemma UpToDateRanks(a: PublicKey, b: PublicKey)
      requires Served() && UpToDate() && Linked(State())
      requires a in registry.toID && b in registry.toID
      ensures var se := snapshot.value.superEdges.At(registry.toID[a], registry.toID[b]);
              && (se.Some? <==> exists q :: q in Listed(adj, a, b) && isReady(q))
              && (se.Some? ==>
                    && Deepest(se.value.pools, Listed(adj, a, b), isReady, b) && se.value.bestPool.Some?
                    && var best := se.value.bestPool.value;
                       && best in Listed(adj, a, b) && isReady(best)
                       && forall q :: q in Listed(adj, a, b) && isReady(q) ==> Holds(best, b) >= Holds(q, b))
    {
      assert snapshot.value.Consistent(registry);
      var list := Listed(snapshot.value.adj, a, b);
      CompiledByReserve(snapshot.value.adj, State(), isReady, a, b);
      forall q | q in Listed(adj, a, b) && isReady(q) ensures list != [] && Holds(list[0], b) >= Holds(q, b) {
        FirstHoldsMost(list, Listed(adj, a, b), isReady, b, q);
      }
      assert list != [] ==> list[0] in list;
    }

    /** Every hop of every route has a precomputed super edge with the pair's pools. */
    lemma RoutesAreQuotable(input: PublicKey, output: PublicKey, maxHops: int, k: nat, i: nat)
      requires Served() && SymmetricPairs(snapshot.value.adj) && input != output && 1 <= maxHops
      requires k < |RoutesFor(input, output, maxHops)| && i + 1 < |RoutesFor(input, output, maxHops)[k]|
      ensures var a, b := RoutesFor(input, output, maxHops)[k][i], RoutesFor(input, output, maxHops)[k][i + 1];
              && a in registry.toID && b in registry.toID
              && var se := snapshot.value.superEdges.At(registry.toID[a], registry.toID[b]);
                 se.Some? && se.value.pools != [] && se.value.pools == Listed(snapshot.value.adj, a, b)
    {
      ServedAnswers(input, output, maxHops);
      var path := RoutesFor(input, output, maxHops)[k];
      assert MintHop(snapshot.value.adj, path, i);
      assert snapshot.value.Consistent(registry);
    }
  }
}
