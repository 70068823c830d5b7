// Compiling the mutable adjacency into the three lookup structures of a
// snapshot, and the agreement between them.
module Snapshots {
  import opened Domain
  import opened Network
  import opened GraphStates
  import opened AdjSlices
  import opened TokenRegistries
  import opened SuperEdges

  // ---------- what a compiled adjacency must hold ----------

  function ReadyOf(pools: seq<Pool>, isReady: Pool -> bool): seq<Pool> {
    if pools == [] then []
    else ReadyOf(pools[..|pools| - 1], isReady) + if isReady(pools[|pools| - 1]) then [pools[|pools| - 1]] else []
  }

  /** The list compiled for a pair: nothing without ready pools, else their top five. */
  ghost predicate IsRanked(compiled: AdjMap, adj: AdjMap, isReady: Pool -> bool, a: PublicKey, b: PublicKey) {
    IsTop(Listed(compiled, a, b), ReadyOf(Listed(adj, a, b), isReady), a)
  }

  ghost predicate IsCompiled(compiled: AdjMap, adj: AdjMap, isReady: Pool -> bool) {
    NoHollows(compiled) && forall a, b :: IsRanked(compiled, adj, isReady, a, b)
  }

  /** The list of a pair of ids, read through the registry's id table. */
  function ByID(adj: AdjMap, toMint: seq<PublicKey>, i: TokenID, j: TokenID): PoolList {
    if i < |toMint| && j < |toMint| && Listed(adj, toMint[i], toMint[j]) != []
    then Some(Listed(adj, toMint[i], toMint[j])) else None
  }

  function EdgeByID(adj: AdjMap, toMint: seq<PublicKey>, i: TokenID, j: TokenID): Option<SuperEdge> {
    match ByID(adj, toMint, i, j)
    case None => None
    case Some(pools) => Some(NewImmutableSuperEdge(i, j, toMint[i], toMint[j], pools))
  }

  ghost predicate Registered(adj: AdjMap, toMint: seq<PublicKey>) {
    forall a, b :: Listed(adj, a, b) != [] ==> a in toMint && b in toMint
  }

  /** The two id-indexed structures under construction, and the registry that numbers their mints. */
  datatype Views = Views(registry: TokenRegistry, fast: AdjSlice, supers: SuperEdgeMatrix) {

    /** The table and the matrix hold the list of the map `adj` for every pair of ids. */
    ghost predicate Agree(adj: AdjMap)
      reads registry, fast, fast.edges, supers
    {
      match this
      case Views(registry, fast, supers) =>
        && registry.Valid() && fast.Valid()
        && Registered(adj, registry.toMint)
        && (forall i, j :: fast.At(i, j) == ByID(adj, registry.toMint, i, j))
        && (forall i, j :: supers.At(i, j) == EdgeByID(adj, registry.toMint, i, j))
    }

    /** Registered mints all lie in `all`, a set the id space has room for. */
    ghost predicate RoomFor(all: set<PublicKey>)
      reads registry
    {
      registry.toID.Keys <= all && |all| < ID_SPACE - 1
    }
  }

  datatype Snapshot = Snapshot(adj: AdjMap, pools: map<PublicKey, Pool>, adjFast: AdjSlice,
                               superEdges: SuperEdgeMatrix) {

    /** The map, the table and the matrix hold the same list for every pair. */
    ghost predicate Consistent(registry: TokenRegistry)
      reads registry, adjFast, adjFast.edges, superEdges
    {
      match this
      case Snapshot(adj, _, adjFast, superEdges) => Views(registry, adjFast, superEdges).Agree(adj)
    }

    ghost predicate CompiledFrom(st: GraphState, isReady: Pool -> bool) {
      match st
      case GraphState(graphAdj, graphPools) => pools == graphPools && IsCompiled(adj, graphAdj, isReady)
    }
  }

  // ---------- compiling ----------

  method FilterReady(pools: seq<Pool>, isReady: Pool -> bool) returns (r: seq<Pool>)
    ensures r == ReadyOf(pools, isReady)
  {
    r := [];
    for i := 0 to |pools|
      invariant r == ReadyOf(pools[..i], isReady)
    {
      assert pools[..i + 1][..i] == pools[..i];
      if isReady(pools[i]) {
        r := r + [pools[i]];
      }
    }
    assert pools[..|pools|] == pools;
  }

  /** The adjacency with the row of `a` replaced; an empty row is absent. */
  function WithRow(adj: AdjMap, a: PublicKey, row: map<PublicKey, seq<Pool>>): AdjMap {
    if row == map[] then adj - {a} else adj[a := row]
  }

  lemma ByIDGrows(adj: AdjMap, toMint: seq<PublicKey>, m: PublicKey, i: TokenID, j: TokenID)
    requires Registered(adj, toMint) && m !in toMint
    ensures ByID(adj, toMint + [m], i, j) == ByID(adj, toMint, i, j)
    ensures EdgeByID(adj, toMint + [m], i, j) == EdgeByID(adj, toMint, i, j)
  {
    var grown := toMint + [m];
    assert forall k :: 0 <= k < |toMint| ==> grown[k] == toMint[k];
  }

  lemma AllByIDGrow(adj: AdjMap, was: seq<PublicKey>, now: seq<PublicKey>, m: PublicKey)
    requires Registered(adj, was) && now == if m in was then was else was + [m]
    ensures Registered(adj, now)
    ensures forall i, j :: ByID(adj, now, i, j) == ByID(adj, was, i, j)
    ensures forall i, j :: EdgeByID(adj, now, i, j) == EdgeByID(adj, was, i, j)
  {
    if m !in was {
      forall i, j
        ensures ByID(adj, now, i, j) == ByID(adj, was, i, j)
        ensures EdgeByID(adj, now, i, j) == EdgeByID(adj, was, i, j)
      {
        ByIDGrows(adj, was, m, i, j);
      }
    }
  }

  /** The mints of an adjacency. */
  ghost function MintsOf(adj: AdjMap): set<PublicKey> {
    adj.Keys + set a, b | a in adj && b in adj[a] :: b
  }

  lemma SubsetSize<T>(a: set<T>, b: set<T>)
    requires a <= b
    ensures |a| <= |b|
  {
    assert b == a + (b - a);
  }

  /** Numbers a mint without disturbing what has been compiled so far. */
  method Register(mint: PublicKey, ghost adj: AdjMap, v: Views,
                  ghost all: set<PublicKey>)
    returns (id: TokenID)
    requires v.Agree(adj) && v.RoomFor(all) && mint in all
    modifies v.registry
    ensures v.Agree(adj) && v.RoomFor(all)
    ensures id < |v.registry.toMint| && v.registry.toMint[id] == mint
    ensures old(v.registry.toMint) <= v.registry.toMint
  {
    ghost var was := v.registry.toMint;
    SubsetSize(v.registry.toID.Keys, all);
    id := v.registry.GetOrCreate(mint);
    AllByIDGrow(adj, was, v.registry.toMint, mint);
  }

  /** Adding a list for one pair changes exactly one entry of each view. */
  lemma ByIDAdds(adj: AdjMap, adj': AdjMap, toMint: seq<PublicKey>, x: TokenID, y: TokenID, top: seq<Pool>,
                 i: TokenID, j: TokenID)
    requires forall p, q :: 0 <= p < q < |toMint| ==> toMint[p] != toMint[q]
    requires x < |toMint| && y < |toMint| && top != []
    requires forall a, b :: Listed(adj', a, b) == if a == toMint[x] && b == toMint[y] then top else Listed(adj, a, b)
    ensures ByID(adj', toMint, i, j) == if i == x && j == y then Some(top) else ByID(adj, toMint, i, j)
    ensures EdgeByID(adj', toMint, i, j) ==
            if i == x && j == y then Some(NewImmutableSuperEdge(x, y, toMint[x], toMint[y], top))
            else EdgeByID(adj, toMint, i, j)
  {
  }

  method StorePair(mintA: PublicKey, idA: TokenID, mintB: PublicKey, top: seq<Pool>, ghost adj: AdjMap,
                   ghost adj': AdjMap,
                   v: Views, ghost all: set<PublicKey>)
    requires v.Agree(adj) && v.RoomFor(all) && mintB in all && top != []
    requires idA < |v.registry.toMint| && v.registry.toMint[idA] == mintA
    requires forall a, b :: Listed(adj', a, b) == if a == mintA && b == mintB then top else Listed(adj, a, b)
    modifies v.registry, v.fast, v.fast.edges, v.supers
    ensures v.Agree(adj') && v.RoomFor(all)
    ensures v.fast.edges == old(v.fast.edges) || fresh(v.fast.edges)
    ensures old(v.registry.toMint) <= v.registry.toMint
  {
    var idB := Register(mintB, adj, v, all);
    ghost var toMint := v.registry.toMint;
    forall i, j
      ensures ByID(adj', toMint, i, j) == if i == idA && j == idB then Some(top) else ByID(adj, toMint, i, j)
      ensures EdgeByID(adj', toMint, i, j) ==
              if i == idA && j == idB then Some(NewImmutableSuperEdge(idA, idB, mintA, mintB, top))
              else EdgeByID(adj, toMint, i, j)
    {
      ByIDAdds(adj, adj', toMint, idA, idB, top, i, j);
    }
    v.fast.Set(idA, idB, top);
    assert forall i, j :: v.fast.At(i, j) == ByID(adj', toMint, i, j);
    v.supers.Set(idA, idB, NewImmutableSuperEdge(idA, idB, mintA, mintB, top));
    assert forall i, j :: v.supers.At(i, j) == EdgeByID(adj', toMint, i, j);
    assert Registered(adj', toMint);
  }

  lemma EmptyIsTop(input: PublicKey)
    ensures IsTop([], [], input)
  {
    assert Splits([], [], [], input);
  }

  function RowList(row: map<PublicKey, seq<Pool>>, b: PublicKey): seq<Pool> {
    if b in row then row[b] else []
  }

  lemma WithRowListed(adj: AdjMap, a: PublicKey, row: map<PublicKey, seq<Pool>>)
    requires NoHollows(adj) && forall b :: b in row ==> row[b] != []
    ensures NoHollows(WithRow(adj, a, row))
    ensures forall p, b :: Listed(WithRow(adj, a, row), p, b) == if p == a then RowList(row, b) else Listed(adj, p, b)
  {
  }

  /** Compiles one pair into its row and the two id-indexed structures, if it has ready pools. */
  method CompilePair(mintA: PublicKey, idA: TokenID, mintB: PublicKey, pools: seq<Pool>, row: map<PublicKey, seq<Pool>>,
                     isReady: Pool -> bool, ghost base: AdjMap, v: Views, ghost all: set<PublicKey>)
    returns (r: map<PublicKey, seq<Pool>>)
    requires v.Agree(WithRow(base, mintA, row)) && v.RoomFor(all) && mintB in all && mintB !in row
    requires NoHollows(base) && (forall b :: b in row ==> row[b] != [])
    requires idA < |v.registry.toMint| && v.registry.toMint[idA] == mintA
    modifies v.registry, v.fast, v.fast.edges, v.supers
    ensures v.Agree(WithRow(base, mintA, r)) && v.RoomFor(all)
    ensures v.fast.edges == old(v.fast.edges) || fresh(v.fast.edges)
    ensures old(v.registry.toMint) <= v.registry.toMint
    ensures forall b :: b != mintB ==> RowList(r, b) == RowList(row, b) && (b in r <==> b in row)
    ensures mintB in r ==> r[mintB] != []
    ensures IsTop(RowList(r, mintB), ReadyOf(pools, isReady), mintA)
  {
    var ready := FilterReady(pools, isReady);
    if |ready| == 0 {
      EmptyIsTop(mintA);
      return row;
    }
    var top := Rank(ready, mintA);
    r := row[mintB := top];
    WithRowListed(base, mintA, row);
    WithRowListed(base, mintA, r);
    StorePair(mintA, idA, mintB, top, WithRow(base, mintA, row), WithRow(base, mintA, r), v, all);
  }

  /** The compiled row at `b`: nothing for a mint still to do or not a neighbour, else its top pools. */
  ghost predicate RowEntry(row: map<PublicKey, seq<Pool>>, neighbors: map<PublicKey, seq<Pool>>, todo: set<PublicKey>,
                           isReady: Pool -> bool, mintA: PublicKey, b: PublicKey) {
    && (b in row ==> row[b] != [])
    && (if b in neighbors && b !in todo then IsTop(RowList(row, b), ReadyOf(neighbors[b], isReady), mintA)
        else b !in row)
  }

  lemma EntriesNonEmpty(row: map<PublicKey, seq<Pool>>, neighbors: map<PublicKey, seq<Pool>>, todo: set<PublicKey>,
                        isReady: Pool -> bool, mintA: PublicKey)
    requires forall b :: RowEntry(row, neighbors, todo, isReady, mintA, b)
    ensures forall b :: b in row ==> row[b] != []
  {
    forall b | b in row ensures row[b] != [] {
      assert RowEntry(row, neighbors, todo, isReady, mintA, b);
    }
  }

  /** What compiling one more pair does to the entry of a mint. */
  lemma EntryNext(was: map<PublicKey, seq<Pool>>, row: map<PublicKey, seq<Pool>>, neighbors: map<PublicKey, seq<Pool>>,
                  todo: set<PublicKey>, isReady: Pool -> bool, mintA: PublicKey, mintB: PublicKey, b: PublicKey)
    requires RowEntry(was, neighbors, todo, isReady, mintA, b) && mintB in neighbors
    requires b != mintB ==> RowList(row, b) == RowList(was, b) && (b in row <==> b in was)
    requires mintB in row ==> row[mintB] != []
    requires IsTop(RowList(row, mintB), ReadyOf(neighbors[mintB], isReady), mintA)
    ensures RowEntry(row, neighbors, todo - {mintB}, isReady, mintA, b)
  {
  }

  /** Compiles every pair of one mint into its row. */
  method CompileNeighbors(mintA: PublicKey, idA: TokenID, neighbors: map<PublicKey, seq<Pool>>, isReady: Pool -> bool,
                          ghost base: AdjMap, v: Views, ghost all: set<PublicKey>)
    returns (row: map<PublicKey, seq<Pool>>)
    requires v.Agree(WithRow(base, mintA, map[])) && v.RoomFor(all) && neighbors.Keys <= all && NoHollows(base)
    requires idA < |v.registry.toMint| && v.registry.toMint[idA] == mintA
    modifies v.registry, v.fast, v.fast.edges, v.supers
    ensures v.Agree(WithRow(base, mintA, row)) && v.RoomFor(all)
    ensures v.fast.edges == old(v.fast.edges) || fresh(v.fast.edges)
    ensures forall b :: RowEntry(row, neighbors, {}, isReady, mintA, b)
  {
    row := map[];
    var todo := neighbors.Keys;
    while todo != {}
      invariant todo <= neighbors.Keys
      invariant forall b :: RowEntry(row, neighbors, todo, isReady, mintA, b)
      invariant v.Agree(WithRow(base, mintA, row)) && v.RoomFor(all)
      invariant v.fast.edges == old(v.fast.edges) || fresh(v.fast.edges)
      invariant idA < |v.registry.toMint| && v.registry.toMint[idA] == mintA
    {
      var mintB :| mintB in todo;
      ghost var was, before := row, todo;
      assert RowEntry(was, neighbors, before, isReady, mintA, mintB);
      EntriesNonEmpty(was, neighbors, before, isReady, mintA);
      todo := todo - {mintB};
      row := CompilePair(mintA, idA, mintB, neighbors[mintB], row, isReady, base, v, all);
      forall b ensures RowEntry(row, neighbors, todo, isReady, mintA, b) {
        assert RowEntry(was, neighbors, before, isReady, mintA, b);
        EntryNext(was, row, neighbors, before, isReady, mintA, mintB, b);
      }
    }
  }

  /** Compiles the lists from one mint; pairs without ready pools get no entry in any view. */
  method CompileRow(mintA: PublicKey, neighbors: map<PublicKey, seq<Pool>>, newAdj: AdjMap, isReady: Pool -> bool,
                    v: Views, ghost all: set<PublicKey>)
    returns (r: AdjMap)
    requires v.Agree(newAdj) && v.RoomFor(all) && NoHollows(newAdj)
    requires mintA in all && neighbors.Keys <= all && mintA !in newAdj
    modifies v.registry, v.fast, v.fast.edges, v.supers
    ensures v.Agree(r) && v.RoomFor(all) && NoHollows(r)
    ensures v.fast.edges == old(v.fast.edges) || fresh(v.fast.edges)
    ensures forall a :: a in r ==> a in newAdj || a == mintA
    ensures forall a, b :: a != mintA ==> Listed(r, a, b) == Listed(newAdj, a, b)
    ensures forall b :: IsTop(Listed(r, mintA, b), ReadyOf(RowList(neighbors, b), isReady), mintA)
  {
    var idA := Register(mintA, newAdj, v, all);
    assert WithRow(newAdj, mintA, map[]) == newAdj;
    var row := CompileNeighbors(mintA, idA, neighbors, isReady, newAdj, v, all);
    EntriesNonEmpty(row, neighbors, {}, isReady, mintA);
    WithRowListed(newAdj, mintA, row);
    r := if row != map[] then newAdj[mintA := row] else newAdj;
    assert r == WithRow(newAdj, mintA, row);
    forall b ensures IsTop(Listed(r, mintA, b), ReadyOf(RowList(neighbors, b), isReady), mintA) {
      EmptyIsTop(mintA);
      assert RowEntry(row, neighbors, {}, isReady, mintA, b);
    }
  }

  method EmptyViews(registry: TokenRegistry) returns (v: Views)
    requires registry.Valid()
    ensures v.registry == registry && fresh(v.fast) && fresh(v.fast.edges) && fresh(v.supers)
    ensures v.Agree(map[])
  {
    var fast := new AdjSlice(|registry.toMint|);
    var supers := new SuperEdgeMatrix();
    v := Views(registry, fast, supers);
  }

  /** Compiles a whole adjacency; the three views of the result agree and hold the top five ready pools. */
  method Compile(adj: AdjMap, isReady: Pool -> bool, v: Views) returns (newAdj: AdjMap)
    requires v.Agree(map[]) && |v.registry.toID.Keys + MintsOf(adj)| < ID_SPACE - 1
    modifies v.registry, v.fast, v.fast.edges, v.supers
    ensures v.Agree(newAdj) && IsCompiled(newAdj, adj, isReady)
    ensures v.fast.edges == old(v.fast.edges) || fresh(v.fast.edges)
  {
    newAdj := map[];
    var todo := adj.Keys;
    ghost var all := v.registry.toID.Keys + MintsOf(adj);
    while todo != {}
      invariant todo <= adj.Keys
      invariant v.Agree(newAdj) && v.RoomFor(all) && NoHollows(newAdj)
      invariant v.fast.edges == old(v.fast.edges) || fresh(v.fast.edges)
      invariant forall a :: a in newAdj ==> a in adj && a !in todo
      invariant forall a, b :: a in adj && a !in todo ==> IsRanked(newAdj, adj, isReady, a, b)
    {
      var mintA :| mintA in todo;
      todo := todo - {mintA};
      ghost var was := newAdj;
      newAdj := CompileRow(mintA, adj[mintA], newAdj, isReady, v, all);
      forall a, b | a in adj && a !in todo ensures IsRanked(newAdj, adj, isReady, a, b) {
        if a == mintA {
          assert Listed(adj, a, b) == RowList(adj[mintA], b);
        } else {
          assert IsRanked(was, adj, isReady, a, b);
        }
      }
    }
    forall a, b ensures IsRanked(newAdj, adj, isReady, a, b) {
      EmptyIsTop(a);
      assert a !in adj ==> Listed(newAdj, a, b) == [];
    }
  }
}
