// The mutable routing state: the pool table and the two-level adjacency map.
// The graph's methods are proved to step through these functions (module
// Graphs); what every step keeps is proved here.
module GraphStates {
  import opened Domain

  type AdjMap = map<PublicKey, map<PublicKey, seq<Pool>>>

  datatype GraphState = GraphState(adj: AdjMap, pools: map<PublicKey, Pool>)

  /** The pools listed from `a` to `b`, empty when the pair is absent. */
  function Listed(adj: AdjMap, a: PublicKey, b: PublicKey): seq<Pool> {
    if a in adj && b in adj[a] then adj[a][b] else []
  }

  function AddEdge(adj: AdjMap, from: PublicKey, to: PublicKey, pool: Pool): AdjMap {
    var row := if from in adj then adj[from] else map[];
    adj[from := row[to := (if to in row then row[to] else []) + [pool]]]
  }

  function Without(pools: seq<Pool>, address: PublicKey): (r: seq<Pool>)
    ensures forall p :: p in r <==> p in pools && p.address != address
  {
    if pools == [] then []
    else if pools[0].address == address then Without(pools[1..], address)
    else [pools[0]] + Without(pools[1..], address)
  }

  function RemoveEdge(adj: AdjMap, from: PublicKey, to: PublicKey, address: PublicKey): AdjMap {
    if from !in adj then adj else
      var row := adj[from];
      var row' := if to !in row then row else
                    var kept := Without(row[to], address);
                    if kept == [] then row - {to} else row[to := kept];
      if row' == map[] then adj - {from} else adj[from := row']
  }

  function Add(st: GraphState, pool: Pool): GraphState {
    var pools := st.pools[pool.address := pool];
    if pool.address in st.pools then GraphState(st.adj, pools)
    else GraphState(AddEdge(AddEdge(st.adj, pool.mintA, pool.mintB, pool), pool.mintB, pool.mintA, pool), pools)
  }

  function Remove(st: GraphState, address: PublicKey): GraphState {
    if address !in st.pools then st else
      var pool := st.pools[address];
      GraphState(RemoveEdge(RemoveEdge(st.adj, pool.mintA, pool.mintB, address), pool.mintB, pool.mintA, address),
                 st.pools - {address})
  }

  function AddAll(st: GraphState, pools: seq<Pool>): GraphState {
    if pools == [] then st else Add(AddAll(st, pools[..|pools| - 1]), pools[|pools| - 1])
  }

  // ---------- the invariant ----------

  predicate Joins(pool: Pool, a: PublicKey, b: PublicKey) {
    (pool.mintA == a && pool.mintB == b) || (pool.mintA == b && pool.mintB == a)
  }

  predicate SameMints(p: Pool, q: Pool) {
    Joins(p, q.mintA, q.mintB)
  }

  /** How often an address occurs in a list. */
  function Occurrences(pools: seq<Pool>, address: PublicKey): nat {
    if pools == [] then 0
    else (if pools[0].address == address then 1 else 0) + Occurrences(pools[1..], address)
  }

  /** How often the list from `a` to `b` should hold an address. */
  function Expected(pools: map<PublicKey, Pool>, a: PublicKey, b: PublicKey, address: PublicKey): nat {
    if address in pools && Joins(pools[address], a, b) then 1 else 0
  }

  /**
   * Each address of the pool table occurs exactly once in each of its two
   * directed lists, and nowhere else; pairs are mirrored; no list and no row
   * is empty; listed pools join the pair they are listed under.
   */
  ghost predicate Linked(st: GraphState) {
    match st
    case GraphState(adj, pools) =>
      && (forall k :: k in pools ==> pools[k].address == k && pools[k].mintA != pools[k].mintB)
      && (forall a, b, k :: Occurrences(Listed(adj, a, b), k) == Expected(pools, a, b, k))
      && (forall a, b :: Listed(adj, a, b) == Listed(adj, b, a))
      && (forall a, b, p :: p in Listed(adj, a, b) ==> Joins(p, a, b))
      && NoHollows(adj)
  }

  lemma EmptyLinked()
    ensures Linked(GraphState(map[], map[]))
  {
  }

  ghost predicate NoHollows(adj: AdjMap) {
    && (forall a :: a in adj ==> adj[a] != map[])
    && (forall a, b :: a in adj && b in adj[a] ==> adj[a][b] != [])
  }

  lemma OccurrencesAppend(pools: seq<Pool>, p: Pool, k: PublicKey)
    ensures Occurrences(pools + [p], k) == Occurrences(pools, k) + if p.address == k then 1 else 0
  {
    if pools != [] {
      assert (pools + [p])[1..] == pools[1..] + [p];
      OccurrencesAppend(pools[1..], p, k);
    }
  }

  lemma OccurrencesWithout(pools: seq<Pool>, address: PublicKey, k: PublicKey)
    ensures Occurrences(Without(pools, address), k) == if k == address then 0 else Occurrences(pools, k)
  {
    if pools != [] {
      OccurrencesWithout(pools[1..], address, k);
      var rest := Without(pools[1..], address);
      if pools[0].address != address {
        assert ([pools[0]] + rest)[1..] == rest;
      }
    }
  }

  lemma OccursIffListed(pools: seq<Pool>, k: PublicKey)
    ensures Occurrences(pools, k) > 0 <==> exists p :: p in pools && p.address == k
  {
    if pools != [] {
      OccursIffListed(pools[1..], k);
      if p :| p in pools && p.address == k {
        assert p == pools[0] || p in pools[1..];
      }
    }
  }

  // ---------- one edge ----------

  lemma AddEdgeListed(adj: AdjMap, from: PublicKey, to: PublicKey, pool: Pool, a: PublicKey, b: PublicKey)
    ensures Listed(AddEdge(adj, from, to, pool), a, b) ==
            if a == from && b == to then Listed(adj, a, b) + [pool] else Listed(adj, a, b)
  {
  }

  lemma RemoveEdgeListed(adj: AdjMap, from: PublicKey, to: PublicKey, address: PublicKey, a: PublicKey, b: PublicKey)
    ensures Listed(RemoveEdge(adj, from, to, address), a, b) ==
            if a == from && b == to then Without(Listed(adj, a, b), address) else Listed(adj, a, b)
  {
    if from in adj && a == from && b in adj[from] {
      var kept := if to in adj[from] then Without(adj[from][to], address) else [];
      var row' := if to !in adj[from] then adj[from]
                  else if kept == [] then adj[from] - {to}
                  else adj[from][to := kept];
      assert b != to || kept != [] ==> b in row';
    }
  }

  lemma AddEdgeNoHollows(adj: AdjMap, from: PublicKey, to: PublicKey, pool: Pool)
    requires NoHollows(adj)
    ensures NoHollows(AddEdge(adj, from, to, pool))
  {
    assert to in AddEdge(adj, from, to, pool)[from];
  }

  lemma RemoveEdgeNoHollows(adj: AdjMap, from: PublicKey, to: PublicKey, address: PublicKey)
    requires NoHollows(adj)
    ensures NoHollows(RemoveEdge(adj, from, to, address))
  {
  }

  // ---------- one operation ----------

  /** When adding a pool keeps the state linked; a caller can check this first. */
  predicate Admissible(st: GraphState, pool: Pool) {
    if pool.address in st.pools then SameMints(pool, st.pools[pool.address]) else pool.mintA != pool.mintB
  }

  lemma AddListed(st: GraphState, pool: Pool, a: PublicKey, b: PublicKey)
    requires pool.address !in st.pools && pool.mintA != pool.mintB
    ensures Listed(Add(st, pool).adj, a, b)
         == if Joins(pool, a, b) then Listed(st.adj, a, b) + [pool] else Listed(st.adj, a, b)
  {
    AddEdgeListed(st.adj, pool.mintA, pool.mintB, pool, a, b);
    AddEdgeListed(AddEdge(st.adj, pool.mintA, pool.mintB, pool), pool.mintB, pool.mintA, pool, a, b);
  }

  lemma NewOccurrences(st: GraphState, pool: Pool, a: PublicKey, b: PublicKey, k: PublicKey)
    requires Linked(st) && pool.address !in st.pools && pool.mintA != pool.mintB
    ensures Occurrences(Listed(Add(st, pool).adj, a, b), k) == Expected(Add(st, pool).pools, a, b, k)
  {
    AddListed(st, pool, a, b);
    OccurrencesAppend(Listed(st.adj, a, b), pool, k);
    assert Occurrences(Listed(st.adj, a, b), k) == Expected(st.pools, a, b, k);
  }

  lemma NewKeepsLinked(st: GraphState, pool: Pool)
    requires Linked(st) && pool.address !in st.pools && pool.mintA != pool.mintB
    ensures Linked(Add(st, pool))
  {
    var st' := Add(st, pool);
    AddEdgeNoHollows(st.adj, pool.mintA, pool.mintB, pool);
    AddEdgeNoHollows(AddEdge(st.adj, pool.mintA, pool.mintB, pool), pool.mintB, pool.mintA, pool);
    forall a, b
      ensures Listed(st'.adj, a, b)
           == if Joins(pool, a, b) then Listed(st.adj, a, b) + [pool] else Listed(st.adj, a, b)
    {
      AddListed(st, pool, a, b);
    }
    forall a, b, k ensures Occurrences(Listed(st'.adj, a, b), k) == Expected(st'.pools, a, b, k) {
      NewOccurrences(st, pool, a, b, k);
    }
  }

  lemma AddKeepsLinked(st: GraphState, pool: Pool)
    requires Linked(st) && Admissible(st, pool)
    ensures Linked(Add(st, pool))
  {
    if pool.address !in st.pools {
      NewKeepsLinked(st, pool);
    } else {
      var st' := Add(st, pool);
      forall a, b, k ensures Occurrences(Listed(st'.adj, a, b), k) == Expected(st'.pools, a, b, k) {
        assert Occurrences(Listed(st.adj, a, b), k) == Expected(st.pools, a, b, k);
      }
    }
  }

  /** The condition is exact: any other addition leaves an address with wrong occurrences. */
  lemma AddLinkedIffAdmissible(st: GraphState, pool: Pool)
    requires Linked(st)
    ensures Linked(Add(st, pool)) <==> Admissible(st, pool)
  {
    if Admissible(st, pool) {
      AddKeepsLinked(st, pool);
    } else if pool.mintA != pool.mintB {
      var st', k := Add(st, pool), pool.address;
      assert Occurrences(Listed(st.adj, pool.mintA, pool.mintB), k) == Expected(st.pools, pool.mintA, pool.mintB, k);
      assert Occurrences(Listed(st'.adj, pool.mintA, pool.mintB), k) != Expected(st'.pools, pool.mintA, pool.mintB, k);
    } else {
      assert pool.address in Add(st, pool).pools;
    }
  }

  lemma RemoveKeepsLinked(st: GraphState, address: PublicKey)
    requires Linked(st)
    ensures Linked(Remove(st, address)) && address !in Remove(st, address).pools
  {
    if address in st.pools {
      var pool, st' := st.pools[address], Remove(st, address);
      var adj1 := RemoveEdge(st.adj, pool.mintA, pool.mintB, address);
      RemoveEdgeNoHollows(st.adj, pool.mintA, pool.mintB, address);
      RemoveEdgeNoHollows(adj1, pool.mintB, pool.mintA, address);
      forall a, b
        ensures Listed(st'.adj, a, b) ==
                if Joins(pool, a, b) then Without(Listed(st.adj, a, b), address) else Listed(st.adj, a, b)
      {
        RemoveEdgeListed(st.adj, pool.mintA, pool.mintB, address, a, b);
        RemoveEdgeListed(adj1, pool.mintB, pool.mintA, address, a, b);
      }
      forall a, b, k ensures Occurrences(Listed(st'.adj, a, b), k) == Expected(st'.pools, a, b, k) {
        OccurrencesWithout(Listed(st.adj, a, b), address, k);
      }
    }
  }

  /** Two adjacency maps without hollows are equal when they list the same pools for every pair. */
  lemma AdjExtensional(x: AdjMap, y: AdjMap)
    requires NoHollows(x) && NoHollows(y)
    requires forall a, b :: Listed(x, a, b) == Listed(y, a, b)
    ensures x == y
  {
    forall a | a in x ensures a in y && x[a] == y[a] {
      RowIncluded(x, y, a);
      RowIncluded(y, x, a);
    }
    forall a | a in y ensures a in x {
      RowIncluded(y, x, a);
    }
  }

  lemma RowIncluded(x: AdjMap, y: AdjMap, a: PublicKey)
    requires NoHollows(x) && forall a, b :: Listed(x, a, b) == Listed(y, a, b)
    requires a in x
    ensures a in y && forall b :: b in x[a] ==> b in y[a] && x[a][b] == y[a][b]
  {
    var b0 :| b0 in x[a];
    assert Listed(x, a, b0) == Listed(y, a, b0);
    forall b | b in x[a] ensures b in y[a] && x[a][b] == y[a][b] {
      assert Listed(x, a, b) == Listed(y, a, b);
    }
  }

  lemma WithoutAbsent(pools: seq<Pool>, address: PublicKey)
    requires Occurrences(pools, address) == 0
    ensures Without(pools, address) == pools
  {
  }

  lemma WithoutLast(pools: seq<Pool>, p: Pool)
    ensures Without(pools + [p], p.address) == Without(pools, p.address)
  {
    if pools != [] {
      assert (pools + [p])[1..] == pools[1..] + [p];
      WithoutLast(pools[1..], p);
    }
  }

  lemma RestoredListed(st: GraphState, pool: Pool, a: PublicKey, b: PublicKey)
    requires Linked(st) && pool.address !in st.pools && pool.mintA != pool.mintB
    ensures Listed(Remove(Add(st, pool), pool.address).adj, a, b) == Listed(st.adj, a, b)
  {
    var st1, k := Add(st, pool), pool.address;
    AddListed(st, pool, a, b);
    RemoveEdgeListed(st1.adj, pool.mintA, pool.mintB, k, a, b);
    RemoveEdgeListed(RemoveEdge(st1.adj, pool.mintA, pool.mintB, k), pool.mintB, pool.mintA, k, a, b);
    assert Occurrences(Listed(st.adj, a, b), k) == Expected(st.pools, a, b, k);
    WithoutAbsent(Listed(st.adj, a, b), k);
    WithoutLast(Listed(st.adj, a, b), pool);
  }

  /** Removing a pool that was just added restores the state exactly. */
  lemma AddThenRemove(st: GraphState, pool: Pool)
    requires Linked(st) && pool.address !in st.pools && pool.mintA != pool.mintB
    ensures Remove(Add(st, pool), pool.address) == st
  {
    var st1 := Add(st, pool);
    var st2 := Remove(st1, pool.address);
    AddKeepsLinked(st, pool);
    RemoveKeepsLinked(st1, pool.address);
    forall a, b ensures Listed(st2.adj, a, b) == Listed(st.adj, a, b) {
      RestoredListed(st, pool, a, b);
    }
    AdjExtensional(st2.adj, st.adj);
    assert st2.pools == st.pools;
  }

  // ---------- runs ----------

  datatype Op = AddPool(pool: Pool) | AddPoolsBatch(batch: seq<Pool>) | RemovePool(address: PublicKey)

  function Apply(st: GraphState, op: Op): GraphState {
    match op
    case AddPool(pool) => Add(st, pool)
    case AddPoolsBatch(batch) => AddAll(st, batch)
    case RemovePool(address) => Remove(st, address)
  }

  function Run(st: GraphState, ops: seq<Op>): GraphState {
    if ops == [] then st else Apply(Run(st, ops[..|ops| - 1]), ops[|ops| - 1])
  }

  predicate BatchAdmissible(st: GraphState, pools: seq<Pool>) {
    forall i :: 0 <= i < |pools| ==> Admissible(AddAll(st, pools[..i]), pools[i])
  }

  predicate OpAdmissible(st: GraphState, op: Op) {
    match op
    case AddPool(pool) => Admissible(st, pool)
    case AddPoolsBatch(batch) => BatchAdmissible(st, batch)
    case RemovePool(_) => true
  }

  lemma {:induction false} AddAllKeepsLinked(st: GraphState, pools: seq<Pool>)
    requires Linked(st) && BatchAdmissible(st, pools)
    ensures Linked(AddAll(st, pools))
  {
    if pools != [] {
      var front := pools[..|pools| - 1];
      forall i | 0 <= i < |front| ensures Admissible(AddAll(st, front[..i]), front[i]) {
        assert front[..i] == pools[..i];
      }
      AddAllKeepsLinked(st, front);
      AddKeepsLinked(AddAll(st, front), pools[|pools| - 1]);
    }
  }

  /** Over every run from the empty graph whose additions are admissible, the state stays linked. */
  lemma {:induction false} RunLinked(ops: seq<Op>)
    requires forall i :: 0 <= i < |ops| ==> OpAdmissible(Run(GraphState(map[], map[]), ops[..i]), ops[i])
    ensures Linked(Run(GraphState(map[], map[]), ops))
  {
    if ops != [] {
      var start, front, last := GraphState(map[], map[]), ops[..|ops| - 1], ops[|ops| - 1];
      forall i | 0 <= i < |front| ensures OpAdmissible(Run(start, front[..i]), front[i]) {
        assert front[..i] == ops[..i];
      }
      RunLinked(front);
      var st := Run(start, front);
      match last {
        case AddPool(pool) => AddKeepsLinked(st, pool);
        case AddPoolsBatch(batch) => AddAllKeepsLinked(st, batch);
        case RemovePool(address) => RemoveKeepsLinked(st, address);
      }
    }
  }

  // ---------- stale listings ----------

  /** Every listed pool is the one the table holds for its address. */
  ghost predicate Current(st: GraphState) {
    forall a, b, p :: p in Listed(st.adj, a, b) ==> p.address in st.pools && st.pools[p.address] == p
  }

  /**
   * Adding a known address replaces the table entry but not the listed pools,
   * so the lists stay current exactly when the pool is unchanged.
   */
  lemma ReAddIsStale(st: GraphState, pool: Pool)
    requires Linked(st) && Current(st) && pool.address in st.pools
    ensures Current(Add(st, pool)) <==> pool == st.pools[pool.address]
  {
    var was := st.pools[pool.address];
    OccursIffListed(Listed(st.adj, was.mintA, was.mintB), pool.address);
    assert Expected(st.pools, was.mintA, was.mintB, pool.address) == 1;
    assert was in Listed(st.adj, was.mintA, was.mintB);
  }

  /** A graph of one pool, which is then added again with other contents. */
  lemma ReAddExample(pool: Pool, changed: Pool)
    requires pool.mintA != pool.mintB && changed.address == pool.address && changed != pool
    ensures var st := Add(GraphState(map[], map[]), pool);
            Linked(st) && Current(st) && !Current(Add(st, changed))
  {
    var st := Add(GraphState(map[], map[]), pool);
    EmptyLinked();
    AddKeepsLinked(GraphState(map[], map[]), pool);
    ReAddIsStale(st, changed);
  }
}
