// The pooled search arena: generation-stamped visited marks, parent arrays and
// fixed path storage, all recycled from one search to the next without being
// cleared. Every method is proved to compute its counterpart in module Search,
// so nothing left over from earlier searches can show in a result.
module Arenas {
  import opened Domain
  import opened Network
  import opened Search
  import opened AdjSlices

  const MAX_BFS_CAPACITY: nat := 8192
  const GENERATIONS: nat := 0x1_0000_0000
  const SLOT_LENGTH: nat := 16

  /** The fixed storage for returned paths, one row of sixteen tokens for each. */
  type Rows = seq<seq<TokenID>>

  /** A slice of tokens: a prefix of one storage row, or a list that outgrew its row. */
  datatype Slice = InRow(row: nat, len: nat) | OnHeap(path: seq<TokenID>) {

    /** The slice uses no row but `home`. */
    predicate Within(rows: Rows, home: nat) {
      InRow? ==> row == home < |rows| && len <= |rows[home]|
    }

    function Read(rows: Rows): seq<TokenID> {
      match this
      case InRow(row, len) => if Within(rows, row) then rows[row][..len] else []
      case OnHeap(path) => path
    }
  }

  /** Slices denote paths; the one at index `i` uses no row but row `i`. */
  ghost predicate Denotes(rows: Rows, slices: seq<Slice>, paths: seq<seq<TokenID>>) {
    && |slices| == |paths| <= MAX_PATHS
    && forall i :: 0 <= i < |paths| ==> slices[i].Within(rows, i) && slices[i].Read(rows) == paths[i]
  }

  ghost predicate SixteenEach(rows: Rows) {
    |rows| == MAX_PATHS && forall i :: 0 <= i < MAX_PATHS ==> |rows[i]| == SLOT_LENGTH
  }

  /** Visited stamps and parents for one direction. */
  class Marks {
    const gen: array<nat>
    const parent: array<int>

    constructor (capacity: nat)
      ensures gen.Length == parent.Length == capacity && fresh(gen) && fresh(parent)
      ensures forall v :: 0 <= v < capacity ==> gen[v] == 0
    {
      gen := new nat[capacity](_ => 0);
      parent := new int[capacity](_ => 0);
    }

    /** No stamp is newer than generation `cur`. */
    ghost predicate Dated(cur: nat)
      reads gen
    {
      gen.Length == parent.Length && forall v :: 0 <= v < gen.Length ==> gen[v] <= cur
    }

    /**
     * The stamps of generation `cur` are exactly the tokens of `m`, and the
     * parents spell the recorded walks. Other entries may hold anything.
     */
    ghost predicate Tracks(cur: nat, m: Trails)
      reads gen, parent
    {
      && Dated(cur)
      && (forall v: TokenID :: v in m <==> v < gen.Length && gen[v] == cur)
      && (forall v :: v in m ==>
            && m[v] != [] && m[v][|m[v]| - 1] == v
            && (|m[v]| == 1 ==> parent[v] < 0)
            && (|m[v]| > 1 ==> 0 <= parent[v] && parent[v] in m && m[v] == m[parent[v] as TokenID] + [v]))
    }

    method IsVisited(id: TokenID, cur: nat) returns (r: bool)
      ensures r == (id < gen.Length && gen[id] == cur)
    {
      if id >= gen.Length {
        return false;
      }
      r := gen[id] == cur;
    }

    method MarkVisited(id: TokenID, par: int, cur: nat, ghost m: Trails, ghost trail: seq<TokenID>)
      requires Tracks(cur, m) && id < gen.Length && id !in m
      requires (par == -1 && trail == [id]) || (0 <= par && par in m && trail == m[par as TokenID] + [id])
      modifies gen, parent
      ensures Tracks(cur, m[id := trail])
    {
      if id >= gen.Length {
        return;
      }
      gen[id] := cur;
      parent[id] := par;
    }

    /** The parent of a visited token: negative at the root, else the token one hop nearer to it. */
    method Parent(id: TokenID, ghost cur: nat, ghost m: Trails) returns (r: int)
      requires Tracks(cur, m) && id in m
      ensures r < 0 ==> m[id] == [id]
      ensures 0 <= r ==> r in m && m[id] == m[r as TokenID] + [id]
    {
      if id >= gen.Length {
        return -1;
      }
      r := parent[id];
    }

    /** Collects the tokens from `meeting` to the root; terminates because recorded walks get shorter. */
    method Chain(meeting: TokenID, cur: nat, ghost m: Trails) returns (buf: seq<TokenID>)
      requires Tracks(cur, m) && meeting in m
      ensures Reverse(buf) == m[meeting]
    {
      buf := [];
      var id := meeting;
      while true
        invariant id in m && m[meeting] == m[id] + Reverse(buf)
        decreases |m[id]|
      {
        ReverseAppend(buf, id);
        buf := buf + [id];
        var par := Parent(id, cur, m);
        if par < 0 {
          break;
        }
        id := par;
      }
    }
  }

  lemma {:induction false} ReverseLast(p: seq<TokenID>)
    requires p != []
    ensures Reverse(p) == [p[|p| - 1]] + Reverse(p[..|p| - 1])
  {
    var r := [p[|p| - 1]] + Reverse(p[..|p| - 1]);
    assert |r| == |p| && forall i :: 0 <= i < |p| ==> r[i] == p[|p| - 1 - i];
  }

  lemma ReverseAppend(p: seq<TokenID>, id: TokenID)
    ensures Reverse(p + [id]) == [id] + Reverse(p)
  {
    assert (p + [id])[..|p|] == p;
    ReverseLast(p + [id]);
  }

  lemma ChainStep(done: seq<TokenID>, p: seq<TokenID>, id: TokenID)
    requires p != []
    ensures done + Reverse((p + [id])[..|p + [id]| - 1]) == (done + [p[|p| - 1]]) + Reverse(p[..|p| - 1])
  {
    assert (p + [id])[..|p + [id]| - 1] == p;
    ReverseLast(p);
  }

  lemma CopyStep(done: seq<TokenID>, buf: seq<TokenID>, i: nat)
    requires i < |buf|
    ensures done + Reverse(buf[..i + 1]) == (done + [buf[i]]) + Reverse(buf[..i])
  {
    assert buf[..i + 1][..i] == buf[..i];
    ReverseLast(buf[..i + 1]);
  }

  /** Storage before and after a change confined to row `home`. */
  ghost predicate RowOnly(was: Rows, now: Rows, home: nat) {
    SixteenEach(was) && SixteenEach(now) && forall i :: 0 <= i < MAX_PATHS && i != home ==> now[i] == was[i]
  }

  /** Paths already stored survive a change of any later row. */
  lemma DenotesLater(rows: Rows, rows': Rows, slices: seq<Slice>, paths: seq<seq<TokenID>>)
    requires Denotes(rows, slices, paths) && |rows| == |rows'|
    requires forall i :: 0 <= i < |paths| && i < |rows| ==> rows[i] == rows'[i]
    ensures Denotes(rows', slices, paths)
  {
  }

  lemma DenotesMore(rows: Rows, slices: seq<Slice>, paths: seq<seq<TokenID>>, s: Slice)
    requires Denotes(rows, slices, paths) && |paths| < MAX_PATHS && s.Within(rows, |paths|)
    ensures Denotes(rows, slices + [s], paths + [s.Read(rows)])
  {
  }

  class Arena {
    const capacity: nat
    const forward: Marks
    const backward: Marks
    var currentGen: nat
    var frontiers: (seq<TokenID>, seq<TokenID>)
    var pathStorage: Rows
    var resultPaths: seq<Slice>

    function Near(back: bool): Marks {
      if back then backward else forward
    }

    /** The arrays have their sizes and are all different. */
    ghost predicate Shaped() {
      && forward.gen.Length == backward.gen.Length == capacity
      && forward.gen != backward.gen && forward.parent != backward.parent
      && forward.gen as object != forward.parent && forward.gen as object != backward.parent
      && backward.gen as object != forward.parent && backward.gen as object != backward.parent
    }

    /** What every search leaves behind. Nothing is said of the parents or the storage contents. */
    ghost predicate Valid()
      reads this, forward.gen, backward.gen
    {
      && Shaped() && 0 < currentGen < GENERATIONS && SixteenEach(pathStorage)
      && forward.Dated(currentGen) && backward.Dated(currentGen)
    }

    /** The marks record the walks `near` and `far` of the two sides. */
    ghost predicate Marked(back: bool, near: Trails, far: Trails)
      reads this`currentGen, forward.gen, forward.parent, backward.gen, backward.parent
    {
      && Shaped() && 0 < currentGen < GENERATIONS
      && Near(back).Tracks(currentGen, near) && Near(!back).Tracks(currentGen, far)
    }

    /** The result slices denote the routes `paths`. */
    ghost predicate Stored(paths: seq<seq<TokenID>>)
      reads this`pathStorage, this`resultPaths
    {
      SixteenEach(pathStorage) && Denotes(pathStorage, resultPaths, paths)
    }

    /** Ready for a search: nothing carries the current stamp, whatever else is left in the arrays. */
    ghost predicate Clean()
      reads this, forward.gen, forward.parent, backward.gen, backward.parent
    {
      Marked(false, map[], map[]) && Stored([])
    }

    constructor (capacity: nat)
      ensures Clean() && this.capacity == capacity
      ensures fresh(forward.gen) && fresh(forward.parent) && fresh(backward.gen) && fresh(backward.parent)
    {
      this.capacity := capacity;
      forward := new Marks(capacity);
      backward := new Marks(capacity);
      currentGen := 1;
      frontiers := ([], []);
      pathStorage := seq(MAX_PATHS, _ => seq(SLOT_LENGTH, _ => 0));
      resultPaths := [];
    }

    /** Moves to the next generation, clearing the stamps only when the 32-bit counter wraps. */
    method Reset()
      requires Valid()
      modifies this, forward.gen, backward.gen
      ensures Clean()
    {
      currentGen := (currentGen + 1) % GENERATIONS;
      if currentGen == 0 {
        for i := 0 to capacity
          invariant forall v :: 0 <= v < i ==> forward.gen[v] == 0 && backward.gen[v] == 0
          invariant currentGen == 0 && SixteenEach(pathStorage)
        {
          forward.gen[i] := 0;
          backward.gen[i] := 0;
        }
        currentGen := 1;
      }
      frontiers := ([], []);
      resultPaths := [];
    }

    // ---------- stored paths ----------

    /** `append`: in place while the row has room, else the contents move to the heap. */
    method AppendToken(s: Slice, home: nat, id: TokenID) returns (r: Slice)
      requires SixteenEach(pathStorage) && home < MAX_PATHS && s.Within(pathStorage, home)
      modifies this`pathStorage
      ensures RowOnly(old(pathStorage), pathStorage, home) && r.Within(pathStorage, home)
      ensures r.Read(pathStorage) == s.Read(old(pathStorage)) + [id]
    {
      match s
      case InRow(row, len) =>
        if len < SLOT_LENGTH {
          var cells: seq<TokenID> := pathStorage[row][len := id];
          pathStorage := pathStorage[row := cells];
          r := InRow(row, len + 1);
        } else {
          r := OnHeap(pathStorage[row] + [id]);
        }
      case OnHeap(path) =>
        r := OnHeap(path + [id]);
    }

    /** Appends the backward parents of `meeting`, nearest first, to the slice in row `home`. */
    method AppendBackwardChain(meeting: TokenID, s: Slice, home: nat, ghost b: Trails) returns (r: Slice)
      requires SixteenEach(pathStorage) && home < MAX_PATHS && s.Within(pathStorage, home)
      requires backward.Tracks(currentGen, b) && meeting in b
      modifies this`pathStorage
      ensures RowOnly(old(pathStorage), pathStorage, home) && r.Within(pathStorage, home)
      ensures r.Read(pathStorage) == s.Read(old(pathStorage)) + Reverse(b[meeting][..|b[meeting]| - 1])
    {
      r := s;
      ghost var goal := s.Read(pathStorage) + Reverse(b[meeting][..|b[meeting]| - 1]);
      ghost var id := meeting;
      var par := backward.Parent(meeting, currentGen, b);
      while par >= 0
        invariant id in b && (par < 0 ==> b[id] == [id]) && (0 <= par ==> par in b && b[id] == b[par as TokenID] + [id])
        invariant RowOnly(old(pathStorage), pathStorage, home) && r.Within(pathStorage, home)
        invariant goal == r.Read(pathStorage) + Reverse(b[id][..|b[id]| - 1])
        decreases |b[id]|
      {
        var here: TokenID := par;
        par := backward.Parent(here, currentGen, b);
        ChainStep(r.Read(pathStorage), b[here], id);
        r := AppendToken(r, home, here);
        id := here;
      }
    }

    /** Copies the collected tokens in reverse into row `home`. */
    method CopyReversed(buf: seq<TokenID>, home: nat) returns (r: Slice)
      requires SixteenEach(pathStorage) && home < MAX_PATHS
      modifies this`pathStorage
      ensures RowOnly(old(pathStorage), pathStorage, home) && r.Within(pathStorage, home)
      ensures r.Read(pathStorage) == Reverse(buf)
    {
      r := InRow(home, 0);
      for i := |buf| downto 0
        invariant RowOnly(old(pathStorage), pathStorage, home) && r.Within(pathStorage, home)
        invariant Reverse(buf) == r.Read(pathStorage) + Reverse(buf[..i])
      {
        CopyStep(r.Read(pathStorage), buf, i);
        r := AppendToken(r, home, buf[i]);
      }
    }

    /** Writes the route through `meeting` into storage row `home` and no other row. */
    method ReconstructPath(meeting: TokenID, home: nat, ghost f: Trails, ghost b: Trails) returns (r: Slice)
      requires SixteenEach(pathStorage) && home < MAX_PATHS
      requires forward.Tracks(currentGen, f) && backward.Tracks(currentGen, b) && meeting in f && meeting in b
      modifies this`pathStorage
      ensures RowOnly(old(pathStorage), pathStorage, home) && r.Within(pathStorage, home)
      ensures r.Read(pathStorage) == Splice(f[meeting], b[meeting])
    {
      var buf := forward.Chain(meeting, currentGen, f);
      r := CopyReversed(buf, home);
      r := AppendBackwardChain(meeting, r, home, b);
    }

    /** Scans the stored paths, newest first. */
    method IsPathDuplicate(path: seq<TokenID>, ghost paths: seq<seq<TokenID>>) returns (dup: bool)
      requires Denotes(pathStorage, resultPaths, paths)
      ensures dup <==> path in paths
    {
      for i := |resultPaths| downto 0
        invariant forall k :: i <= k < |paths| ==> paths[k] != path
      {
        var p := resultPaths[i].Read(pathStorage);
        if |p| == |path| {
          var j := 0;
          while j < |p| && p[j] == path[j]
            invariant j <= |p| && forall k :: 0 <= k < j ==> p[k] == path[k]
          {
            j := j + 1;
          }
          if j == |p| {
            assert p == path;
            return true;
          }
        }
      }
      return false;
    }

    // ---------- the search ----------

    /** The arena is in the middle of the sweep `sw` against the opposite side `far`. */
    ghost predicate Holds(back: bool, sw: Sweep, far: Trails)
      reads this`currentGen, this`pathStorage, this`resultPaths
      reads forward.gen, forward.parent, backward.gen, backward.parent
    {
      // An equation, so that Dafny carries the whole as one fact.
      (Marked(back, sw.seen, far) && Stored(sw.paths)) == true
    }

    method Mark(back: bool, u: TokenID, n: TokenID, ghost sw: Sweep, ghost far: Trails)
      requires Holds(back, sw, far) && u in sw.seen && n < capacity && n !in sw.seen
      modifies Near(back).gen, Near(back).parent
      ensures Holds(back, sw.(seen := sw.seen[n := sw.seen[u] + [n]]), far)
    {
      var marks, others := Near(back), Near(!back);
      marks.MarkVisited(n, u, currentGen, sw.seen, sw.seen[u] + [n]);
      assert others.Tracks(currentGen, far);
      assert marks.Tracks(currentGen, sw.seen[n := sw.seen[u] + [n]]);
    }

    /** Writes the route through `meeting` into the next free row; the stored paths are undisturbed. */
    method WriteRoute(meeting: TokenID, ghost f: Trails, ghost b: Trails, ghost paths: seq<seq<TokenID>>)
      returns (r: Slice)
      requires Stored(paths) && |paths| < MAX_PATHS
      requires forward.Tracks(currentGen, f) && backward.Tracks(currentGen, b) && meeting in f && meeting in b
      modifies this`pathStorage
      ensures Stored(paths) && r.Within(pathStorage, |paths|)
      ensures r.Read(pathStorage) == Splice(f[meeting], b[meeting])
    {
      ghost var was := pathStorage;
      r := ReconstructPath(meeting, |resultPaths|, f, b);
      DenotesLater(was, pathStorage, resultPaths, paths);
    }

    /** Stores the route through `n`; the backward side drops it when it is a duplicate. */
    method AddRoute(back: bool, n: TokenID, ghost sw: Sweep, ghost far: Trails)
      requires Holds(back, sw, far) && !Full(sw) && n in sw.seen && n in far
      modifies this`pathStorage, this`resultPaths
      ensures Holds(back, sw.(paths := Record(sw.paths, back, Route(back, sw.seen[n], far[n]))), far)
    {
      ghost var route := Route(back, sw.seen[n], far[n]);
      var path := WriteRoute(n, if back then far else sw.seen, if back then sw.seen else far, sw.paths);
      if back {
        var dup := IsPathDuplicate(path.Read(pathStorage), sw.paths);
        if dup {
          assert Record(sw.paths, back, route) == sw.paths;
          return;
        }
      }
      DenotesMore(pathStorage, resultPaths, sw.paths, path);
      assert Record(sw.paths, back, route) == sw.paths + [route];
      resultPaths := resultPaths + [path];
    }

    /** Records a route if the newly visited `n` is already known to the opposite side. */
    method CheckMeeting(back: bool, n: TokenID, ghost sw: Sweep, ghost far: Trails)
      requires Holds(back, sw, far) && !Full(sw) && n in sw.seen
      modifies this`pathStorage, this`resultPaths
      ensures var paths := if n in far then Record(sw.paths, back, Route(back, sw.seen[n], far[n])) else sw.paths;
              Holds(back, sw.(paths := paths), far)
    {
      var met := Near(!back).IsVisited(n, currentGen);
      if met {
        AddRoute(back, n, sw, far);
      }
    }

    method VisitNeighbor(back: bool, u: TokenID, n: TokenID, next: seq<TokenID>, ghost sw: Sweep, ghost far: Trails)
      returns (r: seq<TokenID>)
      requires Holds(back, sw, far)
      requires next == sw.next && !Full(sw) && u in sw.seen && n < capacity
      modifies Near(back).gen, Near(back).parent, this`pathStorage, this`resultPaths
      ensures Holds(back, Visit(sw, far, back, u, n), far)
      ensures r == Visit(sw, far, back, u, n).next
    {
      var visited := Near(back).IsVisited(n, currentGen);
      if visited {
        return next;
      }
      ghost var sw' := Visit(sw, far, back, u, n);
      Mark(back, u, n, sw, far);
      CheckMeeting(back, n, sw.(seen := sw'.seen), far);
      r := next + [n];
    }

    /** Visits the neighbours of one token, stopping as soon as ten routes are stored. */
    method ExpandToken(back: bool, u: TokenID, ns: seq<TokenID>, next: seq<TokenID>, ghost sw: Sweep, ghost far: Trails)
      returns (r: seq<TokenID>)
      requires Holds(back, sw, far) && next == sw.next && !Full(sw) && u in sw.seen
      requires forall n :: n in ns ==> n < capacity
      modifies Near(back).gen, Near(back).parent, this`pathStorage, this`resultPaths
      ensures Holds(back, VisitAll(sw, far, back, u, ns), far)
      ensures r == VisitAll(sw, far, back, u, ns).next
    {
      ghost var goal := VisitAll(sw, far, back, u, ns);
      ghost var cur := sw;
      LeadsFirst(sw, far, back, u, ns);
      r := next;
      for i := 0 to |ns|
        invariant Holds(back, cur, far) && r == cur.next && !Full(cur) && u in cur.seen
        invariant LeadsTo(goal, cur, far, back, u, ns, i)
      {
        LeadsNext(goal, cur, far, back, u, ns, i);
        assert ns[i] in ns;
        r := VisitNeighbor(back, u, ns[i], r, cur, far);
        cur := Visit(cur, far, back, u, ns[i]);
        if |resultPaths| >= MAX_PATHS {
          return;
        }
      }
      LeadsLast(goal, cur, far, back, u, ns);
    }

    /** Visits every neighbour that the adjacency lists for one token. */
    method ExpandVertex(back: bool, u: TokenID, next: seq<TokenID>, adj: AdjSlice, ghost g: Net, ghost sw: Sweep,
                        ghost far: Trails)
      returns (r: seq<TokenID>)
      requires Holds(back, sw, far) && next == sw.next && !Full(sw) && u in sw.seen
      requires adj.Valid() && adj.Net() == g && Below(g, capacity)
      modifies Near(back).gen, Near(back).parent, this`pathStorage, this`resultPaths
      ensures Holds(back, VisitAll(sw, far, back, u, Neighbors(g, u)), far)
      ensures r == VisitAll(sw, far, back, u, Neighbors(g, u)).next
    {
      var ns := adj.GetNeighborsInto(u, []);
      assert ns == Neighbors(g, u);
      assert forall n :: n in ns ==> Edge(g, u, n);
      r := ExpandToken(back, u, ns, next, sw, far);
    }

    /** Expands a whole layer, stopping as soon as ten routes are stored. */
    method ExpandLayer(back: bool, frontier: seq<TokenID>, adj: AdjSlice, ghost g: Net, ghost sw: Sweep,
                       ghost far: Trails)
      returns (next: seq<TokenID>)
      requires Holds(back, sw, far) && sw.next == [] && !Full(sw)
      requires adj.Valid() && adj.Net() == g && Below(g, capacity)
      requires forall u :: u in frontier ==> u in sw.seen
      modifies Near(back).gen, Near(back).parent, this`pathStorage, this`resultPaths
      ensures var sw' := SweepAll(g, sw, far, back, frontier);
              Holds(back, sw', far) && next == sw'.next
    {
      ghost var goal := SweepAll(g, sw, far, back, frontier);
      ghost var cur := sw;
      next := [];
      for i := 0 to |frontier|
        invariant unchanged(adj) && unchanged(adj.edges)
        invariant Holds(back, cur, far) && next == cur.next && !Full(cur) && Follows(sw, cur)
        invariant goal == SweepAll(g, cur, far, back, frontier[i..])
      {
        var u := frontier[i];
        assert u in frontier && adj.Net() == g;
        SweepAllStep(g, cur, far, back, frontier, i);
        VisitAllFollows(cur, far, back, u, Neighbors(g, u));
        next := ExpandVertex(back, u, next, adj, g, cur, far);
        cur := VisitAll(cur, far, back, u, Neighbors(g, u));
        if |resultPaths| >= MAX_PATHS {
          return;
        }
      }
    }

    /** The forward half of a round: the frontier is replaced by the layer behind it. */
    method ForwardLayer(adj: AdjSlice, ghost g: Net, ghost fwd: Side, ghost bwd: Side, ghost paths: seq<seq<TokenID>>)
      returns (full: bool)
      requires Marked(false, fwd.seen, bwd.seen) && Stored(paths) && |paths| < MAX_PATHS
      requires frontiers == (fwd.frontier, bwd.frontier) && forall u :: u in fwd.frontier ==> u in fwd.seen
      requires adj.Valid() && adj.Net() == g && Below(g, capacity)
      modifies forward.gen, forward.parent, this`pathStorage, this`resultPaths, this`frontiers
      ensures var f := Forward(g, fwd, bwd, paths);
              && Marked(false, f.seen, bwd.seen) && Stored(f.paths) && full == Full(f)
              && (!full ==> frontiers == (f.next, bwd.frontier))
    {
      full := false;
      if |frontiers.0| > 0 {
        var next := ExpandLayer(false, frontiers.0, adj, g, Sweep(fwd.seen, [], paths), bwd.seen);
        full := |resultPaths| >= MAX_PATHS;
        if !full {
          frontiers := (next, frontiers.1);
        }
      }
    }

    /** The backward half of a round. */
    method BackwardLayer(adj: AdjSlice, ghost g: Net, ghost f: Sweep, ghost bwd: Side)
      returns (full: bool)
      requires Marked(false, f.seen, bwd.seen) && Stored(f.paths) && !Full(f)
      requires frontiers == (f.next, bwd.frontier) && forall u :: u in bwd.frontier ==> u in bwd.seen
      requires adj.Valid() && adj.Net() == g && Below(g, capacity)
      modifies backward.gen, backward.parent, this`pathStorage, this`resultPaths, this`frontiers
      ensures var b := Backward(g, f, bwd);
              && Marked(true, b.seen, f.seen) && Stored(b.paths) && full == Full(b)
              && (!full ==> frontiers == (f.next, b.next))
    {
      full := false;
      Flip(false, f.seen, bwd.seen);
      assert Backward(g, f, bwd) == SweepAll(g, Sweep(bwd.seen, [], f.paths), f.seen, true, bwd.frontier);
      if |frontiers.1| > 0 {
        var next := ExpandLayer(true, frontiers.1, adj, g, Sweep(bwd.seen, [], f.paths), f.seen);
        full := |resultPaths| >= MAX_PATHS;
        if !full {
          frontiers := (frontiers.0, next);
        }
      }
    }

    lemma Flip(back: bool, near: Trails, far: Trails)
      requires Marked(back, near, far)
      ensures Marked(!back, far, near)
    {
    }

    /** The arena is between rounds, at stage `st`. */
    ghost predicate At(st: Stage)
      reads this, forward.gen, forward.parent, backward.gen, backward.parent
    {
      match st
      case Stage(fwd, bwd, paths, done) =>
        && Marked(false, fwd.seen, bwd.seen) && Stored(paths)
        && (!done ==> |paths| < MAX_PATHS && frontiers == (fwd.frontier, bwd.frontier) && Open(fwd) && Open(bwd))
    }

    /** One round; `done` when ten routes are stored or no frontier is left. */
    method NextRound(adj: AdjSlice, ghost g: Net, ghost st: Stage) returns (done: bool)
      requires At(st) && !st.done
      requires adj.Valid() && adj.Net() == g && Below(g, capacity)
      modifies this`pathStorage, this`resultPaths, this`frontiers
      modifies forward.gen, forward.parent, backward.gen, backward.parent
      ensures At(Round(g, st)) && done == Round(g, st).done
    {
      ghost var f := Forward(g, st.fwd, st.bwd, st.paths);
      done := ForwardLayer(adj, g, st.fwd, st.bwd, st.paths);
      if done {
        assert Round(g, st) == Stage(Side(f.seen, f.next), st.bwd, f.paths, true);
        return;
      }
      SweepAllFollows(g, Sweep(st.fwd.seen, [], st.paths), st.bwd.seen, false, st.fwd.frontier);
      SweepAllFollows(g, Sweep(st.bwd.seen, [], f.paths), f.seen, true, st.bwd.frontier);
      assert adj.Net() == g;
      done := BackwardLayer(adj, g, f, st.bwd);
      ghost var b := Backward(g, f, st.bwd);
      Flip(true, b.seen, f.seen);
      if !done {
        done := |frontiers.0| == 0 && |frontiers.1| == 0;
      }
      assert Round(g, st) == Stage(Side(f.seen, f.next), Side(b.seen, b.next), b.paths, done);
    }

    method Begin(s: TokenID, t: TokenID)
      requires Clean() && s < capacity && t < capacity
      modifies this`frontiers, forward.gen, forward.parent, backward.gen, backward.parent
      ensures At(Start(s, t))
    {
      var f, b := forward, backward;
      f.MarkVisited(s, -1, currentGen, map[], [s]);
      assert b.Tracks(currentGen, map[]);
      b.MarkVisited(t, -1, currentGen, map[], [t]);
      assert f.Tracks(currentGen, map[s := [s]]);
      frontiers := ([s], [t]);
    }

    /** The bidirectional search: the returned slices denote the routes of `FindRoutes`. */
    method Search(adj: AdjSlice, s: TokenID, t: TokenID, maxHops: int, ghost g: Net) returns (r: seq<Slice>)
      requires Clean() && s < capacity && t < capacity
      requires adj.Valid() && adj.Net() == g && Below(g, capacity) && adj.At(s, t) != Some([])
      modifies this`pathStorage, this`resultPaths, this`frontiers
      modifies forward.gen, forward.parent, backward.gen, backward.parent
      ensures Valid() && Denotes(pathStorage, r, FindRoutes(g, s, t, maxHops))
    {
      assert Valid();
      ghost var goal := FindRoutes(g, s, t, maxHops);
      if maxHops < 1 {
        assert goal == [];
        return [];
      }
      DirectEdge(adj, s, t);
      var direct := adj.Get(s, t);
      if direct.Some? {
        assert goal == [[s, t]];
        return [OnHeap([s, t])];
      }
      assert goal == Rounds(g, Start(s, t), DepthPerSide(maxHops)).paths;
      r := SearchIndirect(adj, s, t, (maxHops + 1) / 2, g);
    }

    method SearchIndirect(adj: AdjSlice, s: TokenID, t: TokenID, maxDepth: nat, ghost g: Net) returns (r: seq<Slice>)
      requires Clean() && s < capacity && t < capacity
      requires adj.Valid() && adj.Net() == g && Below(g, capacity)
      modifies this`pathStorage, this`resultPaths, this`frontiers
      modifies forward.gen, forward.parent, backward.gen, backward.parent
      ensures Valid() && Denotes(pathStorage, r, Rounds(g, Start(s, t), maxDepth).paths)
    {
      Begin(s, t);
      r := Run(adj, s, t, maxDepth, g);
    }

    /** The rounds of a search, up to the depth per side. */
    method Run(adj: AdjSlice, s: TokenID, t: TokenID, maxDepth: nat, ghost g: Net) returns (r: seq<Slice>)
      requires At(Start(s, t))
      requires adj.Valid() && adj.Net() == g && Below(g, capacity)
      modifies this`pathStorage, this`resultPaths, this`frontiers
      modifies forward.gen, forward.parent, backward.gen, backward.parent
      ensures Valid() && Denotes(pathStorage, r, Rounds(g, Start(s, t), maxDepth).paths)
    {
      ghost var st := Start(s, t);
      ghost var goal, left := Rounds(g, st, maxDepth), maxDepth;
      var depth, done := 1, false;
      while depth <= maxDepth && !done
        invariant unchanged(adj) && unchanged(adj.edges)
        invariant depth + left == maxDepth + 1 && At(st) && done == st.done
        invariant goal == Rounds(g, st, left)
        decreases left
      {
        assert adj.Net() == g;
        ghost var rest := left - 1;
        RoundsStep(g, st, left, rest);
        done := NextRound(adj, g, st);
        st := Round(g, st);
        depth, left := depth + 1, rest;
      }
      assert goal == st;
      r := resultPaths;
    }
  }

  lemma DirectEdge(adj: AdjSlice, s: TokenID, t: TokenID)
    requires adj.Valid()
    ensures Edge(adj.Net(), s, t) <==> HasPools(adj.At(s, t))
  {
    adj.NetEdges();
  }

  ghost predicate Open(side: Side) {
    forall u :: u in side.frontier ==> u in side.seen
  }

  /** Every edge leads to an id below the capacity of the arena. */
  ghost predicate Below(g: Net, capacity: nat) {
    forall u: TokenID, v: TokenID :: Edge(g, u, v) ==> v < capacity
  }
}
