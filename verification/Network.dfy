// Directed graphs on token ids, walks in them, and the two walk operations the
// path finder relies on: splicing a walk from the input with a walk from the
// output, and cutting a walk in two.
module Network {

  type TokenID = nat

  /** `g[v]` lists the neighbours of token `v`; ids past the end have none. */
  type Net = seq<seq<TokenID>>

  function Neighbors(g: Net, v: TokenID): seq<TokenID> {
    if v < |g| then g[v] else []
  }

  predicate Edge(g: Net, u: TokenID, v: TokenID) {
    v in Neighbors(g, u)
  }

  ghost predicate Symmetric(g: Net) {
    forall u, v :: Edge(g, u, v) ==> Edge(g, v, u)
  }

  predicate Hop(g: Net, p: seq<TokenID>, i: nat)
    requires i + 1 < |p|
  {
    Edge(g, p[i], p[i + 1])
  }

  /** A non-empty sequence of tokens whose consecutive members are joined by an edge. */
  ghost predicate Walk(g: Net, p: seq<TokenID>) {
    && 0 < |p|
    && forall i :: 0 <= i < |p| - 1 ==> Hop(g, p, i)
  }

  ghost predicate WalkBetween(g: Net, p: seq<TokenID>, r: TokenID, v: TokenID) {
    Walk(g, p) && p[0] == r && p[|p| - 1] == v
  }

  function Reverse(p: seq<TokenID>): (r: seq<TokenID>)
    ensures |r| == |p| && forall i :: 0 <= i < |p| ==> r[i] == p[|p| - 1 - i]
  {
    if p == [] then [] else Reverse(p[1..]) + [p[0]]
  }

  /** The walk that follows `front` to its end and then `rear` backwards. */
  function Splice(front: seq<TokenID>, rear: seq<TokenID>): seq<TokenID> {
    if rear == [] then front else front + Reverse(rear[..|rear| - 1])
  }

  lemma SpliceIsWalk(g: Net, front: seq<TokenID>, rear: seq<TokenID>, s: TokenID, t: TokenID, v: TokenID)
    requires Symmetric(g)
    requires WalkBetween(g, front, s, v) && WalkBetween(g, rear, t, v)
    ensures WalkBetween(g, Splice(front, rear), s, t)
    ensures |Splice(front, rear)| == |front| + |rear| - 1
  {
    var p := Splice(front, rear);
    forall i | 0 <= i < |p| - 1 ensures Hop(g, p, i) {
      if i >= |front| - 1 {
        var j := |front| + |rear| - 2 - i;
        assert p[i] == rear[j] && p[i + 1] == rear[j - 1];
        assert Hop(g, rear, j - 1);
      } else {
        assert Hop(g, front, i);
      }
    }
  }

  lemma ReverseIsWalk(g: Net, p: seq<TokenID>, s: TokenID, t: TokenID)
    requires Symmetric(g) && WalkBetween(g, p, s, t)
    ensures WalkBetween(g, Reverse(p), t, s)
  {
    var q := Reverse(p);
    forall i | 0 <= i < |q| - 1 ensures Hop(g, q, i) {
      var j := |p| - 2 - i;
      assert Hop(g, p, j);
    }
  }

  lemma PrefixIsWalk(g: Net, p: seq<TokenID>, k: nat)
    requires Walk(g, p) && 0 < k <= |p|
    ensures WalkBetween(g, p[..k], p[0], p[k - 1])
  {
    forall i | 0 <= i < k - 1 ensures Hop(g, p[..k], i) {
      assert Hop(g, p, i);
    }
  }

  lemma SuffixIsWalk(g: Net, p: seq<TokenID>, k: nat)
    requires Walk(g, p) && k < |p|
    ensures WalkBetween(g, p[k..], p[k], p[|p| - 1])
  {
    forall i | 0 <= i < |p| - k - 1 ensures Hop(g, p[k..], i) {
      assert Hop(g, p, k + i);
    }
  }

  lemma ExtendIsWalk(g: Net, p: seq<TokenID>, r: TokenID, u: TokenID, v: TokenID)
    requires WalkBetween(g, p, r, u) && Edge(g, u, v)
    ensures WalkBetween(g, p + [v], r, v)
  {
    var q := p + [v];
    forall i | 0 <= i < |q| - 1 ensures Hop(g, q, i) {
      if i < |p| - 1 {
        assert Hop(g, p, i);
      }
    }
  }
}
