// The bounded least-recently-used cache: a map into a list whose front is the
// most recently used entry.
module LruCaches {
  import opened Domain

  datatype Pair<K, V> = Pair(key: K, value: V)

  // ---------- the cache as a recency-ordered list ----------

  ghost predicate Distinct<K, V>(s: seq<Pair<K, V>>) {
    forall i, j :: 0 <= i < j < |s| ==> s[i].key != s[j].key
  }

  predicate Has<K(==), V>(s: seq<Pair<K, V>>, key: K) {
    exists i :: 0 <= i < |s| && s[i].key == key
  }

  function Find<K(==), V>(s: seq<Pair<K, V>>, key: K): Option<V> {
    if s == [] then None else if s[0].key == key then Some(s[0].value) else Find(s[1..], key)
  }

  function Without<K(==), V>(s: seq<Pair<K, V>>, key: K): seq<Pair<K, V>> {
    if s == [] then [] else (if s[0].key == key then [] else [s[0]]) + Without(s[1..], key)
  }

  function AfterGet<K(==), V>(s: seq<Pair<K, V>>, key: K): seq<Pair<K, V>> {
    match Find(s, key)
    case None => s
    case Some(v) => [Pair(key, v)] + Without(s, key)
  }

  /** The list cut until it is below the capacity. */
  function Cut<K, V>(s: seq<Pair<K, V>>, max: int): (r: seq<Pair<K, V>>)
    requires 1 <= max
  {
    if |s| < max then s else s[..max - 1]
  }

  lemma CutDrops<K, V>(s: seq<Pair<K, V>>, max: int)
    requires 1 <= max <= |s|
    ensures Cut(s[..|s| - 1], max) == Cut(s, max)
  {
    assert s[..|s| - 1][..max - 1] == s[..max - 1];
  }

  function AfterSet<K(==), V>(s: seq<Pair<K, V>>, key: K, value: V, max: int): seq<Pair<K, V>>
    requires 1 <= max
  {
    if Find(s, key).Some? then [Pair(key, value)] + Without(s, key) else [Pair(key, value)] + Cut(s, max)
  }

  lemma {:induction false} FindHas<K, V>(s: seq<Pair<K, V>>, key: K)
    ensures Find(s, key).Some? <==> Has(s, key)
    ensures Find(s, key).Some? ==> Pair(key, Find(s, key).value) in s
  {
    if s != [] {
      FindHas(s[1..], key);
      if Has(s, key) && s[0].key != key {
        var i :| 0 <= i < |s| && s[i].key == key;
        assert s[1..][i - 1] == s[i];
      }
      if Has(s[1..], key) {
        var i :| 0 <= i < |s[1..]| && s[1..][i].key == key;
        assert s[i + 1] == s[1..][i];
      }
      assert s[0].key == key ==> Has(s, key);
    }
  }

  lemma {:induction false} FindAt<K, V>(s: seq<Pair<K, V>>, i: nat)
    requires Distinct(s) && i < |s|
    ensures Find(s, s[i].key) == Some(s[i].value)
  {
    if i > 0 {
      FindAt(s[1..], i - 1);
    }
  }

  lemma {:induction false} WithoutAt<K, V>(s: seq<Pair<K, V>>, i: nat)
    requires Distinct(s) && i < |s|
    ensures Without(s, s[i].key) == s[..i] + s[i + 1..]
  {
    if i == 0 {
      WithoutAbsent(s[1..], s[0].key);
    } else {
      WithoutAt(s[1..], i - 1);
      assert s[..i] == [s[0]] + s[1..][..i - 1];
    }
  }

  lemma {:induction false} WithoutAbsent<K, V>(s: seq<Pair<K, V>>, key: K)
    requires forall i :: 0 <= i < |s| ==> s[i].key != key
    ensures Without(s, key) == s
  {
    if s != [] {
      WithoutAbsent(s[1..], key);
    }
  }

  // ---------- runs ----------

  datatype Op<K, V> = Get(key: K) | Peek(key: K) | Set(key: K, value: V) | Clear

  function After<K(==), V>(s: seq<Pair<K, V>>, op: Op<K, V>, max: int): seq<Pair<K, V>>
    requires 1 <= max
  {
    match op
    case Get(key) => AfterGet(s, key)
    case Peek(_) => s
    case Set(key, value) => AfterSet(s, key, value, max)
    case Clear => []
  }

  function Run<K(==), V>(ops: seq<Op<K, V>>, max: int): seq<Pair<K, V>>
    requires 1 <= max
  {
    if ops == [] then [] else After(Run(ops[..|ops| - 1], max), ops[|ops| - 1], max)
  }

  // ---------- contents at one size are contents at any larger size ----------

  /** `a` arises from `b` by leaving entries out. */
  predicate Sub<K(==), V(==)>(a: seq<Pair<K, V>>, b: seq<Pair<K, V>>) {
    a == [] || (b != [] && if a[0] == b[0] then Sub(a[1..], b[1..]) else Sub(a, b[1..]))
  }

  lemma {:induction false} SubHas<K, V>(a: seq<Pair<K, V>>, b: seq<Pair<K, V>>, i: nat)
    requires Sub(a, b) && i < |a|
    ensures a[i] in b
  {
    if a[0] == b[0] {
      if i > 0 {
        SubHas(a[1..], b[1..], i - 1);
        assert a[1..][i - 1] in b[1..];
      }
    } else {
      SubHas(a, b[1..], i);
    }
  }

  lemma {:induction false} SubSkips<K, V>(a: seq<Pair<K, V>>, b: seq<Pair<K, V>>, x: Pair<K, V>)
    requires Sub(a, b)
    ensures Sub(a, [x] + b)
    decreases |b|, 1
  {
    assert ([x] + b)[1..] == b;
    if a != [] && a[0] == x {
      SubTail(a, b);
    }
  }

  lemma {:induction false} SubTail<K, V>(a: seq<Pair<K, V>>, b: seq<Pair<K, V>>)
    requires Sub(a, b) && a != []
    ensures Sub(a[1..], b)
    decreases |b|, 0
  {
    assert b == [b[0]] + b[1..];
    if a[0] != b[0] {
      SubTail(a, b[1..]);
    }
    SubSkips(a[1..], b[1..], b[0]);
  }

  lemma SubPrepends<K, V>(a: seq<Pair<K, V>>, b: seq<Pair<K, V>>, x: Pair<K, V>)
    requires Sub(a, b)
    ensures Sub([x] + a, [x] + b)
  {
    assert ([x] + a)[1..] == a && ([x] + b)[1..] == b;
  }

  lemma {:induction false} SubCut<K, V>(a: seq<Pair<K, V>>, b: seq<Pair<K, V>>, k: nat)
    requires Sub(a, b) && k <= |a|
    ensures Sub(a[..k], b)
  {
    if k > 0 {
      if a[0] == b[0] {
        SubCut(a[1..], b[1..], k - 1);
        assert a[..k][1..] == a[1..][..k - 1];
      } else {
        SubCut(a, b[1..], k);
      }
    }
  }

  /** Dropping the last entry of both. */
  lemma {:induction false} SubDropsLast<K, V>(a: seq<Pair<K, V>>, b: seq<Pair<K, V>>)
    requires Sub(a, b) && a != []
    ensures Sub(a[..|a| - 1], b[..|b| - 1])
  {
    if |b| == 1 {
      assert |a| == 1;
    } else if a[0] == b[0] {
      if |a| > 1 {
        SubDropsLast(a[1..], b[1..]);
        assert a[..|a| - 1][1..] == a[1..][..|a| - 2] && b[..|b| - 1][1..] == b[1..][..|b| - 2];
      }
    } else {
      SubDropsLast(a, b[1..]);
      assert b[..|b| - 1] == [b[0]] + b[1..][..|b| - 2];
      SubSkips(a[..|a| - 1], b[1..][..|b| - 2], b[0]);
    }
  }

  lemma {:induction false} SubWithout<K, V>(a: seq<Pair<K, V>>, b: seq<Pair<K, V>>, key: K)
    requires Sub(a, b)
    ensures Sub(Without(a, key), Without(b, key))
  {
    if a != [] {
      if a[0] == b[0] {
        SubWithout(a[1..], b[1..], key);
        SubPrepends(Without(a[1..], key), Without(b[1..], key), a[0]);
        assert [] + Without(a[1..], key) == Without(a[1..], key) && [] + Without(b[1..], key) == Without(b[1..], key);
      } else {
        SubWithout(a, b[1..], key);
        SubSkips(Without(a, key), Without(b[1..], key), b[0]);
        assert [] + Without(b[1..], key) == Without(b[1..], key);
      }
    }
  }

  lemma FindSplits<K, V>(s: seq<Pair<K, V>>, key: K) returns (i: nat)
    requires Distinct(s)
    ensures Find(s, key).Some? ==>
              i < |s| && s[i] == Pair(key, Find(s, key).value) && Without(s, key) == s[..i] + s[i + 1..]
    ensures Find(s, key).None? ==> Without(s, key) == s && forall j :: 0 <= j < |s| ==> s[j].key != key
  {
    i := 0;
    FindHas(s, key);
    if Find(s, key).Some? {
      i :| i < |s| && s[i].key == key;
      FindAt(s, i);
      WithoutAt(s, i);
    } else {
      assert forall j :: 0 <= j < |s| ==> s[j].key != key;
      WithoutAbsent(s, key);
    }
  }

  lemma FrontDistinct<K, V>(s: seq<Pair<K, V>>, x: Pair<K, V>)
    requires Distinct(s) && forall j :: 0 <= j < |s| ==> s[j].key != x.key
    ensures Distinct([x] + s)
  {
  }

  lemma RestDistinct<K, V>(s: seq<Pair<K, V>>, i: nat)
    requires Distinct(s) && i < |s|
    ensures var r := s[..i] + s[i + 1..];
            Distinct(r) && forall j :: 0 <= j < |r| ==> r[j].key != s[i].key
  {
  }

  /** Moving an entry to the front, with a new value or the old one. */
  lemma MovedDistinct<K, V>(s: seq<Pair<K, V>>, key: K, value: V)
    requires Distinct(s) && Find(s, key).Some?
    ensures Distinct([Pair(key, value)] + Without(s, key)) && |Without(s, key)| == |s| - 1
  {
    var i := FindSplits(s, key);
    RestDistinct(s, i);
    FrontDistinct(Without(s, key), Pair(key, value));
  }

  /** Keys stay distinct and the capacity is never exceeded. */
  lemma AfterKeeps<K, V>(s: seq<Pair<K, V>>, op: Op<K, V>, max: int)
    requires 1 <= max && Distinct(s) && |s| <= max
    ensures Distinct(After(s, op, max)) && |After(s, op, max)| <= max
  {
    if op.Get? && Find(s, op.key).Some? {
      MovedDistinct(s, op.key, Find(s, op.key).value);
    } else if op.Set? && Find(s, op.key).Some? {
      MovedDistinct(s, op.key, op.value);
    } else if op.Set? {
      var i := FindSplits(s, op.key);
      FrontDistinct(Cut(s, max), Pair(op.key, op.value));
    }
  }

  lemma {:induction false} RunKeeps<K, V>(ops: seq<Op<K, V>>, max: int)
    requires 1 <= max
    ensures Distinct(Run(ops, max)) && |Run(ops, max)| <= max
  {
    if ops != [] {
      RunKeeps(ops[..|ops| - 1], max);
      AfterKeeps(Run(ops[..|ops| - 1], max), ops[|ops| - 1], max);
    }
  }

  /** The smaller cache leaves out entries of the larger, and none while it has room. */
  ghost predicate Within<K, V>(a: seq<Pair<K, V>>, b: seq<Pair<K, V>>, n: int) {
    Sub(a, b) && (|a| < n ==> a == b)
  }

  lemma SubFind<K, V>(a: seq<Pair<K, V>>, b: seq<Pair<K, V>>, key: K)
    requires Sub(a, b) && Distinct(a) && Distinct(b) && Find(a, key).Some?
    ensures Find(b, key) == Find(a, key)
  {
    var i := FindSplits(a, key);
    SubHas(a, b, i);
    var j :| 0 <= j < |b| && b[j] == a[i];
    FindAt(b, j);
  }

  lemma SetWithin<K, V>(a: seq<Pair<K, V>>, b: seq<Pair<K, V>>, key: K, value: V, n: int, m: int)
    requires 1 <= n <= m && Distinct(a) && Distinct(b) && |a| <= n && |b| <= m && Within(a, b, n)
    ensures Within(AfterSet(a, key, value, n), AfterSet(b, key, value, m), n)
  {
    var x := Pair(key, value);
    var i := FindSplits(a, key);
    var j := FindSplits(b, key);
    SubWithout(a, b, key);
    if Find(a, key).Some? {
      SubFind(a, b, key);
      SubPrepends(Without(a, key), Without(b, key), x);
    } else if |a| < n {
      SubItself([x] + a);
    } else if Find(b, key).Some? {
      SubCut(a, Without(b, key), n - 1);
      SubPrepends(a[..n - 1], Without(b, key), x);
    } else {
      SubCut(a, b, n - 1);
      SubDropsLast(a, b);
      SubPrepends(a[..n - 1], Cut(b, m), x);
    }
  }

  lemma GetWithin<K, V>(a: seq<Pair<K, V>>, b: seq<Pair<K, V>>, key: K, n: int)
    requires Distinct(a) && Distinct(b) && Within(a, b, n)
    ensures Within(AfterGet(a, key), AfterGet(b, key), n)
  {
    var i := FindSplits(a, key);
    var j := FindSplits(b, key);
    SubWithout(a, b, key);
    if Find(a, key).Some? {
      SubFind(a, b, key);
      SubPrepends(Without(a, key), Without(b, key), Pair(key, Find(a, key).value));
    } else if Find(b, key).Some? {
      SubSkips(a, Without(b, key), Pair(key, Find(b, key).value));
    }
  }

  lemma {:induction false} RunWithin<K, V>(ops: seq<Op<K, V>>, n: int, m: int)
    requires 1 <= n <= m
    ensures Within(Run(ops, n), Run(ops, m), n)
  {
    if ops == [] {
      SubItself<K, V>([]);
    } else {
      var before, op := ops[..|ops| - 1], ops[|ops| - 1];
      RunWithin(before, n, m);
      RunKeeps(before, n);
      RunKeeps(before, m);
      match op
      case Get(key) => GetWithin(Run(before, n), Run(before, m), key, n);
      case Peek(_) =>
      case Set(key, value) => SetWithin(Run(before, n), Run(before, m), key, value, n, m);
      case Clear => SubItself<K, V>([]);
    }
  }

  /** Over any common run, whatever a cache of size n holds, a cache of size m >= n holds with the same value. */
  lemma Inclusion<K, V>(ops: seq<Op<K, V>>, n: int, m: int, key: K)
    requires 1 <= n <= m
    ensures Find(Run(ops, n), key).Some? ==> Find(Run(ops, m), key) == Find(Run(ops, n), key)
  {
    RunWithin(ops, n, m);
    RunKeeps(ops, n);
    RunKeeps(ops, m);
    if Find(Run(ops, n), key).Some? {
      SubFind(Run(ops, n), Run(ops, m), key);
    }
  }

  lemma {:induction false} SubItself<K, V>(a: seq<Pair<K, V>>)
    ensures Sub(a, a)
  {
    if a != [] {
      SubItself(a[1..]);
    }
  }

  // ---------- eviction takes the least recently used ----------

  predicate Uses<K(==), V>(op: Op<K, V>, key: K) {
    (op.Get? || op.Set?) && op.key == key
  }

  /** When a key was last set or looked up: the length of the run up to and including that operation. */
  function LastUse<K(==), V>(ops: seq<Op<K, V>>, key: K): (r: nat)
    ensures r <= |ops|
  {
    if ops == [] then 0 else if Uses(ops[|ops| - 1], key) then |ops| else LastUse(ops[..|ops| - 1], key)
  }

  function LastValue<K(==), V>(ops: seq<Op<K, V>>, key: K): Option<V> {
    if ops == [] then None
    else
      var op := ops[|ops| - 1];
      if op.Set? && op.key == key then Some(op.value) else LastValue(ops[..|ops| - 1], key)
  }

  /** More recently used entries stand nearer the front, and every entry has the value last set. */
  ghost predicate ByRecency<K, V>(s: seq<Pair<K, V>>, ops: seq<Op<K, V>>) {
    && (forall i, j :: 0 <= i < j < |s| ==> LastUse(ops, s[i].key) > LastUse(ops, s[j].key))
    && (forall i :: 0 <= i < |s| ==> LastValue(ops, s[i].key) == Some(s[i].value))
  }

  lemma PutFront<K, V>(s: seq<Pair<K, V>>, before: seq<Op<K, V>>, op: Op<K, V>, value: V)
    requires ByRecency(s, before) && (op.Get? || op.Set?) && forall i :: 0 <= i < |s| ==> s[i].key != op.key
    requires LastValue(before + [op], op.key) == Some(value)
    ensures ByRecency([Pair(op.key, value)] + s, before + [op])
  {
    var ops, r := before + [op], [Pair(op.key, value)] + s;
    assert ops[..|before|] == before;
    forall i | 1 <= i < |r|
      ensures LastUse(ops, r[i].key) == LastUse(before, r[i].key)
      ensures LastValue(ops, r[i].key) == LastValue(before, r[i].key)
    {
      assert r[i] == s[i - 1];
    }
  }

  lemma RestByRecency<K, V>(s: seq<Pair<K, V>>, ops: seq<Op<K, V>>, i: nat)
    requires ByRecency(s, ops) && i < |s|
    ensures ByRecency(s[..i] + s[i + 1..], ops)
  {
  }

  lemma CutByRecency<K, V>(s: seq<Pair<K, V>>, ops: seq<Op<K, V>>, max: int)
    requires ByRecency(s, ops) && 1 <= max
    ensures ByRecency(Cut(s, max), ops)
  {
  }

  lemma Unused<K, V>(s: seq<Pair<K, V>>, before: seq<Op<K, V>>, op: Op<K, V>)
    requires ByRecency(s, before) && forall i :: 0 <= i < |s| ==> !Uses(op, s[i].key)
    ensures ByRecency(s, before + [op])
  {
    assert (before + [op])[..|before|] == before;
  }

  lemma AfterByRecency<K, V>(s: seq<Pair<K, V>>, before: seq<Op<K, V>>, op: Op<K, V>, max: int)
    requires 1 <= max && Distinct(s) && ByRecency(s, before)
    ensures ByRecency(After(s, op, max), before + [op])
  {
    assert (before + [op])[..|before|] == before;
    if op.Peek? || op.Clear? {
      Unused(if op.Peek? then s else [], before, op);
    } else {
      var i := FindSplits(s, op.key);
      if Find(s, op.key).Some? {
        RestByRecency(s, before, i);
        RestDistinct(s, i);
        PutFront(Without(s, op.key), before, op, if op.Set? then op.value else Find(s, op.key).value);
      } else if op.Set? {
        CutByRecency(s, before, max);
        PutFront(Cut(s, max), before, op, op.value);
      } else {
        Unused(s, before, op);
      }
    }
  }

  lemma {:induction false} RunByRecency<K, V>(ops: seq<Op<K, V>>, max: int)
    requires 1 <= max
    ensures ByRecency(Run(ops, max), ops)
  {
    if ops != [] {
      var before, op := ops[..|ops| - 1], ops[|ops| - 1];
      RunByRecency(before, max);
      RunKeeps(before, max);
      AfterByRecency(Run(before, max), before, op, max);
      assert before + [op] == ops;
    }
  }

  /** Setting a new key in a full cache drops the one entry used least recently, and keeps all others. */
  lemma EvictsLeastRecent<K, V>(ops: seq<Op<K, V>>, key: K, value: V, max: int)
    requires 1 <= max && |Run(ops, max)| == max && Find(Run(ops, max), key).None?
    ensures var s := Run(ops, max);
            && Run(ops + [Set(key, value)], max) == [Pair(key, value)] + s[..max - 1]
            && forall i :: 0 <= i < max - 1 ==> LastUse(ops, s[i].key) > LastUse(ops, s[max - 1].key)
  {
    RunByRecency(ops, max);
    var s := Run(ops, max);
    assert (ops + [Set(key, value)])[..|ops|] == ops;
  }

  // ---------- the capacity ----------

  /** The list after evicting `n` times; evicting from the empty list does nothing. */
  function Evictions<K, V>(s: seq<Pair<K, V>>, n: nat): seq<Pair<K, V>> {
    if n == 0 || s == [] then s else Evictions(s[..|s| - 1], n - 1)
  }

  lemma {:induction false} EvictionsCount<K, V>(s: seq<Pair<K, V>>, n: nat)
    ensures Evictions(s, n) == if n <= |s| then s[..|s| - n] else []
  {
    if n > 0 && s != [] {
      EvictionsCount(s[..|s| - 1], n - 1);
    }
  }

  /** The eviction loop of `Set` ends exactly for a positive capacity; else it would evict forever. */
  lemma EvictionEnds<K, V>(s: seq<Pair<K, V>>, max: int)
    ensures 1 <= max <==> exists n: nat :: |Evictions(s, n)| < max
  {
    EvictionsCount(s, |s|);
    assert |Evictions(s, |s|)| == 0;
  }

  // ---------- the cache in place ----------

  /** A list element, shared between the map and the list. */
  class Element<K, V> {
    const key: K
    var value: V

    constructor (key: K, value: V)
      ensures this.key == key && this.value == value
    {
      this.key, this.value := key, value;
    }
  }

  function PairsOf<K, V>(es: seq<Element<K, V>>): (s: seq<Pair<K, V>>)
    reads es
    ensures |s| == |es| && forall i :: 0 <= i < |s| ==> s[i] == Pair(es[i].key, es[i].value)
  {
    seq(|es|, i requires 0 <= i < |es| reads es => Pair(es[i].key, es[i].value))
  }

  ghost function KeySet<K, V>(s: seq<Pair<K, V>>): set<K> {
    if s == [] then {} else {s[0].key} + KeySet(s[1..])
  }

  lemma {:induction false} KeySetSize<K, V>(s: seq<Pair<K, V>>)
    requires Distinct(s)
    ensures |KeySet(s)| == |s| && forall k :: k in KeySet(s) <==> Find(s, k).Some?
  {
    if s != [] {
      KeySetSize(s[1..]);
      var i := FindSplits(s[1..], s[0].key);
      assert Find(s[1..], s[0].key).None?;
    }
  }

  function Moved<T>(s: seq<T>, i: nat): (r: seq<T>)
    requires i < |s|
    ensures |r| == |s| && r[0] == s[i]
  {
    [s[i]] + (s[..i] + s[i + 1..])
  }

  /** Moving an element to the front rearranges the list. */
  lemma MovedIsSame<T>(s: seq<T>, i: nat)
    requires i < |s|
    ensures forall x :: x in Moved(s, i) <==> x in s
  {
    var r := Moved(s, i);
    forall x | x in s ensures x in r {
      var j :| 0 <= j < |s| && s[j] == x;
      assert r[if j == i then 0 else if j < i then j + 1 else j] == x;
    }
  }

  lemma PairsCut<K, V>(es: seq<Element<K, V>>, i: nat)
    requires i <= |es|
    ensures PairsOf(es[..i]) == PairsOf(es)[..i]
  {
  }

  lemma PairsFront<K, V>(e: Element<K, V>, es: seq<Element<K, V>>)
    ensures PairsOf([e] + es) == [Pair(e.key, e.value)] + PairsOf(es)
  {
  }

  lemma MovedPairs<K, V>(es: seq<Element<K, V>>, i: nat)
    requires i < |es| && Distinct(PairsOf(es))
    ensures PairsOf(Moved(es, i)) == [Pair(es[i].key, es[i].value)] + Without(PairsOf(es), es[i].key)
    ensures Distinct(PairsOf(Moved(es, i)))
  {
    var c := PairsOf(es);
    WithoutAt(c, i);
    FindAt(c, i);
    MovedDistinct(c, es[i].key, es[i].value);
    assert PairsOf(Moved(es, i)) == Moved(c, i);
  }

  /** The map holds exactly the elements of the list, each under its own key. */
  ghost predicate Indexes<K, V>(cache: map<K, Element<K, V>>, es: seq<Element<K, V>>) {
    && (forall k :: k in cache ==> cache[k] in es && cache[k].key == k)
    && (forall e :: e in es ==> e.key in cache && cache[e.key] == e)
  }

  lemma IndexesFront<K, V>(cache: map<K, Element<K, V>>, es: seq<Element<K, V>>, e: Element<K, V>)
    requires Indexes(cache, es) && e.key !in cache
    ensures Indexes(cache[e.key := e], [e] + es)
  {
    assert e !in es && forall x :: x in [e] + es <==> x == e || x in es;
  }

  lemma IndexesMoved<K, V>(cache: map<K, Element<K, V>>, es: seq<Element<K, V>>, i: nat)
    requires Indexes(cache, es) && i < |es|
    ensures Indexes(cache, Moved(es, i))
  {
    MovedIsSame(es, i);
  }

  class BoundedLRUCache<K(==), V> {
    var cache: map<K, Element<K, V>>
    var lru: seq<Element<K, V>>
    const maxSize: int

    function Contents(): seq<Pair<K, V>>
      reads this, lru
    {
      PairsOf(lru)
    }

    /** The map and the list hold the same elements, one to a key, and not too many. */
    ghost predicate Valid()
      reads this, lru
    {
      && (|lru| <= maxSize || lru == [])
      && Distinct(Contents())
      && Indexes(cache, lru)
    }

    constructor (maxSize: int)
      ensures Valid() && Contents() == [] && this.maxSize == maxSize
    {
      cache, lru := map[], [];
      this.maxSize := maxSize;
    }

    /** The map finds what the list holds. */
    lemma Lookup(key: K)
      requires Valid()
      ensures Distinct(Contents())
      ensures Find(Contents(), key) == if key in cache then Some(cache[key].value) else None
    {
      var c := Contents();
      FindHas(c, key);
      if key in cache {
        var i :| 0 <= i < |lru| && lru[i] == cache[key];
        FindAt(c, i);
      } else {
        assert forall i :: 0 <= i < |c| ==> c[i].key == lru[i].key;
      }
    }

    method MoveToFront(e: Element<K, V>)
      requires Valid() && e in lru
      modifies this`lru
      ensures Valid() && |lru| == |old(lru)| && lru[0] == e
      ensures Contents() == [Pair(e.key, e.value)] + Without(old(Contents()), e.key)
    {
      var i :| 0 <= i < |lru| && lru[i] == e;
      MovedPairs(lru, i);
      IndexesMoved(cache, lru, i);
      lru := Moved(lru, i);
    }

    /** Looks a key up and makes it the most recently used. */
    method Get(key: K) returns (r: Option<V>)
      requires Valid()
      modifies this`lru
      ensures Valid() && r == Find(old(Contents()), key) && Contents() == AfterGet(old(Contents()), key)
    {
      Lookup(key);
      if key !in cache {
        return None;
      }
      var e := cache[key];
      MoveToFront(e);
      return Some(e.value);
    }

    /** Looks a key up without touching the order. */
    method GetWithoutPromote(key: K) returns (r: Option<V>)
      requires Valid()
      ensures r == Find(Contents(), key)
    {
      Lookup(key);
      if key !in cache {
        return None;
      }
      return Some(cache[key].value);
    }

    method EvictLRU()
      requires Valid()
      modifies this`cache, this`lru
      ensures Valid() && |lru| == (if old(lru) == [] then 0 else |old(lru)| - 1)
      ensures Contents() == old(Contents())[..|lru|]
      ensures forall k :: k in cache ==> k in old(cache)
    {
      if |lru| == 0 {
        return;
      }
      var back := lru[|lru| - 1];
      PairsCut(lru, |lru| - 1);
      lru := lru[..|lru| - 1];
      cache := cache - {back.key};
    }

    lemma Sizes()
      requires Valid()
      ensures |cache| == |lru|
    {
      KeySetSize(Contents());
      ghost var keys := KeySet(Contents());
      forall k | k in cache.Keys ensures k in keys {
        Lookup(k);
      }
      forall k | k in keys ensures k in cache.Keys {
        assert Find(Contents(), k).Some?;
        Lookup(k);
      }
      assert cache.Keys == keys;
    }

    /** Evicts until there is room; needs a positive capacity, see `EvictionEnds`. */
    method MakeRoom()
      requires Valid() && 1 <= maxSize
      modifies this`cache, this`lru
      ensures Valid() && |lru| < maxSize && Contents() == Cut(old(Contents()), maxSize)
      ensures forall k :: k in cache ==> k in old(cache)
    {
      ghost var c := Contents();
      Sizes();
      while |cache| >= maxSize
        invariant Valid() && |cache| == |lru| && Cut(Contents(), maxSize) == Cut(c, maxSize)
        invariant forall k :: k in cache ==> k in old(cache)
        decreases |lru|
      {
        ghost var now := Contents();
        CutDrops(now, maxSize);
        EvictLRU();
        assert Contents() == now[..|now| - 1];
        Sizes();
      }
    }

    method PushFront(key: K, value: V)
      requires Valid() && key !in cache && |lru| < maxSize
      modifies this`cache, this`lru
      ensures Valid() && Contents() == [Pair(key, value)] + old(Contents())
    {
      Lookup(key);
      ghost var s := Contents();
      ghost var i := FindSplits(s, key);
      FrontDistinct(s, Pair(key, value));
      var e := new Element(key, value);
      PairsFront(e, lru);
      IndexesFront(cache, lru, e);
      assert PairsOf([e] + lru) == [Pair(key, value)] + s;
      lru := [e] + lru;
      cache := cache[key := e];
      assert Indexes(cache, lru);
    }

    method Update(e: Element<K, V>, value: V)
      requires Valid() && lru != [] && lru[0] == e
      modifies e`value
      ensures Valid() && Contents() == [Pair(e.key, value)] + old(Contents())[1..]
    {
      ghost var c := Contents();
      e.value := value;
      forall j | 1 <= j < |lru| ensures Contents()[j] == c[j] {
        assert c[j].key != c[0].key;
      }
      assert Contents() == [Pair(e.key, value)] + c[1..];
    }

    method Set(key: K, value: V)
      requires Valid() && 1 <= maxSize
      modifies this`cache, this`lru, lru
      ensures Valid() && Contents() == AfterSet(old(Contents()), key, value, maxSize)
    {
      Lookup(key);
      if key in cache {
        var e := cache[key];
        MoveToFront(e);
        Update(e, value);
        return;
      }
      MakeRoom();
      PushFront(key, value);
    }

    method Clear()
      modifies this`cache, this`lru
      ensures Valid() && Contents() == []
    {
      cache, lru := map[], [];
    }
  }
}
