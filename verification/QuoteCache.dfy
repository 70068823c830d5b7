// The sharded quote cache: requests are hashed to a key, the key picks a shard.
// A run is a list of operations, each with the clock readings it made.
module QuoteCaches {
  import opened Domain
  import opened CacheKeys
  import opened ClockShards

  const SHARDS: nat := 16
  const SLOTS: nat := 64

  /** Every shard is valid, full-sized, and holds only keys that belong to it. */
  ghost predicate Sound<Q>(st: seq<Shard<Q>>) {
    |st| == SHARDS && forall i :: 0 <= i < SHARDS ==> Houses(st[i], i)
  }

  ghost predicate Houses<Q>(s: Shard<Q>, i: nat) {
    && s.Valid() && |s.entries| == SLOTS
    && forall j :: 0 <= j < s.size ==> s.entries[j].key % SHARDS == i
  }

  // ---------- runs ----------

  datatype Op<Q> = Set(key: nat, quote: Q, now: int, clock: nat -> int)
                 | Get(key: nat, now: int)
                 | Expire(now: int)

  function Empty<Q>(): (st: seq<Shard<Q>>)
    ensures Sound(st)
  {
    seq(SHARDS, _ => Blank(SLOTS))
  }

  function After<Q>(st: seq<Shard<Q>>, op: Op<Q>): (r: seq<Shard<Q>>)
    requires Sound(st)
    ensures Sound(r)
  {
    match op
    case Set(key, quote, now, clock) =>
      SetHouses(st[key % SHARDS], key, quote, now, clock);
      st[key % SHARDS := AfterSet(st[key % SHARDS], key, quote, now, clock)]
    case Get(key, now) =>
      st[key % SHARDS := AfterGet(st[key % SHARDS], key, now)]
    case Expire(now) =>
      seq(SHARDS, i requires 0 <= i < SHARDS => AfterExpire(st[i], now))
  }

  function Run<Q>(ops: seq<Op<Q>>): (st: seq<Shard<Q>>)
    ensures Sound(st)
  {
    if ops == [] then Empty() else After(Run(ops[..|ops| - 1]), ops[|ops| - 1])
  }

  /** Entries keep key, quote and expiry under every operation, except the one entry a `Set` writes. */
  predicate SameQuote<Q(==)>(a: Entry<Q>, b: Entry<Q>) {
    a.key == b.key && a.quote == b.quote && a.expiry == b.expiry
  }

  lemma {:induction false} SetWrites<Q>(s: Shard<Q>, key: nat, quote: Q, now: int, clock: nat -> int, j: nat)
    requires s.Valid() && j < AfterSet(s, key, quote, now, clock).size
    ensures var e := AfterSet(s, key, quote, now, clock).entries[j];
            if e.key == key then SameQuote(e, Entry(key, Some(quote), now + TTL, true))
            else j < s.size && SameQuote(e, s.entries[j])
  {
    var i := Slot(s, key, 0);
    if i == s.size == |s.entries| {
      var n, entry := |s.entries|, Entry(key, Some(quote), now + TTL, true);
      assert AfterSet(s, key, quote, now, clock) == Evicted(s, entry, clock);
    }
  }

  lemma SetHouses<Q>(s: Shard<Q>, key: nat, quote: Q, now: int, clock: nat -> int)
    requires Houses(s, key % SHARDS)
    ensures Houses(AfterSet(s, key, quote, now, clock), key % SHARDS)
  {
    var r := AfterSet(s, key, quote, now, clock);
    forall j | 0 <= j < r.size ensures r.entries[j].key % SHARDS == key % SHARDS {
      SetWrites(s, key, quote, now, clock, j);
    }
  }

  // ---------- a hit is the latest quote, and fresh ----------

  datatype Made<Q> = Made(quote: Q, at: int)

  /** The latest `Set` of a key in a run, with its time. */
  function Latest<Q>(ops: seq<Op<Q>>, key: nat): Option<Made<Q>> {
    if ops == [] then None
    else
      var op := ops[|ops| - 1];
      if op.Set? && op.key == key then Some(Made(op.quote, op.now)) else Latest(ops[..|ops| - 1], key)
  }

  /** The entry holds the latest quote of its key, and expires one time-to-live after it was made. */
  ghost predicate IsLatest<Q>(ops: seq<Op<Q>>, e: Entry<Q>) {
    match Latest(ops, e.key)
    case None => false
    case Some(made) => e.quote == Some(made.quote) && e.expiry == made.at + TTL
  }

  ghost predicate Remembers<Q>(st: seq<Shard<Q>>, ops: seq<Op<Q>>) {
    forall i, j :: 0 <= i < |st| && 0 <= j < st[i].size && j < |st[i].entries| ==> IsLatest(ops, st[i].entries[j])
  }

  lemma {:induction false} RunRemembers<Q>(ops: seq<Op<Q>>)
    ensures Remembers(Run(ops), ops)
  {
    if ops != [] {
      var n := |ops| - 1;
      RunRemembers(ops[..n]);
      var st, r, op := Run(ops[..n]), Run(ops), ops[n];
      forall i, j | 0 <= i < SHARDS && 0 <= j < r[i].size && j < |r[i].entries| ensures IsLatest(ops, r[i].entries[j]) {
        if op.Set? && i == op.key % SHARDS {
          SetWrites(st[i], op.key, op.quote, op.now, op.clock, j);
        } else {
          assert j < st[i].size && SameQuote(r[i].entries[j], st[i].entries[j]);
          assert Houses(st[i], i);
        }
      }
    }
  }

  /** Over every run, a hit returns the quote of the latest `Set` of its key, made at most one time-to-live earlier. */
  lemma {:induction false} HitIsLatest<Q>(ops: seq<Op<Q>>, key: nat, now: int)
    ensures var st := Run(ops);
            Answer(st[key % SHARDS], key, now).Some? ==>
              && Latest(ops, key).Some?
              && Answer(st[key % SHARDS], key, now) == Some(Latest(ops, key).value.quote)
              && now <= Latest(ops, key).value.at + TTL
  {
    RunRemembers(ops);
    var s := Run(ops)[key % SHARDS];
    var i := Slot(s, key, 0);
    if i < s.size {
      assert IsLatest(ops, s.entries[i]);
    }
  }

  /** A quote just set is found exactly until it expires, whether it found a free slot or evicted another. */
  lemma SetThenGet<Q>(ops: seq<Op<Q>>, key: nat, quote: Q, now: int, clock: nat -> int, later: int)
    ensures var st := Run(ops + [Set(key, quote, now, clock)]);
            Answer(st[key % SHARDS], key, later) == if later <= now + TTL then Some(quote) else None
  {
    var run := ops + [Set(key, quote, now, clock)];
    assert run[..|ops|] == ops;
    var s := Run(ops)[key % SHARDS];
    var r := AfterSet(s, key, quote, now, clock);
    SetPresent(s, key, quote, now, clock);
    var j := Slot(r, key, 0);
    SetWrites(s, key, quote, now, clock, j);
  }

  lemma SetPresent<Q>(s: Shard<Q>, key: nat, quote: Q, now: int, clock: nat -> int)
    requires s.Valid()
    ensures var r := AfterSet(s, key, quote, now, clock); Slot(r, key, 0) < r.size
  {
    var r, i := AfterSet(s, key, quote, now, clock), Slot(s, key, 0);
    var j := if i < s.size then i else if s.size < |s.entries| then s.size
             else Turn(s.hand, Passed(s, clock, 0), |s.entries|);
    assert j < r.size && r.entries[j].key == key;
  }

  // ---------- what a set leaves to the other keys ----------

  /** Setting `key` finds the shard full and the key new, and the victim of the clock holds `other`. */
  predicate Displaces<Q>(s: Shard<Q>, key: nat, clock: nat -> int, other: nat)
    requires s.Valid()
  {
    && s.size == |s.entries| == Slot(s, key, 0)
    && s.entries[Turn(s.hand, Passed(s, clock, 0), |s.entries|)].key == other
  }

  lemma FoundAt<Q>(s: Shard<Q>, key: nat, j: nat)
    requires s.Valid() && j < s.size && s.entries[j].key == key
    ensures Slot(s, key, 0) == j
  {
  }

  /** The entry of another key stays in its slot unless it is the one displaced. */
  lemma EntryStays<Q>(s: Shard<Q>, key: nat, quote: Q, now: int, clock: nat -> int, j: nat)
    requires s.Valid() && j < s.size && s.entries[j].key != key && !Displaces(s, key, clock, s.entries[j].key)
    ensures SameQuote(AfterSet(s, key, quote, now, clock).entries[j], s.entries[j])
  {
  }

  lemma VictimGone<Q>(s: Shard<Q>, key: nat, quote: Q, now: int, clock: nat -> int, other: nat)
    requires s.Valid() && key != other && (Displaces(s, key, clock, other) || Slot(s, other, 0) == s.size)
    ensures var r := AfterSet(s, key, quote, now, clock); Slot(r, other, 0) == r.size
  {
    var r := AfterSet(s, key, quote, now, clock);
    var j := Slot(r, other, 0);
    if j < r.size {
      SetWrites(s, key, quote, now, clock, j);
      FoundAt(s, other, j);
      if Displaces(s, key, clock, other) {
        FoundAt(s, other, Turn(s.hand, Passed(s, clock, 0), |s.entries|));
      }
    }
  }

  /** A set changes the answer for another key exactly by displacing it. */
  lemma SetKeepsOthers<Q>(s: Shard<Q>, key: nat, quote: Q, now: int, clock: nat -> int, other: nat, later: int)
    requires s.Valid() && key != other
    ensures Answer(AfterSet(s, key, quote, now, clock), other, later)
         == if Displaces(s, key, clock, other) then None else Answer(s, other, later)
  {
    var r, j := AfterSet(s, key, quote, now, clock), Slot(s, other, 0);
    if j < s.size && !Displaces(s, key, clock, other) {
      EntryStays(s, key, quote, now, clock, j);
      FoundAt(r, other, j);
    } else {
      VictimGone(s, key, quote, now, clock, other);
    }
  }

  /**
   * Caching a request never changes what is served for a near-identical one,
   * except that it may displace it: the answer is then none, and otherwise
   * what it was.
   */
  lemma NearRequestsKeepTheirQuotes<Q>(ops: seq<Op<Q>>, r: Request, r': Request, i: nat, quote: Q, now: int,
                                       clock: nat -> int, later: int)
    requires Near(r, r', i)
    ensures var key, other := Hash(FNV_OFFSET, Bytes(r)), Hash(FNV_OFFSET, Bytes(r'));
            var st, st' := Run(ops), Run(ops + [Set(key, quote, now, clock)]);
            var displaced := key % SHARDS == other % SHARDS && Displaces(st[key % SHARDS], key, clock, other);
            Answer(st'[other % SHARDS], other, later)
            == if displaced then None else Answer(st[other % SHARDS], other, later)
  {
    var key, other := Hash(FNV_OFFSET, Bytes(r)), Hash(FNV_OFFSET, Bytes(r'));
    NearRequestsSeparate(r, r', i);
    assert (ops + [Set(key, quote, now, clock)])[..|ops|] == ops;
    SetKeepsOthers(Run(ops)[key % SHARDS], key, quote, now, clock, other, later);
  }

  // ---------- the cache in place ----------

  class QuoteCache<Q> {
    const shards: seq<CacheShard<Q>>

    ghost predicate Separate()
      reads shards
    {
      && |shards| == SHARDS
      && (forall i, j :: 0 <= i < j < SHARDS ==> shards[i] != shards[j] && shards[i].entries != shards[j].entries)
    }

    ghost function State(): (st: seq<Shard<Q>>)
      reads shards, set i | 0 <= i < |shards| :: shards[i].entries
      ensures |st| == |shards| && forall i :: 0 <= i < |st| ==> st[i] == shards[i].State()
    {
      seq(|shards|, i requires 0 <= i < |shards| reads shards, set k | 0 <= k < |shards| :: shards[k].entries =>
        shards[i].State())
    }

    ghost predicate Valid()
      reads shards, set i | 0 <= i < |shards| :: shards[i].entries
    {
      Separate() && Sound(State())
    }

    constructor ()
      ensures Valid() && State() == Empty()
      ensures forall i :: 0 <= i < |shards| ==> fresh(shards[i]) && fresh(shards[i].entries)
    {
      var made: seq<CacheShard<Q>> := [];
      for k := 0 to SHARDS
        invariant |made| == k
        invariant forall i, j :: 0 <= i < j < k ==> made[i] != made[j] && made[i].entries != made[j].entries
        invariant forall i :: 0 <= i < k ==> fresh(made[i]) && fresh(made[i].entries) && made[i].State() == Empty()[i]
      {
        var shard := new CacheShard<Q>(SLOTS);
        made := made + [shard];
      }
      shards := made;
    }

    method Get(r: Request, now: int) returns (quote: Option<Q>)
      requires Valid()
      modifies set i | 0 <= i < |shards| :: shards[i].entries
      ensures Valid()
      ensures var key := Hash(FNV_OFFSET, Bytes(r));
              quote == Answer(old(State())[key % SHARDS], key, now) && State() == After(old(State()), Op.Get(key, now))
    {
      ghost var st := State();
      var key := MakeKey(r);
      var shard := shards[key % SHARDS];
      quote := shard.Get(key, now);
      assert State() == After(st, Op.Get(key, now));
    }

    method Set(r: Request, quote: Q, now: int, clock: nat -> int)
      requires Valid()
      modifies shards, set i | 0 <= i < |shards| :: shards[i].entries
      ensures Valid()
      ensures State() == After(old(State()), Op.Set(Hash(FNV_OFFSET, Bytes(r)), quote, now, clock))
    {
      ghost var st := State();
      var key := MakeKey(r);
      var shard := shards[key % SHARDS];
      shard.Set(key, quote, now, clock);
      assert State() == After(st, Op.Set(key, quote, now, clock));
    }

    method EvictExpired(now: int)
      requires Valid()
      modifies set i | 0 <= i < |shards| :: shards[i].entries
      ensures Valid() && State() == After(old(State()), Op.Expire(now))
    {
      ghost var st := State();
      for i := 0 to |shards|
        invariant Separate()
        invariant forall j :: 0 <= j < SHARDS ==> shards[j].State() == if j < i then AfterExpire(st[j], now) else st[j]
      {
        shards[i].EvictExpired(now);
      }
      assert State() == After(st, Op.Expire(now));
    }
  }
}
