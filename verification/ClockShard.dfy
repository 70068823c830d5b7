// One shard of the quote cache: a fixed array of entries with expiry times and
// used bits, evicted by a clock hand. Time is a parameter of every operation.
module ClockShards {
  import opened Domain

  /** Quotes live for 300 milliseconds; times are in nanoseconds. */
  const TTL: nat := 300_000_000

  datatype Entry<Q> = Entry(key: nat, quote: Option<Q>, expiry: int, used: bool) {

    predicate Live(k: nat, now: int) {
      key == k && now <= expiry
    }

    predicate Evictable(now: int) {
      !used || now > expiry
    }
  }

  /** The value of a shard. */
  datatype Shard<Q> = Shard(entries: seq<Entry<Q>>, size: nat, hand: nat) {

    ghost predicate Valid() {
      && size <= |entries| && hand < |entries|
      && forall i, j :: 0 <= i < j < size ==> entries[i].key != entries[j].key
    }
  }

  function Blank<Q>(n: nat): Shard<Q> {
    Shard(seq(n, _ => Entry(0, None, 0, false)), 0, 0)
  }

  // ---------- looking up ----------

  /** The first slot from `i` on that holds `key`, or the size. */
  function Slot<Q>(s: Shard<Q>, key: nat, i: nat): (r: nat)
    requires i <= s.size <= |s.entries|
    ensures i <= r <= s.size && (r < s.size ==> s.entries[r].key == key)
    ensures forall j :: i <= j < r ==> s.entries[j].key != key
    decreases s.size - i
  {
    if i == s.size || s.entries[i].key == key then i else Slot(s, key, i + 1)
  }

  function Answer<Q>(s: Shard<Q>, key: nat, now: int): Option<Q>
    requires s.Valid()
  {
    var i := Slot(s, key, 0);
    if i < s.size && now <= s.entries[i].expiry then s.entries[i].quote else None
  }

  function AfterGet<Q>(s: Shard<Q>, key: nat, now: int): (r: Shard<Q>)
    requires s.Valid()
    ensures r.Valid() && r.size == s.size && |r.entries| == |s.entries|
  {
    var i := Slot(s, key, 0);
    if i < s.size && now <= s.entries[i].expiry
    then s.(entries := s.entries[i := s.entries[i].(used := true)])
    else s
  }

  // ---------- eviction ----------

  /** The slot `k` places after `hand` on a clock of `n` slots. */
  function Turn(hand: nat, k: nat, n: nat): (r: nat)
    requires hand < n && k <= n
    ensures r < n
  {
    if hand + k < n then hand + k else hand + k - n
  }

  lemma NextOnClock(i: nat, n: nat)
    requires i < n
    ensures (i + 1) % n == if i + 1 < n then i + 1 else 0
  {
  }

  /** The hand steps round the clock. */
  lemma TurnSteps(hand: nat, k: nat, n: nat)
    requires hand < n && k <= n
    ensures (Turn(hand, k, n) + 1) % n == if k < n then Turn(hand, k + 1, n) else Turn(hand, 1, n)
    ensures (Turn(hand, k, n) + 1) % n == Turn(Turn(hand, k, n), 1, n)
  {
    NextOnClock(Turn(hand, k, n), n);
  }

  /** How far slot `i` lies after `hand`. */
  function Distance(hand: nat, i: nat, n: nat): (r: nat)
    requires hand < n && i < n
    ensures r < n && Turn(hand, r, n) == i
  {
    if hand <= i then i - hand else i + n - hand
  }

  /** How many entries the hand passes: it reads the clock anew at each attempt. */
  function Passed<Q>(s: Shard<Q>, clock: nat -> int, k: nat): (r: nat)
    requires s.hand < |s.entries| && k <= |s.entries|
    ensures k <= r <= |s.entries|
    ensures forall j :: k <= j < r ==> !s.entries[Turn(s.hand, j, |s.entries|)].Evictable(clock(j))
    ensures r < |s.entries| ==> s.entries[Turn(s.hand, r, |s.entries|)].Evictable(clock(r))
    decreases |s.entries| - k
  {
    if k == |s.entries| || s.entries[Turn(s.hand, k, |s.entries|)].Evictable(clock(k)) then k
    else Passed(s, clock, k + 1)
  }

  /** The entries after the hand has passed `k` of them: those lose their used bit. */
  function Cleared<Q>(s: Shard<Q>, k: nat): (r: seq<Entry<Q>>)
    requires s.hand < |s.entries|
    ensures |r| == |s.entries|
    ensures forall i :: 0 <= i < |r| ==>
              r[i] == if Distance(s.hand, i, |r|) < k then s.entries[i].(used := false) else s.entries[i]
  {
    seq(|s.entries|, i requires 0 <= i < |s.entries| =>
      if Distance(s.hand, i, |s.entries|) < k then s.entries[i].(used := false) else s.entries[i])
  }

  /**
   * The victim is the first entry from the hand that is unused or expired when
   * the hand reaches it; if every entry is passed, the hand is back at its
   * start, whose used bit it has just cleared.
   */
  function Evicted<Q>(s: Shard<Q>, entry: Entry<Q>, clock: nat -> int): (r: Shard<Q>)
    requires s.Valid() && forall i :: 0 <= i < s.size ==> s.entries[i].key != entry.key
    ensures r.Valid() && r.size == s.size && |r.entries| == |s.entries|
  {
    var n, k := |s.entries|, Passed(s, clock, 0);
    var victim := Turn(s.hand, k, n);
    Shard(Cleared(s, k)[victim := entry], s.size, Turn(victim, 1, n))
  }

  function AfterSet<Q>(s: Shard<Q>, key: nat, quote: Q, now: int, clock: nat -> int): (r: Shard<Q>)
    requires s.Valid()
    ensures r.Valid() && |r.entries| == |s.entries| && s.size <= r.size <= s.size + 1
  {
    var i, entry := Slot(s, key, 0), Entry(key, Some(quote), now + TTL, true);
    if i < s.size then s.(entries := s.entries[i := entry])
    else if s.size < |s.entries| then s.(entries := s.entries[s.size := entry], size := s.size + 1)
    else Evicted(s, entry, clock)
  }

  /** Expired entries lose their used bit. */
  function AfterExpire<Q>(s: Shard<Q>, now: int): (r: Shard<Q>)
    requires s.Valid()
    ensures r.Valid() && r.size == s.size && |r.entries| == |s.entries|
  {
    s.(entries := seq(|s.entries|, i requires 0 <= i < |s.entries| =>
      if i < s.size && now > s.entries[i].expiry then s.entries[i].(used := false) else s.entries[i]))
  }

  /** What the hand finds after `k` passes: an entry still as it was, or the first one with its bit cleared. */
  lemma HandFinds<Q>(s: Shard<Q>, clock: nat -> int, k: nat)
    requires s.hand < |s.entries| && k <= Passed(s, clock, 0)
    ensures var found := Cleared(s, k)[Turn(s.hand, k, |s.entries|)];
            found.Evictable(clock(k)) <==> k == Passed(s, clock, 0)
  {
  }

  lemma ClearsNext<Q>(s: Shard<Q>, k: nat)
    requires s.hand < |s.entries| && k < |s.entries|
    ensures var slot := Turn(s.hand, k, |s.entries|);
            Cleared(s, k + 1) == Cleared(s, k)[slot := Cleared(s, k)[slot].(used := false)]
  {
  }

  // ---------- what eviction promises ----------

  /** With one clock reading, the hand passes all entries exactly when none can be evicted. */
  lemma PassedAll<Q>(s: Shard<Q>, time: int)
    requires s.hand < |s.entries|
    ensures Passed(s, _ => time, 0) == |s.entries|
       <==> forall i :: 0 <= i < |s.entries| ==> !s.entries[i].Evictable(time)
  {
    var n, k := |s.entries|, Passed(s, _ => time, 0);
    if k == n {
      forall i | 0 <= i < n ensures !s.entries[i].Evictable(time) {
        assert s.entries[Turn(s.hand, Distance(s.hand, i, n), n)] == s.entries[i];
      }
    }
  }

  /** Slot `k` after the hand is the victim; the hand stops just after it. */
  ghost predicate VictimAt<Q>(s: Shard<Q>, r: Shard<Q>, key: nat, quote: Q, now: int, time: int, k: nat)
    requires s.Valid() && r.Valid() && |r.entries| == |s.entries| && k < |s.entries|
  {
    var n := |s.entries|;
    var victim := Turn(s.hand, k, n);
    var none := forall i :: 0 <= i < n ==> !s.entries[i].Evictable(time);
    && (if none then k == 0
        else s.entries[victim].Evictable(time)
             && forall j :: 0 <= j < k ==> !s.entries[Turn(s.hand, j, n)].Evictable(time))
    && r.entries[victim] == Entry(key, Some(quote), now + TTL, true)
    && r.size == s.size && r.hand == Turn(victim, 1, n)
    && forall i :: 0 <= i < n && i != victim ==>
         r.entries[i] == if none || Distance(s.hand, i, n) < k then s.entries[i].(used := false) else s.entries[i]
  }

  /** With one clock reading, nothing unused or expired survives before the victim, and nothing else changes. */
  lemma EvictionIsExact<Q>(s: Shard<Q>, key: nat, quote: Q, now: int, time: int)
    requires s.Valid() && s.size == |s.entries|
    requires forall i :: 0 <= i < s.size ==> s.entries[i].key != key
    ensures var r := AfterSet(s, key, quote, now, _ => time);
            var n := |s.entries|;
            exists k: nat :: k < n && VictimAt(s, r, key, quote, now, time, k)
  {
    var n, k := |s.entries|, Passed(s, _ => time, 0);
    var entry := Entry(key, Some(quote), now + TTL, true);
    assert Slot(s, key, 0) == s.size;
    assert AfterSet(s, key, quote, now, _ => time) == Evicted(s, entry, _ => time);
    PassedAll(s, time);
    assert VictimAt(s, Evicted(s, entry, _ => time), key, quote, now, time, if k == n then 0 else k);
  }

  // ---------- the shard in place ----------

  class CacheShard<Q> {
    var entries: array<Entry<Q>>
    var size: nat
    var hand: nat

    function State(): Shard<Q>
      reads this, entries
    {
      Shard(entries[..], size, hand)
    }

    ghost predicate Valid()
      reads this, entries
    {
      State().Valid()
    }

    constructor (n: nat)
      requires 0 < n
      ensures Valid() && fresh(entries) && State() == Blank(n)
    {
      entries := new Entry<Q>[n](_ => Entry(0, None, 0, false));
      size, hand := 0, 0;
      new;
      assert entries[..] == Blank<Q>(n).entries;
    }

    method Get(key: nat, now: int) returns (quote: Option<Q>)
      requires Valid()
      modifies entries
      ensures Valid() && quote == Answer(old(State()), key, now) && State() == AfterGet(old(State()), key, now)
    {
      ghost var s := State();
      for i := 0 to size
        invariant State() == s && size == s.size
        invariant forall j :: 0 <= j < i ==> !s.entries[j].Live(key, now)
      {
        if entries[i].Live(key, now) {
          assert Slot(s, key, 0) == i;
          entries[i] := entries[i].(used := true);
          assert entries[..] == s.entries[i := s.entries[i].(used := true)];
          return entries[i].quote;
        }
      }
      return None;
    }

    /** Moves the hand until it finds a victim, at the latest when it is back where it started. */
    method Evict(entry: Entry<Q>, clock: nat -> int)
      requires Valid() && size == entries.Length
      requires forall i :: 0 <= i < size ==> entries[i].key != entry.key
      modifies entries, this`hand
      ensures State() == Evicted(old(State()), entry, clock)
    {
      ghost var s, n := State(), entries.Length;
      for attempts := 0 to 2 * entries.Length
        invariant attempts <= Passed(s, clock, 0) && hand == Turn(s.hand, attempts, n)
        invariant entries[..] == Cleared(s, attempts)
      {
        var slot := hand;
        TurnSteps(s.hand, attempts, n);
        HandFinds(s, clock, attempts);
        hand := (hand + 1) % entries.Length;
        if entries[slot].Evictable(clock(attempts)) {
          entries[slot] := entry;
          assert entries[..] == Cleared(s, attempts)[slot := entry];
          return;
        }
        assert attempts < n && hand == Turn(s.hand, attempts + 1, n);
        ClearsNext(s, attempts);
        entries[slot] := entries[slot].(used := false);
      }
      assert false;
    }

    method Set(key: nat, quote: Q, now: int, clock: nat -> int)
      requires Valid()
      modifies this`size, this`hand, entries
      ensures Valid() && State() == AfterSet(old(State()), key, quote, now, clock)
    {
      ghost var s := State();
      var entry := Entry(key, Some(quote), now + TTL, true);
      for i := 0 to size
        invariant State() == s && size == s.size && Slot(s, key, 0) == Slot(s, key, i)
      {
        if entries[i].key == key {
          entries[i] := entry;
          assert entries[..] == s.entries[i := entry];
          return;
        }
      }
      if size < entries.Length {
        entries[size] := entry;
        size := size + 1;
        assert entries[..] == s.entries[s.size := entry];
        return;
      }
      Evict(entry, clock);
    }

    method EvictExpired(now: int)
      requires Valid()
      modifies entries
      ensures Valid() && State() == AfterExpire(old(State()), now)
    {
      ghost var s := State();
      for j := 0 to size
        invariant |s.entries| == entries.Length && size == s.size && hand == s.hand
        invariant forall i :: 0 <= i < entries.Length ==>
                    entries[i] == if i < j && now > s.entries[i].expiry then s.entries[i].(used := false)
                                  else s.entries[i]
      {
        if now > entries[j].expiry {
          entries[j] := entries[j].(used := false);
        }
      }
      assert entries[..] == AfterExpire(s, now).entries;
    }
  }
}
