/**
 The storage that answers from a local cache and flushes to Redis behind the
 caller's back: the check over cached counters, and one whole flush of a batch.
 */
module CachedRedis {
  import opened Prelude
  import opened Counters
  import opened CachedCounters
  import opened RedisScripts
  import WriteBehind

  type Cache = map<CounterKey, Cached>

  /** Over its limit as far as the cache knows; a counter not cached is taken to be at zero. */
  predicate Over(cache: Cache, c: Counter, delta: u64, now: nat) {
    if c.key in cache then cache[c.key].IsLimited(delta, c.maxValue, now) else c.maxValue < delta
  }

  ghost predicate Admits(cache: Cache, cs: seq<Counter>, delta: u64, now: nat) {
    forall i :: 0 <= i < |cs| ==> !Over(cache, cs[i], delta, now)
  }

  /** `i` is the first cached counter over its limit, or else the first one not cached. */
  ghost predicate FirstLimited(cache: Cache, cs: seq<Counter>, delta: u64, now: nat, i: nat) {
    && i < |cs| && Over(cache, cs[i], delta, now)
    && forall j :: 0 <= j < |cs| && (if cs[i].key in cache then j < i && cs[j].key in cache else j < i || cs[j].key in cache) ==>
         !Over(cache, cs[j], delta, now)
  }

  function Shown(cache: Cache, c: Counter, now: nat): Counter {
    if c.key in cache then
      var cell := cache[c.key].cell;
      c.(remaining := Some(SaturatingSub(c.maxValue, cell.ValueAt(now))),
         expiresIn := Some(if cell.Ttl(now) == 0 then c.window else cell.Ttl(now)))
    else
      c.(remaining := Some(c.maxValue), expiresIn := Some(c.window))
  }

  function Increased(cache: Cache, c: Counter, delta: u64, now: nat): Cache {
    var cached := if c.key in cache then cache[c.key] else Provisional(0, c.window, now);
    cache[c.key := cached.Delta(delta, c.window, now)]
  }

  function IncreasedAll(cache: Cache, cs: seq<Counter>, delta: u64, now: nat): Cache
    decreases |cs|
  {
    if cs == [] then cache else IncreasedAll(Increased(cache, cs[0], delta, now), cs[1..], delta, now)
  }

  function Hits(cache: Cache, k: CounterKey, now: nat): u64 {
    if k in cache then cache[k].cell.ValueAt(now) else 0
  }

  /** The cached check admits exactly the calls whose hits all counters have room for. */
  lemma {:induction false} AdmitsIff(cache: Cache, cs: seq<Counter>, delta: u64, now: nat)
    ensures Admits(cache, cs, delta, now) <==>
            forall i :: 0 <= i < |cs| ==> Hits(cache, cs[i].key, now) + delta <= cs[i].maxValue
  {
    forall i | 0 <= i < |cs|
      ensures Over(cache, cs[i], delta, now) <==> Hits(cache, cs[i].key, now) + delta > cs[i].maxValue
    {
    }
  }

  /**
   What a check reports: remaining and hits make up the limit unless the hits are past
   it, and the time left ends when the cached value stops being read; a counter not
   cached or over is reported with a whole window.
   */
  lemma {:induction false} ShownIsWhatIsCached(cache: Cache, c: Counter, now: nat)
    ensures var shown, hits := Shown(cache, c, now), Hits(cache, c.key, now);
            && shown.remaining.Some? && shown.expiresIn.Some?
            && (if hits <= c.maxValue then shown.remaining.value + hits == c.maxValue else shown.remaining.value == 0)
            && (if c.key in cache && now < cache[c.key].cell.expiry
                then forall t: nat :: Hits(cache, c.key, t) == if t < now + shown.expiresIn.value then cache[c.key].cell.value else 0
                else shown.expiresIn.value == c.window)
            && (c.key in cache && now < cache[c.key].cell.expiry ==> now + shown.expiresIn.value == cache[c.key].cell.expiry)
  {
  }

  /**
   A denial names the first counter over its limit in the order they are visited:
   cached counters come before those the cache has never seen.
   */
  lemma {:induction false} NamesTheFirstVisited(cache: Cache, cs: seq<Counter>, delta: u64, now: nat, i: nat)
    requires i < |cs|
    ensures FirstLimited(cache, cs, delta, now, i) <==>
            && Hits(cache, cs[i].key, now) + delta > cs[i].maxValue
            && forall j :: 0 <= j < |cs| && Hits(cache, cs[j].key, now) + delta > cs[j].maxValue ==>
                 if (cs[i].key in cache) == (cs[j].key in cache) then i <= j else cs[i].key in cache
  {
    forall j | 0 <= j < |cs|
      ensures Over(cache, cs[j], delta, now) <==> Hits(cache, cs[j].key, now) + delta > cs[j].maxValue
    {
    }
  }

  /** Hits recorded in the cache are read until the window they fall in ends: a running one, or a new one. */
  lemma {:induction false} RecordedHitsLastTheirWindow(cache: Cache, c: Counter, delta: u64, now: nat, t: nat)
    requires now <= t && Hits(cache, c.key, now) + delta < U64
    ensures var end := if c.key in cache && now < cache[c.key].cell.expiry then cache[c.key].cell.expiry else now + c.window;
            Hits(Increased(cache, c, delta, now), c.key, t) == if t < end then Hits(cache, c.key, now) + delta else 0
  {
  }

  lemma {:induction false} IncreasedElsewhere(cache: Cache, cs: seq<Counter>, delta: u64, now: nat, k: CounterKey)
    requires !Mentions(cs, k)
    ensures Hits(IncreasedAll(cache, cs, delta, now), k, now) == Hits(cache, k, now)
    decreases |cs|
  {
    if cs == [] {
    } else {
      IncreasedElsewhere(Increased(cache, cs[0], delta, now), cs[1..], delta, now, k);
    }
  }

  /**
   An admitted call adds its hits to every counter it lists, and as far as this
   cache has seen takes none of them past its limit.
   */
  lemma {:induction false} AdmittedStaysWithinLimit(cache: Cache, cs: seq<Counter>, delta: u64, now: nat, i: nat)
    requires Distinct(cs) && Admits(cache, cs, delta, now) && i < |cs| && cs[i].window > 0
    ensures Hits(IncreasedAll(cache, cs, delta, now), cs[i].key, now) == Hits(cache, cs[i].key, now) + delta <= cs[i].maxValue
    decreases |cs|
  {
    var next := Increased(cache, cs[0], delta, now);
    assert !Over(cache, cs[i], delta, now);
    if i == 0 {
      IncreasedElsewhere(next, cs[1..], delta, now, cs[0].key);
    } else {
      forall j | 0 <= j < |cs[1..]|
        ensures !Over(next, cs[1..][j], delta, now)
      {
        assert cs[1..][j] == cs[j + 1] && !Over(cache, cs[j + 1], delta, now) && cs[j + 1].key != cs[0].key;
      }
      AdmittedStaysWithinLimit(next, cs[1..], delta, now, i - 1);
    }
  }

  // ---- One flush ----

  /** A pending entry of the batch: what is sent, and the value it brings the cache to. */
  datatype Sent = Sent(c: Counter, offset: u64, value: u64)

  function TakenAll(cache: Cache, cs: seq<Counter>, now: nat): Cache {
    if cs == [] then cache
    else
      var before, k := TakenAll(cache, cs[..|cs| - 1], now), cs[|cs| - 1].key;
      if k in before then before[k := before[k].Taken(now)] else before
  }

  function SentAll(cache: Cache, cs: seq<Counter>, now: nat): seq<Sent> {
    if cs == [] then []
    else
      var front, c := SentAll(cache, cs[..|cs| - 1], now), cs[|cs| - 1];
      if c.key in cache && cache[c.key].Pending(now) > 0
      then front + [Sent(c, cache[c.key].Pending(now), cache[c.key].cell.ValueAt(now))] else front
  }

  function Pairs(sent: seq<Sent>): (batch: seq<(Counter, nat)>)
    ensures |batch| == |sent|
    ensures forall i :: 0 <= i < |sent| ==> batch[i] == (sent[i].c, sent[i].offset)
  {
    seq(|sent|, i requires 0 <= i < |sent| => (sent[i].c, sent[i].offset))
  }

  /** Fold one reply in, if its window is still open. */
  function Acked(cached: Cached, sent: Sent, total: nat, until: Option<nat>, now: nat): Cached {
    if until.Some? && until.value > now
    then cached.AddedFromAuthority(Wrap(SaturatingSub(total, sent.value)), until.value) else cached
  }

  function AckedAll(cache: Cache, sent: seq<Sent>, replies: seq<(nat, Option<nat>)>, now: nat): Cache
    requires |sent| == |replies|
    decreases |sent|
  {
    if sent == [] then cache
    else
      var n := |sent| - 1;
      var before, k := AckedAll(cache, sent[..n], replies[..n], now), sent[n].c.key;
      if k in before then before[k := Acked(before[k], sent[n], replies[n].0, replies[n].1, now)] else before
  }

  function RevertedAll(cache: Cache, sent: seq<Sent>): Cache
    decreases |sent|
  {
    if sent == [] then cache
    else
      var before, last := RevertedAll(cache, sent[..|sent| - 1]), sent[|sent| - 1];
      if last.c.key in before then before[last.c.key := before[last.c.key].Reverted(last.offset)] else before
  }

  class CachedRedisStorage {
    var cache: Cache

    constructor ()
      ensures cache == map[]
    {
      cache := map[];
    }

    method IncreaseBy(c: Counter, delta: u64, now: nat)
      modifies this
      ensures cache == Increased(old(cache), c, delta, now)
    {
      var cached := if c.key in cache then cache[c.key] else Provisional(0, c.window, now);
      cache := cache[c.key := cached.Delta(delta, c.window, now)];
    }

    /**
     Decide on the cached values alone, without a trip to Redis; when admitted,
     record the hits locally.
     */
    method CheckAndUpdate(counters: array<Counter>, delta: u64, now: nat) returns (auth: Authorization)
      modifies this, counters
      ensures auth.Ok? <==> Admits(old(cache), old(counters[..]), delta, now)
      ensures auth.Limited? ==> exists i: nat ::
                FirstLimited(old(cache), old(counters[..]), delta, now, i) && auth.name == old(counters[..])[i].name
      ensures cache == if auth.Ok? then IncreasedAll(old(cache), old(counters[..]), delta, now) else old(cache)
      ensures forall i :: 0 <= i < counters.Length ==> counters[i] == Shown(old(cache), old(counters[..])[i], now)
    {
      ghost var given, start := counters[..], cache;
      auth := CheckAssumingFreshMisses(counters, delta, now);
      ghost var shown := counters[..];
      if auth.Ok? {
        for i := 0 to counters.Length
          invariant counters[..] == shown
          invariant IncreasedAll(cache, given[i..], delta, now) == IncreasedAll(start, given, delta, now)
        {
          assert given[i..][1..] == given[i + 1..];
          assert Increased(cache, shown[i], delta, now) == Increased(cache, given[i], delta, now);
          IncreaseBy(counters[i], delta, now);
        }
        assert given[counters.Length..] == [];
      }
    }

    /** Cached counters first, then those the cache has never seen. */
    method CheckAssumingFreshMisses(counters: array<Counter>, delta: u64, now: nat) returns (auth: Authorization)
      modifies counters
      ensures auth.Ok? <==> Admits(cache, old(counters[..]), delta, now)
      ensures auth.Limited? ==> exists i: nat ::
                FirstLimited(cache, old(counters[..]), delta, now, i) && auth.name == old(counters[..])[i].name
      ensures forall i :: 0 <= i < counters.Length ==> counters[i] == Shown(cache, old(counters[..])[i], now)
    {
      ghost var given, first: nat := counters[..], 0;
      auth := Ok;
      for i := 0 to counters.Length
        invariant forall j :: 0 <= j < i ==>
                    counters[j] == if given[j].key in cache then Shown(cache, given[j], now) else given[j]
        invariant forall j :: i <= j < counters.Length ==> counters[j] == given[j]
        invariant auth.Ok? <==> forall j :: 0 <= j < i && given[j].key in cache ==> !Over(cache, given[j], delta, now)
        invariant auth.Limited? ==> FirstLimited(cache, given, delta, now, first) && auth.name == given[first].name
      {
        if counters[i].key in cache {
          if auth.Ok? && Over(cache, counters[i], delta, now) {
            auth := Limited(counters[i].name);
            first := i;
          }
          counters[i] := Shown(cache, counters[i], now);
        }
      }
      for i := 0 to counters.Length
        invariant forall j :: 0 <= j < counters.Length ==>
                    counters[j] == if j < i || given[j].key in cache then Shown(cache, given[j], now) else given[j]
        invariant auth.Ok? <==> forall j :: 0 <= j < |given| && (j < i || given[j].key in cache) ==>
                    !Over(cache, given[j], delta, now)
        invariant auth.Limited? ==> FirstLimited(cache, given, delta, now, first) && auth.name == given[first].name
      {
        if counters[i].key !in cache {
          if auth.Ok? && counters[i].maxValue < delta {
            auth := Limited(counters[i].name);
            first := i;
          }
          counters[i] := Shown(cache, counters[i], now);
        }
      }
    }

    /** Take what is pending from every counter of the batch. */
    method TakeBatch(batch: seq<Counter>, now: nat) returns (sent: seq<Sent>)
      requires Distinct(batch)
      modifies this
      ensures cache == TakenAll(old(cache), batch, now) && sent == SentAll(old(cache), batch, now)
    {
      ghost var start := cache;
      sent := [];
      for i := 0 to |batch|
        invariant cache == TakenAll(start, batch[..i], now) && sent == SentAll(start, batch[..i], now)
      {
        assert batch[..i + 1][..i] == batch[..i];
        var c := batch[i];
        TakenElsewhere(start, batch[..i], now, c.key);
        if c.key in cache {
          var offset, value := cache[c.key].Pending(now), cache[c.key].cell.ValueAt(now);
          cache := cache[c.key := cache[c.key].Taken(now)];
          if offset > 0 {
            sent := sent + [Sent(c, offset, value)];
          }
        }
      }
      assert batch[..|batch|] == batch;
    }

    method AckBatch(sent: seq<Sent>, replies: seq<(nat, Option<nat>)>, now: nat)
      requires |sent| == |replies|
      modifies this
      ensures cache == AckedAll(old(cache), sent, replies, now)
    {
      ghost var start := cache;
      for i := 0 to |sent|
        invariant cache == AckedAll(start, sent[..i], replies[..i], now)
      {
        assert sent[..i + 1][..i] == sent[..i] && replies[..i + 1][..i] == replies[..i];
        var k := sent[i].c.key;
        if k in cache {
          cache := cache[k := Acked(cache[k], sent[i], replies[i].0, replies[i].1, now)];
        }
      }
      assert sent[..|sent|] == sent && replies[..|sent|] == replies;
    }

    method RevertBatch(sent: seq<Sent>)
      modifies this
      ensures cache == RevertedAll(old(cache), sent)
    {
      ghost var start := cache;
      for i := 0 to |sent|
        invariant cache == RevertedAll(start, sent[..i])
      {
        assert sent[..i + 1][..i] == sent[..i];
        var k := sent[i].c.key;
        if k in cache {
          cache := cache[k := cache[k].Reverted(sent[i].offset)];
        }
      }
      assert sent[..|sent|] == sent;
    }

    /**
     One flush: take, send as one script, then fold the replies in, or put the hits
     back when Redis cannot be reached.
     */
    method FlushBatch(batch: seq<Counter>, redis: RedisStore, reachable: bool, now: nat)
      requires Distinct(batch)
      modifies this, redis
      ensures redis.db == FlushedDb(old(redis.db), old(cache), batch, reachable, now)
      ensures cache == FlushedCache(old(redis.db), old(cache), batch, reachable, now)
    {
      var sent := TakeBatch(batch, now);
      if reachable {
        var replies := redis.BatchUpdateCounters(Pairs(sent), now);
        AckBatch(sent, replies, now);
      } else {
        RevertBatch(sent);
      }
    }
  }

  function FlushedDb(db: Db, cache: Cache, batch: seq<Counter>, reachable: bool, now: nat): Db {
    if reachable then BatchScript(db, Pairs(SentAll(cache, batch, now)), now) else db
  }

  function FlushedCache(db: Db, cache: Cache, batch: seq<Counter>, reachable: bool, now: nat): Cache {
    var sent, taken := SentAll(cache, batch, now), TakenAll(cache, batch, now);
    if reachable then AckedAll(taken, sent, BatchReplies(db, Pairs(sent), now), now) else RevertedAll(taken, sent)
  }

  lemma {:induction false} TakenElsewhere(cache: Cache, cs: seq<Counter>, now: nat, k: CounterKey)
    requires forall i :: 0 <= i < |cs| ==> cs[i].key != k
    ensures var r := TakenAll(cache, cs, now);
            (k in r) == (k in cache) && (k in cache ==> r[k] == cache[k])
    decreases |cs|
  {
    if cs == [] {
    } else {
      TakenElsewhere(cache, cs[..|cs| - 1], now, k);
    }
  }

  lemma {:induction false} TakenAt(cache: Cache, cs: seq<Counter>, now: nat, i: nat)
    requires Distinct(cs) && i < |cs| && cs[i].key in cache
    ensures cs[i].key in TakenAll(cache, cs, now)
    ensures TakenAll(cache, cs, now)[cs[i].key] == cache[cs[i].key].Taken(now)
    decreases |cs|
  {
    var n := |cs| - 1;
    if i < n {
      TakenAt(cache, cs[..n], now, i);
    } else {
      TakenElsewhere(cache, cs[..n], now, cs[n].key);
    }
  }

  /** Every entry sent belongs to a counter of the batch that has something pending. */
  lemma {:induction false} SentComesFrom(cache: Cache, cs: seq<Counter>, now: nat, j: nat) returns (i: nat)
    requires j < |SentAll(cache, cs, now)|
    ensures i < |cs| && SentAll(cache, cs, now)[j].c == cs[i] && cs[i].key in cache
    ensures SentAll(cache, cs, now)[j].offset == cache[cs[i].key].Pending(now) > 0
    decreases |cs|
  {
    var n := |cs| - 1;
    if j < |SentAll(cache, cs[..n], now)| {
      i := SentComesFrom(cache, cs[..n], now, j);
    } else {
      i := n;
    }
  }

  ghost predicate DistinctSent(sent: seq<Sent>) {
    forall i, j :: 0 <= i < j < |sent| ==> sent[i].c.key != sent[j].c.key
  }

  lemma {:induction false} SentIsDistinct(cache: Cache, cs: seq<Counter>, now: nat)
    requires Distinct(cs)
    ensures DistinctSent(SentAll(cache, cs, now))
    decreases |cs|
  {
    if cs == [] {
    } else {
      var n := |cs| - 1;
      SentIsDistinct(cache, cs[..n], now);
      var front := SentAll(cache, cs[..n], now);
      forall j | 0 <= j < |front|
        ensures front[j].c.key != cs[n].key
      {
        var i := SentComesFrom(cache, cs[..n], now, j);
      }
    }
  }

  lemma {:induction false} SentAt(cache: Cache, cs: seq<Counter>, now: nat, i: nat) returns (j: nat)
    requires i < |cs| && cs[i].key in cache && cache[cs[i].key].Pending(now) > 0
    ensures j < |SentAll(cache, cs, now)|
    ensures SentAll(cache, cs, now)[j] == Sent(cs[i], cache[cs[i].key].Pending(now), cache[cs[i].key].cell.ValueAt(now))
    decreases |cs|
  {
    var n := |cs| - 1;
    if i < n {
      j := SentAt(cache, cs[..n], now, i);
    } else {
      j := |SentAll(cache, cs[..n], now)|;
    }
  }

  /**
   A reply whose window is still open moves what the cache reads by what Redis counted
   beyond the value sent, until that window ends, and leaves what is pending pending;
   any other reply changes nothing.
   */
  lemma {:induction false} ReplyInTimeIsFoldedIn(cached: Cached, sent: Sent, total: u64, until: Option<nat>, now: nat, t: nat)
    requires InWindow(cached, now) && now <= t
    requires sent.value <= total ==> cached.cell.value + (total - sent.value) < U64
    ensures var after := Acked(cached, sent, total, until, now);
            if until.Some? && now < until.value
            then
              && after.fromAuthority && after.Pending(now) == cached.Pending(now)
              && after.cell.ValueAt(t) ==
                 if t >= until.value then 0 else cached.cell.value + if sent.value < total then total - sent.value else 0
            else after == cached
  {
  }

  lemma {:induction false} AckedElsewhere(cache: Cache, sent: seq<Sent>, replies: seq<(nat, Option<nat>)>, now: nat, k: CounterKey)
    requires |sent| == |replies| && forall i :: 0 <= i < |sent| ==> sent[i].c.key != k
    ensures (k in AckedAll(cache, sent, replies, now)) == (k in cache)
    ensures k in cache ==> AckedAll(cache, sent, replies, now)[k] == cache[k]
    decreases |sent|
  {
    if sent == [] {
    } else {
      AckedElsewhere(cache, sent[..|sent| - 1], replies[..|sent| - 1], now, k);
    }
  }

  lemma {:induction false} AckedAt(cache: Cache, sent: seq<Sent>, replies: seq<(nat, Option<nat>)>, now: nat, j: nat)
    requires |sent| == |replies| && DistinctSent(sent) && j < |sent| && sent[j].c.key in cache
    ensures sent[j].c.key in AckedAll(cache, sent, replies, now)
    ensures AckedAll(cache, sent, replies, now)[sent[j].c.key] ==
            Acked(cache[sent[j].c.key], sent[j], replies[j].0, replies[j].1, now)
    decreases |sent|
  {
    var n := |sent| - 1;
    if j < n {
      AckedAt(cache, sent[..n], replies[..n], now, j);
    } else {
      AckedElsewhere(cache, sent[..n], replies[..n], now, sent[n].c.key);
    }
  }

  lemma {:induction false} RevertedElsewhere(cache: Cache, sent: seq<Sent>, k: CounterKey)
    requires forall i :: 0 <= i < |sent| ==> sent[i].c.key != k
    ensures (k in RevertedAll(cache, sent)) == (k in cache)
    ensures k in cache ==> RevertedAll(cache, sent)[k] == cache[k]
    decreases |sent|
  {
    if sent == [] {
    } else {
      RevertedElsewhere(cache, sent[..|sent| - 1], k);
    }
  }

  lemma {:induction false} RevertedAt(cache: Cache, sent: seq<Sent>, j: nat)
    requires DistinctSent(sent) && j < |sent| && sent[j].c.key in cache
    ensures sent[j].c.key in RevertedAll(cache, sent)
    ensures RevertedAll(cache, sent)[sent[j].c.key] == cache[sent[j].c.key].Reverted(sent[j].offset)
    decreases |sent|
  {
    var n := |sent| - 1;
    if j < n {
      RevertedAt(cache, sent[..n], j);
    } else {
      RevertedElsewhere(cache, sent[..n], sent[n].c.key);
    }
  }

  lemma {:induction false} BatchElsewhere(db: Db, batch: seq<(Counter, nat)>, now: nat, k: CounterKey)
    requires forall i :: 0 <= i < |batch| ==> batch[i].0.key != k
    ensures SameKey(db, BatchScript(db, batch, now), k)
    decreases |batch|
  {
    if batch == [] {
    } else {
      BatchElsewhere(db, batch[..|batch| - 1], now, k);
    }
  }

  ghost predicate DistinctPairs(batch: seq<(Counter, nat)>) {
    forall i, j :: 0 <= i < j < |batch| ==> batch[i].0.key != batch[j].0.key
  }

  lemma {:induction false} UpdateElsewhere(db: Db, c: Counter, delta: nat, now: nat, k: CounterKey)
    requires c.key != k
    ensures SameKey(db, UpdateScript(db, c, delta, now), k)
  {
  }

  lemma {:induction false} UpdateReadsOwnKey(db: Db, other: Db, c: Counter, delta: nat, now: nat)
    requires SameKey(db, other, c.key)
    ensures Reply(db, c, delta, now) == Reply(other, c, delta, now)
    ensures SameKey(UpdateScript(db, c, delta, now), UpdateScript(other, c, delta, now), c.key)
  {
  }

  /** What the script does to one counter of the batch depends on that counter alone. */
  lemma {:induction false} BatchAt(db: Db, batch: seq<(Counter, nat)>, now: nat, j: nat)
    requires j < |batch| && DistinctPairs(batch)
    ensures SameKey(UpdateScript(db, batch[j].0, batch[j].1, now), BatchScript(db, batch, now), batch[j].0.key)
    decreases |batch|
  {
    var n := |batch| - 1;
    var before := BatchScript(db, batch[..n], now);
    if j < n {
      UpdateElsewhere(before, batch[n].0, batch[n].1, now, batch[j].0.key);
      BatchAt(db, batch[..n], now, j);
    } else {
      BatchElsewhere(db, batch[..n], now, batch[n].0.key);
      UpdateReadsOwnKey(db, before, batch[n].0, batch[n].1, now);
    }
  }

  lemma {:induction false} ReplyIsOwn(db: Db, batch: seq<(Counter, nat)>, now: nat, j: nat)
    requires j < |batch| && DistinctPairs(batch)
    ensures BatchReplies(db, batch, now)[j] == Reply(db, batch[j].0, batch[j].1, now)
    decreases |batch|
  {
    var n := |batch| - 1;
    if j < n {
      ReplyIsOwn(db, batch[..n], now, j);
    } else {
      BatchElsewhere(db, batch[..n], now, batch[n].0.key);
      UpdateReadsOwnKey(db, BatchScript(db, batch[..n], now), batch[n].0, batch[n].1, now);
    }
  }

  /** A counter as the cache and Redis hold it, in a running window of both, with hits to send. */
  ghost predicate Flushable(db: Db, cache: Cache, c: Counter, now: nat) {
    && c.key in cache && c.window > 0
    && InWindow(cache[c.key], now) && cache[c.key].Pending(now) > 0
    && Get(db, c.key, now) + cache[c.key].Pending(now) < U64
    && (Exists(db, c.key, now) ==> db.counters[c.key].until.Some?)
  }

  function SentFor(cache: Cache, c: Counter, now: nat): Sent
    requires c.key in cache
  {
    Sent(c, cache[c.key].Pending(now), cache[c.key].cell.ValueAt(now))
  }

  /** A flush does to each counter of its batch what flushing that counter alone would do. */
  lemma {:induction false} FlushedAt(db: Db, cache: Cache, batch: seq<Counter>, now: nat, i: nat)
    requires Distinct(batch) && i < |batch| && batch[i].key in cache && cache[batch[i].key].Pending(now) > 0
    ensures var c := batch[i];
            var reply := Reply(db, c, cache[c.key].Pending(now), now);
            && SameKey(UpdateScript(db, c, cache[c.key].Pending(now), now), FlushedDb(db, cache, batch, true, now), c.key)
            && c.key in FlushedCache(db, cache, batch, true, now)
            && FlushedCache(db, cache, batch, true, now)[c.key] ==
               Acked(cache[c.key].Taken(now), SentFor(cache, c, now), reply.0, reply.1, now)
  {
    var sent := SentAll(cache, batch, now);
    SentIsDistinct(cache, batch, now);
    var j := SentAt(cache, batch, now, i);
    BatchAt(db, Pairs(sent), now, j);
    ReplyIsOwn(db, Pairs(sent), now, j);
    TakenAt(cache, batch, now, i);
    AckedAt(TakenAll(cache, batch, now), sent, BatchReplies(db, Pairs(sent), now), now, j);
  }

  /**
   After a flush that reached Redis, every flushed counter reads the same in the
   cache and in Redis, with nothing pending: what Redis held before plus exactly
   the hits that were pending, provided the cache had not counted from more than
   Redis held. That proviso is exact.
   */
  lemma {:induction false} FlushReconcilesIff(db: Db, cache: Cache, batch: seq<Counter>, now: nat, i: nat)
    requires Distinct(batch) && i < |batch| && Flushable(db, cache, batch[i], now)
    ensures var k := batch[i].key;
            var db', cache' := FlushedDb(db, cache, batch, true, now), FlushedCache(db, cache, batch, true, now);
            && Get(db', k, now) == Get(db, k, now) + cache[k].Pending(now)
            && k in cache' && cache'[k].NoPendingWrites(now) && cache'[k].fromAuthority
            && (cache'[k].cell.ValueAt(now) == Get(db', k, now) <==> cache[k].initial <= Get(db, k, now))
  {
    AckedOwn(db, cache[batch[i].key], SentFor(cache, batch[i], now), now);
    FlushedAt(db, cache, batch, now, i);
  }

  lemma {:induction false} AckedOwn(db: Db, cached: Cached, sent: Sent, now: nat)
    requires Flushable(db, map[sent.c.key := cached], sent.c, now)
    requires sent.offset == cached.Pending(now) && sent.value == cached.cell.ValueAt(now)
    ensures var k, own := sent.c.key, UpdateScript(db, sent.c, sent.offset, now);
            var reply := Reply(db, sent.c, sent.offset, now);
            var after := Acked(cached.Taken(now), sent, reply.0, reply.1, now);
            && Get(own, k, now) == reply.0
            && after.NoPendingWrites(now) && after.fromAuthority
            && (after.cell.ValueAt(now) == reply.0 <==> cached.initial <= Get(db, k, now))
  {
  }

  /**
   A flush that does not reach Redis leaves Redis alone, and leaves a counter of the
   batch as it was exactly when the take did not start from zero.
   */
  lemma {:induction false} FailedFlushRestoresIff(db: Db, cache: Cache, batch: seq<Counter>, now: nat, i: nat)
    requires Distinct(batch) && i < |batch| && batch[i].key in cache
    requires InWindow(cache[batch[i].key], now) && cache[batch[i].key].Pending(now) > 0
    ensures var k, cache' := batch[i].key, FlushedCache(db, cache, batch, false, now);
            && FlushedDb(db, cache, batch, false, now) == db
            && k in cache' && cache'[k].cell == cache[k].cell
            && (cache'[k] == cache[k] <==> cache[k].initial > 0)
  {
    SentIsDistinct(cache, batch, now);
    var j := SentAt(cache, batch, now, i);
    TakenAt(cache, batch, now, i);
    RevertedAt(TakenAll(cache, batch, now), SentAll(cache, batch, now), j);
  }

  /** A flush touches no counter outside its batch, in the cache or in Redis. */
  lemma {:induction false} FlushLeavesOthers(db: Db, cache: Cache, batch: seq<Counter>, reachable: bool, now: nat, k: CounterKey)
    requires forall i :: 0 <= i < |batch| ==> batch[i].key != k
    ensures var db', cache' := FlushedDb(db, cache, batch, reachable, now), FlushedCache(db, cache, batch, reachable, now);
            && (k in db'.counters) == (k in db.counters) && (k in db.counters ==> db'.counters[k] == db.counters[k])
            && (k in cache') == (k in cache) && (k in cache ==> cache'[k] == cache[k])
  {
    var sent, taken := SentAll(cache, batch, now), TakenAll(cache, batch, now);
    forall j | 0 <= j < |sent|
      ensures sent[j].c.key != k
    {
      var i := SentComesFrom(cache, batch, now, j);
    }
    TakenElsewhere(cache, batch, now, k);
    AckedElsewhere(taken, sent, BatchReplies(db, Pairs(sent), now), now, k);
    RevertedElsewhere(taken, sent, k);
    BatchElsewhere(db, Pairs(sent), now, k);
  }

  // ---- The flush as the steps of an instance ----

  /** What a flush that reached Redis does to a counter is take, apply, acknowledge. */
  lemma {:induction false} FlushIsTakeApplyAck(
    db: Db, cache: Cache, batch: seq<Counter>, now: nat, i: nat, me: WriteBehind.Instance, until: nat, max: u64)
    requires Distinct(batch) && i < |batch| && Flushable(db, cache, batch[i], now)
    requires me.cached == cache[batch[i].key] && me.flight.Idle?
    requires Reply(db, batch[i], me.cached.Pending(now), now).1 == Some(until)
    ensures var k, redis := batch[i].key, Get(db, batch[i].key, now);
            var taken := WriteBehind.Moved(me, WriteBehind.Take(0, now), redis, max);
            var applied := WriteBehind.Moved(taken, WriteBehind.Apply(0), redis, max);
            var acked := WriteBehind.Moved(applied, WriteBehind.Ack(0, until), redis, max);
            && applied.flight.Applied? && applied.flight.total == Get(FlushedDb(db, cache, batch, true, now), k, now)
            && acked.flight.Idle? && k in FlushedCache(db, cache, batch, true, now)
            && acked.cached == FlushedCache(db, cache, batch, true, now)[k]
  {
    AckedOwn(db, cache[batch[i].key], SentFor(cache, batch[i], now), now);
    FlushedAt(db, cache, batch, now, i);
  }

  /** And what a failed one does is take, fail. */
  lemma {:induction false} FailedFlushIsTakeFail(
    db: Db, cache: Cache, batch: seq<Counter>, now: nat, i: nat, me: WriteBehind.Instance, redis: nat, max: u64)
    requires Distinct(batch) && i < |batch| && batch[i].key in cache && cache[batch[i].key].Pending(now) > 0
    requires me.cached == cache[batch[i].key] && me.flight.Idle?
    ensures var k := batch[i].key;
            var taken := WriteBehind.Moved(me, WriteBehind.Take(0, now), redis, max);
            var failed := WriteBehind.Moved(taken, WriteBehind.Fail(0), redis, max);
            && failed.flight.Idle? && k in FlushedCache(db, cache, batch, false, now)
            && failed.cached == FlushedCache(db, cache, batch, false, now)[k]
  {
    SentIsDistinct(cache, batch, now);
    var j := SentAt(cache, batch, now, i);
    TakenAt(cache, batch, now, i);
    RevertedAt(TakenAll(cache, batch, now), SentAll(cache, batch, now), j);
  }

  /** A call on one counter is the check step. */
  lemma {:induction false} CallIsTheCheckStep(cache: Cache, c: Counter, delta: u64, now: nat, me: WriteBehind.Instance, redis: nat)
    requires c.key in cache && me.cached == cache[c.key]
    ensures var moved := WriteBehind.Moved(me, WriteBehind.Check(0, delta, c.window, now), redis, c.maxValue);
            if Admits(cache, [c], delta, now)
            then
              && c.key in IncreasedAll(cache, [c], delta, now) && moved.cached == IncreasedAll(cache, [c], delta, now)[c.key]
              && moved.admitted == me.admitted + delta && moved.since == me.since + delta
            else moved == me
  {
    AdmitsIff(cache, [c], delta, now);
    assert [c][1..] == [] && [c][0] == c;
  }
}
