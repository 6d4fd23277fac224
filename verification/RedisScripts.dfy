/**
 The Lua scripts as atomic steps on a Redis key store: counter keys with an
 optional time to live, one hash of holds per counter, and a set of counter
 keys per limit. A key whose time is up does not exist.
 */
module RedisScripts {
  import opened Prelude
  import opened Counters
  import opened Reservations

  /** A counter key; `until` is when it expires, if it has a time to live. */
  datatype CounterEntry = CounterEntry(value: nat, until: Option<nat>)

  /** A reservation hash: one field per hold. */
  datatype HoldHash = HoldHash(holds: seq<Hold>, until: Option<nat>)

  datatype Db = Db(counters: map<CounterKey, CounterEntry>, hashes: map<CounterKey, HoldHash>, index: map<nat, set<CounterKey>>)

  predicate Running(until: Option<nat>, now: nat) {
    until.Some? ==> now < until.value
  }

  predicate Exists(db: Db, k: CounterKey, now: nat) {
    k in db.counters && Running(db.counters[k].until, now)
  }

  function Get(db: Db, k: CounterKey, now: nat): nat {
    if Exists(db, k, now) then db.counters[k].value else 0
  }

  /** Time left in milliseconds; a key without a time to live has none. */
  function Pttl(db: Db, k: CounterKey, now: nat): Option<nat> {
    if Exists(db, k, now) && db.counters[k].until.Some? then Some(db.counters[k].until.value - now) else None
  }

  function Fields(db: Db, k: CounterKey, now: nat): seq<Hold> {
    if k in db.hashes && Running(db.hashes[k].until, now) then db.hashes[k].holds else []
  }

  /** Both stores have the same counter key, or neither has it. */
  ghost predicate SameKey(db: Db, other: Db, k: CounterKey) {
    (k in db.counters) == (k in other.counters) && (k in db.counters ==> db.counters[k] == other.counters[k])
  }

  function IncrBy(db: Db, k: CounterKey, delta: nat, now: nat): Db {
    var until := if Exists(db, k, now) then db.counters[k].until else None;
    db.(counters := db.counters[k := CounterEntry(Get(db, k, now) + delta, until)])
  }

  /** `EXPIRE ... NX`: only a key without a time to live gets one. */
  function ExpireNx(db: Db, k: CounterKey, ttl: nat, now: nat): Db {
    if Exists(db, k, now) && db.counters[k].until.None?
    then db.(counters := db.counters[k := db.counters[k].(until := Some(now + ttl))]) else db
  }

  function SAdd(db: Db, k: CounterKey): Db {
    var members := if k.limit in db.index then db.index[k.limit] else {};
    db.(index := db.index[k.limit := members + {k}])
  }

  function SetEx(db: Db, k: CounterKey, value: nat, ttl: nat, now: nat): Db {
    db.(counters := db.counters[k := CounterEntry(value, Some(now + ttl))])
  }

  function HSet(db: Db, k: CounterKey, h: Hold, now: nat): Db {
    var until := if k in db.hashes && Running(db.hashes[k].until, now) then db.hashes[k].until else None;
    db.(hashes := db.hashes[k := HoldHash(Without(Fields(db, k, now), h.id) + [h], until)])
  }

  function HDel(db: Db, k: CounterKey, id: nat, now: nat): Db {
    if k in db.hashes && Running(db.hashes[k].until, now) then
      var left := Without(db.hashes[k].holds, id);
      if left == [] then db.(hashes := db.hashes - {k})
      else db.(hashes := db.hashes[k := db.hashes[k].(holds := left)])
    else db
  }

  function PExpire(db: Db, k: CounterKey, ttl: nat, now: nat): Db {
    if k in db.hashes && Running(db.hashes[k].until, now)
    then db.(hashes := db.hashes[k := db.hashes[k].(until := Some(now + ttl))]) else db
  }

  // ---- The update scripts ----

  function UpdateScript(db: Db, c: Counter, delta: nat, now: nat): Db {
    var after := IncrBy(db, c.key, delta, now);
    if after.counters[c.key].value == delta then SAdd(ExpireNx(after, c.key, c.window, now), c.key) else after
  }

  function BatchScript(db: Db, batch: seq<(Counter, nat)>, now: nat): Db {
    if batch == [] then db
    else
      var last := batch[|batch| - 1];
      UpdateScript(BatchScript(db, batch[..|batch| - 1], now), last.0, last.1, now)
  }

  /** The new value of a counter, and when its key expires. */
  function Reply(db: Db, c: Counter, delta: nat, now: nat): (nat, Option<nat>) {
    (Get(db, c.key, now) + delta, UpdateScript(db, c, delta, now).counters[c.key].until)
  }

  function BatchReplies(db: Db, batch: seq<(Counter, nat)>, now: nat): (replies: seq<(nat, Option<nat>)>)
    ensures |replies| == |batch|
  {
    if batch == [] then []
    else
      var front, last := batch[..|batch| - 1], batch[|batch| - 1];
      BatchReplies(db, front, now) + [Reply(BatchScript(db, front, now), last.0, last.1, now)]
  }

  // ---- The reserve script ----

  /** First loop: start the windows that are not there. */
  function Started(db: Db, c: Counter, now: nat): Db {
    if Exists(db, c.key, now) then db else SAdd(SetEx(db, c.key, 0, c.window, now), c.key)
  }

  function WindowTtl(db: Db, c: Counter, now: nat): nat {
    var ttl := Pttl(db, c.key, now);
    if ttl.Some? then ttl.value else c.window
  }

  /** Drop the expired fields of one hash. */
  function Pruned(db: Db, k: CounterKey, now: nat): Db {
    if k in db.hashes && Running(db.hashes[k].until, now) then
      var live := Live(db.hashes[k].holds, now);
      if live == [] then db.(hashes := db.hashes - {k})
      else db.(hashes := db.hashes[k := db.hashes[k].(holds := live)])
    else db
  }

  /** One turn of the first loop. */
  function VisitedOne(db: Db, c: Counter, now: nat): Db {
    Pruned(Started(db, c, now), c.key, now)
  }

  function Visited(db: Db, cs: seq<Counter>, now: nat): Db {
    if cs == [] then db else VisitedOne(Visited(db, cs[..|cs| - 1], now), cs[|cs| - 1], now)
  }

  function ScriptViews(db: Db, cs: seq<Counter>, now: nat): (views: seq<View>)
    ensures |views| == |cs|
  {
    seq(|cs|, i requires 0 <= i < |cs| => View(Get(db, cs[i].key, now), WindowTtl(db, cs[i], now)))
  }

  function HeldIn(db: Db, k: CounterKey, now: nat): nat {
    Total(Live(Fields(db, k, now), now))
  }

  ghost predicate ScriptAdmits(db: Db, cs: seq<Counter>, views: seq<View>, req: Request)
    requires |cs| == |views|
  {
    forall i :: 0 <= i < |cs| ==> views[i].value + HeldIn(db, cs[i].key, req.now) + req.checkAmount <= cs[i].maxValue
  }

  function Stored(db: Db, c: Counter, view: View, req: Request): Db {
    PExpire(HSet(db, c.key, NewHold(view, req), req.now), c.key, view.windowTtl, req.now)
  }

  function StoredAll(db: Db, cs: seq<Counter>, views: seq<View>, req: Request): Db
    requires |cs| == |views|
    decreases |cs|
  {
    if cs == [] then db
    else
      var n := |cs| - 1;
      Stored(StoredAll(db, cs[..n], views[..n], req), cs[n], views[n], req)
  }

  /** The store after one whole run of the reserve script. */
  ghost function ReserveScript(db: Db, cs: seq<Counter>, req: Request): Db {
    var seen := Visited(db, cs, req.now);
    var views := ScriptViews(seen, cs, req.now);
    if ScriptAdmits(seen, cs, views, req) && req.holdAmount > 0 then StoredAll(seen, cs, views, req) else seen
  }

  /** Releasing drops the hold's field from every listed hash. */
  function ReleaseCommands(db: Db, cs: seq<Counter>, id: nat, now: nat): Db {
    if cs == [] then db
    else HDel(ReleaseCommands(db, cs[..|cs| - 1], id, now), cs[|cs| - 1].key, id, now)
  }

  class RedisStore {
    var db: Db

    constructor ()
      ensures db == Db(map[], map[], map[])
    {
      db := Db(map[], map[], map[]);
    }

    method ScriptUpdateCounter(c: Counter, delta: nat, now: nat) returns (value: nat)
      modifies this
      ensures db == UpdateScript(old(db), c, delta, now)
      ensures value == Get(old(db), c.key, now) + delta
    {
      db := IncrBy(db, c.key, delta, now);
      value := db.counters[c.key].value;
      if value == delta {
        db := ExpireNx(db, c.key, c.window, now);
        db := SAdd(db, c.key);
      }
    }

    /** Returns, for each entry in turn, the new value and when its window ends. */
    method BatchUpdateCounters(batch: seq<(Counter, nat)>, now: nat) returns (res: seq<(nat, Option<nat>)>)
      modifies this
      ensures db == BatchScript(old(db), batch, now)
      ensures res == BatchReplies(old(db), batch, now)
    {
      ghost var start := db;
      res := [];
      for i := 0 to |batch|
        invariant db == BatchScript(start, batch[..i], now) && res == BatchReplies(start, batch[..i], now)
      {
        BatchSnoc(start, batch, now, i);
        var reply := UpdateAndRead(batch[i].0, batch[i].1, now);
        res := res + [reply];
      }
      assert batch[..|batch|] == batch;
    }

    method UpdateAndRead(c: Counter, delta: nat, now: nat) returns (reply: (nat, Option<nat>))
      modifies this
      ensures db == UpdateScript(old(db), c, delta, now) && reply == Reply(old(db), c, delta, now)
    {
      var value := ScriptUpdateCounter(c, delta, now);
      reply := (value, db.counters[c.key].until);
    }

    /** First loop of the reserve script: read, prune, and check each counter. */
    method VisitAll(cs: seq<Counter>, req: Request) returns (views: seq<View>, held: seq<nat>, admitted: bool)
      requires Distinct(cs)
      modifies this
      ensures db == Visited(old(db), cs, req.now)
      ensures views == ScriptViews(db, cs, req.now)
      ensures |held| == |cs| && forall i :: 0 <= i < |cs| ==> held[i] == HeldIn(db, cs[i].key, req.now)
      ensures admitted <==> ScriptAdmits(db, cs, views, req)
    {
      views, held, admitted := VisitLoop(cs, req);
      SeenResult(db, cs, views, held, req);
    }

    method VisitLoop(cs: seq<Counter>, req: Request) returns (views: seq<View>, held: seq<nat>, admitted: bool)
      requires Distinct(cs)
      modifies this
      ensures db == Visited(old(db), cs, req.now)
      ensures |views| == |held| == |cs| && AllSeen(db, cs, views, held, req.now)
      ensures admitted <==> RoomFor(cs, views, held, req)
    {
      ghost var start := db;
      views, held, admitted := [], [], true;
      for i := 0 to |cs|
        invariant db == Visited(start, cs[..i], req.now) && |views| == |held| == i
        invariant AllSeen(db, cs, views, held, req.now)
        invariant admitted <==> RoomFor(cs, views, held, req)
      {
        VisitedSnoc(start, cs, req.now, i);
        ghost var before := db;
        var view, sum := Visit(cs[i], req.now);
        SeenSnoc(before, cs, views, held, req.now, view, sum);
        RoomForSnoc(cs, views, held, req, view, sum);
        views, held := views + [view], held + [sum];
        admitted := admitted && view.value + sum + req.checkAmount <= cs[i].maxValue;
      }
      assert cs[..|cs|] == cs;
    }

    /** One turn of that loop. */
    method Visit(c: Counter, now: nat) returns (view: View, sum: nat)
      modifies this
      ensures db == VisitedOne(old(db), c, now)
      ensures SeenAt(db, c, view, sum, now)
    {
      VisitedCounter(db, c, now);
      db := Started(db, c, now);
      view := View(Get(db, c.key, now), WindowTtl(db, c, now));
      sum := Prune(c.key, now);
    }

    /** Sum the live fields of one hash, deleting the others. */
    method Prune(k: CounterKey, now: nat) returns (sum: nat)
      modifies this
      ensures db == Pruned(old(db), k, now)
      ensures sum == HeldIn(old(db), k, now)
    {
      var fields := Fields(db, k, now);
      var live: seq<Hold> := [];
      sum := 0;
      for j := 0 to |fields|
        invariant db == old(db) && live == Live(fields[..j], now) && sum == Total(live)
      {
        assert fields[..j + 1][..j] == fields[..j];
        if fields[j].LiveAt(now) {
          TotalSnoc(live, fields[j]);
          sum := sum + fields[j].amount;
          live := live + [fields[j]];
        }
      }
      assert fields[..|fields|] == fields;
      if k in db.hashes && Running(db.hashes[k].until, now) {
        assert live == Live(db.hashes[k].holds, now);
        if live == [] {
          db := db.(hashes := db.hashes - {k});
        } else {
          db := db.(hashes := db.hashes[k := db.hashes[k].(holds := live)]);
        }
      }
    }

    method ScriptReserve(cs: seq<Counter>, req: Request) returns (views: seq<View>, held: seq<nat>, admitted: bool)
      requires Distinct(cs)
      modifies this
      ensures db == ReserveScript(old(db), cs, req)
      ensures views == ScriptViews(Visited(old(db), cs, req.now), cs, req.now)
      ensures |held| == |cs| && forall i :: 0 <= i < |cs| ==> held[i] == HeldIn(Visited(old(db), cs, req.now), cs[i].key, req.now)
      ensures admitted <==> ScriptAdmits(Visited(old(db), cs, req.now), cs, views, req)
    {
      views, held, admitted := VisitAll(cs, req);
      if admitted && req.holdAmount > 0 {
        StoreAll(cs, views, req);
      }
    }

    /** Drop the hold's field from every listed hash; report whether any was there. */
    method ReleaseReservation(cs: seq<Counter>, id: nat, now: nat) returns (released: bool)
      modifies this
      ensures db == ReleaseCommands(old(db), cs, id, now)
      ensures released <==> exists i :: 0 <= i < |cs| && RemovedAt(old(db), cs, id, now, i)
    {
      ghost var start := db;
      released := false;
      for i := 0 to |cs|
        invariant db == ReleaseCommands(start, cs[..i], id, now)
        invariant released <==> exists j :: 0 <= j < i && RemovedAt(start, cs, id, now, j)
      {
        assert cs[..i + 1][..i] == cs[..i];
        var before := |Fields(db, cs[i].key, now)|;
        WithoutShorter(Fields(db, cs[i].key, now), id);
        if |Without(Fields(db, cs[i].key, now), id)| != before {
          released := true;
        }
        assert RemovedAt(start, cs, id, now, i) <==> |Without(Fields(db, cs[i].key, now), id)| != before;
        db := HDel(db, cs[i].key, id, now);
      }
      assert cs[..|cs|] == cs;
    }

    /** Second loop of the reserve script: one field per counter. */
    method StoreAll(cs: seq<Counter>, views: seq<View>, req: Request)
      requires |cs| == |views|
      modifies this
      ensures db == StoredAll(old(db), cs, views, req)
    {
      ghost var start := db;
      for i := 0 to |cs|
        invariant db == StoredAll(start, cs[..i], views[..i], req)
      {
        assert cs[..i + 1][..i] == cs[..i] && views[..i + 1][..i] == views[..i];
        Store(cs[i], views[i], req);
      }
      assert cs[..|cs|] == cs && views[..|cs|] == views;
    }

    method Store(c: Counter, view: View, req: Request)
      modifies this
      ensures db == Stored(old(db), c, view, req)
    {
      db := HSet(db, c.key, NewHold(view, req), req.now);
      db := PExpire(db, c.key, view.windowTtl, req.now);
    }
  }

  /** The command for the `i`th counter found a field to delete. */
  ghost predicate RemovedAt(db: Db, cs: seq<Counter>, id: nat, now: nat, i: nat)
    requires i < |cs|
  {
    Holds(Fields(ReleaseCommands(db, cs[..i], id, now), cs[i].key, now), id)
  }

  /** The reserve script sees a counter's value and the end of its key, or a whole window where the key has none. */
  lemma {:induction false} ScriptSeesTheKey(db: Db, cs: seq<Counter>, now: nat, i: nat)
    requires i < |cs|
    ensures var view, k := ScriptViews(db, cs, now)[i], cs[i].key;
            if Exists(db, k, now)
            then view.value == db.counters[k].value && Some(now + view.windowTtl) ==
                 if db.counters[k].until.Some? then db.counters[k].until else Some(now + cs[i].window)
            else view == View(0, cs[i].window)
  {
  }

  lemma {:induction false} ReleaseElsewhere(db: Db, cs: seq<Counter>, id: nat, now: nat, k: CounterKey)
    requires !Mentions(cs, k)
    ensures Fields(ReleaseCommands(db, cs, id, now), k, now) == Fields(db, k, now)
    decreases |cs|
  {
    if cs == [] {
    } else {
      ReleaseElsewhere(db, cs[..|cs| - 1], id, now, k);
    }
  }

  /** A command finds a field to delete exactly when the counter's hash had one before the release. */
  lemma {:induction false} RemovedIff(db: Db, cs: seq<Counter>, id: nat, now: nat, i: nat)
    requires Distinct(cs) && i < |cs|
    ensures RemovedAt(db, cs, id, now, i) <==> Holds(Fields(db, cs[i].key, now), id)
  {
    ReleaseElsewhere(db, cs[..i], id, now, cs[i].key);
  }

  lemma {:induction false} BatchSnoc(db: Db, batch: seq<(Counter, nat)>, now: nat, i: nat)
    requires i < |batch|
    ensures var before := BatchScript(db, batch[..i], now);
            && BatchScript(db, batch[..i + 1], now) == UpdateScript(before, batch[i].0, batch[i].1, now)
            && BatchReplies(db, batch[..i + 1], now) ==
               BatchReplies(db, batch[..i], now) + [Reply(before, batch[i].0, batch[i].1, now)]
  {
    assert batch[..i + 1][..i] == batch[..i];
  }

  ghost predicate SeenAt(db: Db, c: Counter, view: View, held: nat, now: nat) {
    view == View(Get(db, c.key, now), WindowTtl(db, c, now)) && held == HeldIn(db, c.key, now)
  }

  ghost predicate AllSeen(db: Db, cs: seq<Counter>, views: seq<View>, held: seq<nat>, now: nat) {
    && |views| == |held| <= |cs|
    && forall j :: 0 <= j < |views| ==> SeenAt(db, cs[j], views[j], held[j], now)
  }

  ghost predicate RoomFor(cs: seq<Counter>, views: seq<View>, held: seq<nat>, req: Request)
    requires |views| == |held| <= |cs|
  {
    forall j :: 0 <= j < |views| ==> views[j].value + held[j] + req.checkAmount <= cs[j].maxValue
  }

  lemma {:induction false} SeenResult(db: Db, cs: seq<Counter>, views: seq<View>, held: seq<nat>, req: Request)
    requires AllSeen(db, cs, views, held, req.now) && |views| == |cs|
    ensures views == ScriptViews(db, cs, req.now)
    ensures forall i :: 0 <= i < |cs| ==> held[i] == HeldIn(db, cs[i].key, req.now)
    ensures RoomFor(cs, views, held, req) <==> ScriptAdmits(db, cs, views, req)
  {
    forall j | 0 <= j < |cs|
      ensures views[j] == ScriptViews(db, cs, req.now)[j] && held[j] == HeldIn(db, cs[j].key, req.now)
    {
      assert SeenAt(db, cs[j], views[j], held[j], req.now);
    }
  }

  lemma {:induction false} RoomForSnoc(cs: seq<Counter>, views: seq<View>, held: seq<nat>, req: Request, view: View, sum: nat)
    requires |views| == |held| < |cs|
    ensures RoomFor(cs, views + [view], held + [sum], req) <==>
            RoomFor(cs, views, held, req) && view.value + sum + req.checkAmount <= cs[|views|].maxValue
  {
    var n := |views|;
    var vs, hs := views + [view], held + [sum];
    assert forall j :: 0 <= j < n ==> vs[j] == views[j] && hs[j] == held[j];
    assert vs[n] == view && hs[n] == sum;
  }

  lemma {:induction false} SeenSnoc(db: Db, cs: seq<Counter>, views: seq<View>, held: seq<nat>, now: nat, view: View, sum: nat)
    requires Distinct(cs) && AllSeen(db, cs, views, held, now) && |views| < |cs|
    requires SeenAt(VisitedOne(db, cs[|views|], now), cs[|views|], view, sum, now)
    ensures AllSeen(VisitedOne(db, cs[|views|], now), cs, views + [view], held + [sum], now)
  {
    var n := |views|;
    var r, vs, hs := VisitedOne(db, cs[n], now), views + [view], held + [sum];
    forall j | 0 <= j < n + 1
      ensures SeenAt(r, cs[j], vs[j], hs[j], now)
    {
      if j < n {
        assert SeenAt(db, cs[j], views[j], held[j], now);
        VisitElsewhere(db, cs[n], now, cs[j]);
      }
    }
  }

  lemma {:induction false} VisitedSnoc(db: Db, cs: seq<Counter>, now: nat, i: nat)
    requires i < |cs|
    ensures Visited(db, cs[..i + 1], now) == VisitedOne(Visited(db, cs[..i], now), cs[i], now)
  {
    assert cs[..i + 1][..i] == cs[..i];
  }

  lemma {:induction false} VisitElsewhere(db: Db, c: Counter, now: nat, other: Counter)
    requires c.key != other.key
    ensures var r := VisitedOne(db, c, now);
            && Get(r, other.key, now) == Get(db, other.key, now)
            && WindowTtl(r, other, now) == WindowTtl(db, other, now)
            && Fields(r, other.key, now) == Fields(db, other.key, now)
  {
  }

  lemma {:induction false} VisitedCounter(db: Db, c: Counter, now: nat)
    ensures var started := Started(db, c, now);
            var r := Pruned(started, c.key, now);
            && Get(r, c.key, now) == Get(started, c.key, now)
            && WindowTtl(r, c, now) == WindowTtl(started, c, now)
            && HeldIn(r, c.key, now) == HeldIn(started, c.key, now)
            && Live(Fields(r, c.key, now), now) == Live(Fields(db, c.key, now), now)
  {
    var fields := Fields(db, c.key, now);
    LiveLater(fields, now, now);
  }

  /**
   The end the batch script returns is the end of the key it leaves: that of a key that
   runs already, or a whole window from now for a new one.
   */
  lemma {:induction false} ReplyTellsTheEnd(db: Db, c: Counter, delta: nat, now: nat)
    ensures var reply, after := Reply(db, c, delta, now), UpdateScript(db, c, delta, now);
            && c.key in after.counters && after.counters[c.key] == CounterEntry(reply.0, reply.1)
            && reply.0 == Get(db, c.key, now) + delta
            && (Exists(db, c.key, now) && db.counters[c.key].until.Some? ==> reply.1 == db.counters[c.key].until)
            && (!Exists(db, c.key, now) ==> reply.1 == Some(now + c.window))
  {
  }
}
