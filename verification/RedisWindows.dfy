/**
 What every interleaving of the Redis scripts keeps: a counter key that exists
 has a time to live and is listed under its limit, and nothing moves the end of
 a window that is already running.
 */
module RedisWindows {
  import opened Prelude
  import opened Counters
  import opened Reservations
  import opened RedisScripts

  /** A script run by some client at some time. */
  datatype Script =
    | UpdateOne(c: Counter, delta: nat, now: nat)
    | UpdateBatch(batch: seq<(Counter, nat)>, now: nat)
    | ReserveMany(cs: seq<Counter>, req: Request)
    | ReleaseMany(cs: seq<Counter>, id: nat, now: nat)
  {
    function Time(): nat {
      match this
      case UpdateOne(_, _, now) => now
      case UpdateBatch(_, now) => now
      case ReserveMany(_, req) => req.now
      case ReleaseMany(_, _, now) => now
    }
  }

  ghost function AfterScript(db: Db, script: Script): Db {
    match script
    case UpdateOne(c, delta, now) => UpdateScript(db, c, delta, now)
    case UpdateBatch(batch, now) => BatchScript(db, batch, now)
    case ReserveMany(cs, req) => ReserveScript(db, cs, req)
    case ReleaseMany(cs, id, now) => ReleaseCommands(db, cs, id, now)
  }

  ghost function AfterScripts(db: Db, scripts: seq<Script>): Db
    decreases |scripts|
  {
    if scripts == [] then db else AfterScripts(AfterScript(db, scripts[0]), scripts[1..])
  }

  /** The server runs one script after another. */
  ghost predicate InOrder(scripts: seq<Script>, from: nat)
    decreases |scripts|
  {
    scripts == [] || (from <= scripts[0].Time() && InOrder(scripts[1..], scripts[0].Time()))
  }

  ghost predicate Listed(db: Db, k: CounterKey) {
    k.limit in db.index && k in db.index[k.limit]
  }

  /** Every counter key has a time to live and is in its limit's set. */
  ghost predicate Registered(db: Db) {
    forall k :: k in db.counters ==> db.counters[k].until.Some? && Listed(db, k)
  }

  /** Nothing that exists at `now` in `db` has its end moved, or vanishes, in `db'`. */
  ghost predicate EndsKept(db: Db, db': Db, now: nat) {
    forall k :: Exists(db, k, now) ==> k in db'.counters && db'.counters[k].until == db.counters[k].until
  }

  lemma {:induction false} UpdateKeeps(db: Db, c: Counter, delta: nat, now: nat)
    requires Registered(db)
    ensures Registered(UpdateScript(db, c, delta, now)) && EndsKept(db, UpdateScript(db, c, delta, now), now)
  {
  }

  lemma {:induction false} BatchKeeps(db: Db, batch: seq<(Counter, nat)>, now: nat)
    requires Registered(db)
    ensures Registered(BatchScript(db, batch, now)) && EndsKept(db, BatchScript(db, batch, now), now)
    decreases |batch|
  {
    if batch == [] {
    } else {
      var front, last := batch[..|batch| - 1], batch[|batch| - 1];
      BatchKeeps(db, front, now);
      var mid := BatchScript(db, front, now);
      UpdateKeeps(mid, last.0, last.1, now);
      EndsKeptTwice(db, mid, UpdateScript(mid, last.0, last.1, now), now, now);
    }
  }

  /** Ends kept up to `t` and from there on are ends kept. */
  lemma {:induction false} EndsKeptTwice(a: Db, b: Db, c: Db, now: nat, t: nat)
    requires EndsKept(a, b, now) && EndsKept(b, c, t) && now <= t
    ensures forall k :: Exists(a, k, now) && Running(a.counters[k].until, t) ==>
              k in c.counters && c.counters[k].until == a.counters[k].until
    ensures now == t ==> EndsKept(a, c, now)
  {
    forall k | Exists(a, k, now) && Running(a.counters[k].until, t)
      ensures k in c.counters && c.counters[k].until == a.counters[k].until
    {
      assert Exists(b, k, t);
    }
  }

  lemma {:induction false} VisitedKeeps(db: Db, cs: seq<Counter>, now: nat)
    requires Registered(db)
    ensures Registered(Visited(db, cs, now)) && EndsKept(db, Visited(db, cs, now), now)
    decreases |cs|
  {
    if cs == [] {
    } else {
      VisitedKeeps(db, cs[..|cs| - 1], now);
      var mid := Visited(db, cs[..|cs| - 1], now);
      var r := VisitedOne(mid, cs[|cs| - 1], now);
      assert Registered(r) && EndsKept(mid, r, now);
      EndsKeptTwice(db, mid, r, now, now);
    }
  }

  lemma {:induction false} StoredKeepsCounters(db: Db, cs: seq<Counter>, views: seq<View>, req: Request)
    requires |cs| == |views|
    ensures var r := StoredAll(db, cs, views, req);
            r.counters == db.counters && r.index == db.index
    decreases |cs|
  {
    if cs == [] {
    } else {
      StoredKeepsCounters(db, cs[..|cs| - 1], views[..|cs| - 1], req);
    }
  }

  lemma {:induction false} ReleaseKeepsCounters(db: Db, cs: seq<Counter>, id: nat, now: nat)
    ensures var r := ReleaseCommands(db, cs, id, now);
            r.counters == db.counters && r.index == db.index
    decreases |cs|
  {
    if cs == [] {
    } else {
      ReleaseKeepsCounters(db, cs[..|cs| - 1], id, now);
    }
  }

  lemma {:induction false} ScriptKeeps(db: Db, script: Script)
    requires Registered(db)
    ensures Registered(AfterScript(db, script)) && EndsKept(db, AfterScript(db, script), script.Time())
  {
    match script
    case UpdateOne(c, delta, now) => UpdateKeeps(db, c, delta, now);
    case UpdateBatch(batch, now) => BatchKeeps(db, batch, now);
    case ReserveMany(cs, req) =>
      var seen := Visited(db, cs, req.now);
      VisitedKeeps(db, cs, req.now);
      StoredKeepsCounters(seen, cs, ScriptViews(seen, cs, req.now), req);
    case ReleaseMany(cs, id, now) => ReleaseKeepsCounters(db, cs, id, now);
  }

  /**
   Over every interleaving of scripts from any clients: each counter key keeps a
   time to live and its place in its limit's set, and a window running at the
   start ends when it said it would, as seen by every script before that end.
   A key a reserve created at 0 is no exception.
   */
  lemma {:induction false} ScriptsNeverMoveARunningWindow(db: Db, scripts: seq<Script>, from: nat, k: CounterKey, t: nat)
    requires Registered(db) && InOrder(scripts, from) && Exists(db, k, from)
    requires forall i :: 0 <= i < |scripts| ==> scripts[i].Time() <= t
    requires Running(db.counters[k].until, t)
    ensures var r := AfterScripts(db, scripts);
            Registered(r) && k in r.counters && r.counters[k].until == db.counters[k].until
    decreases |scripts|
  {
    if scripts == [] {
    } else {
      var next := AfterScript(db, scripts[0]);
      ScriptKeeps(db, scripts[0]);
      assert Exists(db, k, scripts[0].Time());
      ScriptsNeverMoveARunningWindow(next, scripts[1..], scripts[0].Time(), k, t);
    }
  }

  // ---- Where windows start ----

  lemma {:induction false} BatchStarts(db: Db, batch: seq<(Counter, nat)>, now: nat, k: CounterKey) returns (j: nat)
    requires Registered(db) && !Exists(db, k, now) && Exists(BatchScript(db, batch, now), k, now)
    ensures j < |batch| && batch[j].0.key == k
    ensures BatchScript(db, batch, now).counters[k].until == Some(now + batch[j].0.window)
    decreases |batch|
  {
    var n := |batch| - 1;
    var mid := BatchScript(db, batch[..n], now);
    BatchKeeps(db, batch[..n], now);
    UpdateKeeps(mid, batch[n].0, batch[n].1, now);
    if Exists(mid, k, now) {
      j := BatchStarts(db, batch[..n], now, k);
    } else {
      j := n;
    }
  }

  lemma {:induction false} VisitedOneStarts(db: Db, c: Counter, now: nat, k: CounterKey)
    requires Registered(db)
    ensures var r := VisitedOne(db, c, now);
            && (Exists(db, k, now) ==> k in r.counters && r.counters[k].until == db.counters[k].until)
            && (!Exists(db, k, now) && Exists(r, k, now) ==> c.key == k && r.counters[k].until == Some(now + c.window))
  {
  }

  lemma {:induction false} VisitStarts(db: Db, cs: seq<Counter>, now: nat, k: CounterKey) returns (j: nat)
    requires Registered(db) && !Exists(db, k, now) && Exists(Visited(db, cs, now), k, now)
    ensures j < |cs| && cs[j].key == k && Visited(db, cs, now).counters[k].until == Some(now + cs[j].window)
    decreases |cs|
  {
    var n := |cs| - 1;
    var mid := Visited(db, cs[..n], now);
    VisitedKeeps(db, cs[..n], now);
    VisitedOneStarts(mid, cs[n], now, k);
    if Exists(mid, k, now) {
      j := VisitStarts(db, cs[..n], now, k);
    } else {
      j := n;
    }
  }

  /** The counters a script is given to count or to reserve on. */
  ghost predicate Given(script: Script, c: Counter) {
    match script
    case UpdateOne(d, _, _) => c == d
    case UpdateBatch(batch, _) => exists j :: 0 <= j < |batch| && batch[j].0 == c
    case ReserveMany(cs, _) => c in cs
    case ReleaseMany(_, _, _) => false
  }

  /** A key that a script brings into being runs for the whole window of a counter it was given. */
  lemma {:induction false} NewKeysRunAWholeWindow(db: Db, script: Script, k: CounterKey) returns (c: Counter)
    requires Registered(db) && !Exists(db, k, script.Time()) && Exists(AfterScript(db, script), k, script.Time())
    ensures Given(script, c) && c.key == k && AfterScript(db, script).counters[k].until == Some(script.Time() + c.window)
  {
    match script
    case UpdateOne(d, _, _) => c := d;
    case UpdateBatch(batch, now) =>
      var j := BatchStarts(db, batch, now, k);
      c := batch[j].0;
    case ReserveMany(cs, req) =>
      var seen := Visited(db, cs, req.now);
      StoredKeepsCounters(seen, cs, ScriptViews(seen, cs, req.now), req);
      var j := VisitStarts(db, cs, req.now, k);
      c := cs[j];
    case ReleaseMany(cs, id, now) =>
      ReleaseKeepsCounters(db, cs, id, now);
      assert false;
  }

  // ---- What windows count ----

  function BatchHits(batch: seq<(Counter, nat)>, k: CounterKey): nat {
    if batch == [] then 0
    else
      var last := batch[|batch| - 1];
      BatchHits(batch[..|batch| - 1], k) + if last.0.key == k then last.1 else 0
  }

  /** The hits a script brings a counter. */
  function HitsOf(script: Script, k: CounterKey): nat {
    match script
    case UpdateOne(c, delta, _) => if c.key == k then delta else 0
    case UpdateBatch(batch, _) => BatchHits(batch, k)
    case ReserveMany(_, _) => 0
    case ReleaseMany(_, _, _) => 0
  }

  function HitsOfAll(scripts: seq<Script>, k: CounterKey): nat
    decreases |scripts|
  {
    if scripts == [] then 0 else HitsOf(scripts[0], k) + HitsOfAll(scripts[1..], k)
  }

  lemma {:induction false} BatchCounts(db: Db, batch: seq<(Counter, nat)>, now: nat, k: CounterKey)
    requires Registered(db) && Exists(db, k, now)
    ensures Exists(BatchScript(db, batch, now), k, now)
    ensures BatchScript(db, batch, now).counters[k].value == db.counters[k].value + BatchHits(batch, k)
    decreases |batch|
  {
    BatchKeeps(db, batch, now);
    if batch == [] {
    } else {
      BatchCounts(db, batch[..|batch| - 1], now, k);
    }
  }

  lemma {:induction false} VisitedValue(db: Db, cs: seq<Counter>, now: nat, k: CounterKey)
    requires Exists(db, k, now)
    ensures k in Visited(db, cs, now).counters && Visited(db, cs, now).counters[k] == db.counters[k]
    decreases |cs|
  {
    if cs == [] {
    } else {
      VisitedValue(db, cs[..|cs| - 1], now, k);
    }
  }

  lemma {:induction false} ScriptCounts(db: Db, script: Script, k: CounterKey)
    requires Registered(db) && Exists(db, k, script.Time())
    ensures k in AfterScript(db, script).counters
    ensures AfterScript(db, script).counters[k].value == db.counters[k].value + HitsOf(script, k)
  {
    match script
    case UpdateOne(c, delta, now) =>
    case UpdateBatch(batch, now) => BatchCounts(db, batch, now, k);
    case ReserveMany(cs, req) =>
      var seen := Visited(db, cs, req.now);
      VisitedValue(db, cs, req.now, k);
      StoredKeepsCounters(seen, cs, ScriptViews(seen, cs, req.now), req);
    case ReleaseMany(cs, id, now) => ReleaseKeepsCounters(db, cs, id, now);
  }

  /** Over every interleaving of scripts within a running window, the counter counts every hit once, and nothing else. */
  lemma {:induction false} ScriptsCountEveryHit(db: Db, scripts: seq<Script>, from: nat, k: CounterKey, t: nat)
    requires Registered(db) && InOrder(scripts, from) && Exists(db, k, from)
    requires forall i :: 0 <= i < |scripts| ==> scripts[i].Time() <= t
    requires Running(db.counters[k].until, t)
    ensures var r := AfterScripts(db, scripts);
            k in r.counters && r.counters[k].value == db.counters[k].value + HitsOfAll(scripts, k)
    decreases |scripts|
  {
    if scripts == [] {
    } else {
      ScriptKeeps(db, scripts[0]);
      assert Exists(db, k, scripts[0].Time());
      ScriptCounts(db, scripts[0], k);
      ScriptsCountEveryHit(AfterScript(db, scripts[0]), scripts[1..], scripts[0].Time(), k, t);
    }
  }
}
