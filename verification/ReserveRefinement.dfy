/**
 The in-process storage and the Redis scripts answer alike: over any sequence
 of reserves, updates, releases and clock ticks, run on both, every reserve is
 admitted or denied alike, reports the same remaining capacity and the same
 window, and leaves the same live holds with the same expiries.
 */
module ReserveRefinement {
  import opened Prelude
  import opened Counters
  import opened InMemory
  import opened Reservations
  import opened HoldRetention
  import opened ReservingStorage
  import opened ReserveMachine
  import opened RedisScripts
  import opened RedisWindows

  /** What the caller of a reserve learns. */
  datatype Answer = Answer(admitted: bool, limitName: Option<string>, counters: seq<Counter>)

  /** The name of the first counter without room; `room[i]` says whether counter `i` has it. */
  function NameOfFirst(cs: seq<Counter>, room: seq<bool>): Option<string>
    requires |cs| == |room|
    decreases |cs|
  {
    if cs == [] then None else if !room[0] then cs[0].name else NameOfFirst(cs[1..], room[1..])
  }

  ghost function LocalRoom(reg: Registry, cs: seq<Counter>, views: seq<View>, req: Request): (room: seq<bool>)
    requires |cs| == |views|
    ensures |room| == |cs|
  {
    seq(|cs|, i requires 0 <= i < |cs| => Fits(reg, cs[i], views[i], req))
  }

  ghost function RedisRoom(seen: Db, cs: seq<Counter>, views: seq<View>, req: Request): (room: seq<bool>)
    requires |cs| == |views|
    ensures |room| == |cs|
  {
    seq(|cs|, i requires 0 <= i < |cs| =>
      views[i].value + HeldIn(seen, cs[i].key, req.now) + req.checkAmount <= cs[i].maxValue)
  }

  /** The name a denied reserve carries is the one the registry's own contract speaks of. */
  lemma {:induction false} NameOfFirstMisfit(cs: seq<Counter>, room: seq<bool>, i: nat)
    requires |cs| == |room| && i < |cs| && !room[i] && forall j :: 0 <= j < i ==> room[j]
    ensures NameOfFirst(cs, room) == cs[i].name
    decreases |cs|
  {
    if i == 0 {
    } else {
      NameOfFirstMisfit(cs[1..], room[1..], i - 1);
    }
  }

  /** A counter as the script's caller reports it. */
  function ScriptShown(c: Counter, view: View, held: nat, req: Request, admitted: bool): Counter {
    c.(remaining := Some(SaturatingSub(c.maxValue, view.value + held + Granted(admitted, req))),
       expiresIn := Some(view.windowTtl))
  }

  function LocalShown(reg: Registry, cs: seq<Counter>, views: seq<View>, req: Request, admitted: bool): seq<Counter>
    requires |cs| == |views|
  {
    seq(|cs|, i requires 0 <= i < |cs| => Shown(reg, cs[i], views[i], req, admitted))
  }

  function RedisShown(seen: Db, cs: seq<Counter>, views: seq<View>, req: Request, admitted: bool): seq<Counter>
    requires |cs| == |views|
  {
    seq(|cs|, i requires 0 <= i < |cs| => ScriptShown(cs[i], views[i], HeldIn(seen, cs[i].key, req.now), req, admitted))
  }

  ghost function LocalAnswer(s: State, cs: seq<Counter>, req: Request): Answer {
    var views := ViewsOf(UpdatedAll(s.cells, cs, 0, s.now), cs, s.now);
    var admitted := FitsAll(s.reg, cs, views, req);
    Answer(admitted, NameOfFirst(cs, LocalRoom(s.reg, cs, views, req)), LocalShown(s.reg, cs, views, req, admitted))
  }

  ghost function RedisAnswer(db: Db, cs: seq<Counter>, req: Request): Answer {
    var seen := Visited(db, cs, req.now);
    var views := ScriptViews(seen, cs, req.now);
    var admitted := ScriptAdmits(seen, cs, views, req);
    Answer(admitted, NameOfFirst(cs, RedisRoom(seen, cs, views, req)), RedisShown(seen, cs, views, req, admitted))
  }

  ghost function RedisAfter(db: Db, op: Op, now: nat): Db {
    match op
    case Tick(_) => db
    case Reserve(cs, req) => ReserveScript(db, cs, req)
    case Update(c, _, actual) => UpdateScript(db, c, actual, now)
    case Release(cs, held) => ReleaseCommands(db, cs, held, now)
  }

  /** Fresh ids, distinct counters, a clock that never goes back, values that fit 64 bits. */
  ghost predicate Allowed(s: State, op: Op) {
    && Timely(s, op)
    && (op.Reserve? ==> op.req.id !in s.used)
    && (op.Update? ==> Value(s, op.c.key) + op.actual < U64)
  }

  ghost predicate AllowedAll(s: State, ops: seq<Op>)
    decreases |ops|
  {
    ops == [] || (Allowed(s, ops[0]) && AllowedAll(After(s, ops[0]), ops[1..]))
  }

  ghost function LocalAnswers(s: State, ops: seq<Op>): seq<Answer>
    decreases |ops|
  {
    if ops == [] then []
    else (if ops[0].Reserve? then [LocalAnswer(s, ops[0].cs, ops[0].req)] else []) + LocalAnswers(After(s, ops[0]), ops[1..])
  }

  ghost function RedisAnswers(db: Db, now: nat, ops: seq<Op>): seq<Answer>
    decreases |ops|
  {
    if ops == [] then []
    else
      (if ops[0].Reserve? then [RedisAnswer(db, ops[0].cs, ops[0].req)] else [])
      + RedisAnswers(RedisAfter(db, ops[0], now), if ops[0].Tick? then ops[0].until else now, ops[1..])
  }

  // ---- The relation between the two stores ----

  /** Both see the same running window, or none. */
  ghost predicate SameWindow(cells: Cells, db: Db, k: CounterKey, now: nat) {
    if k in cells && !cells[k].ExpiredAt(now)
    then k in db.counters && db.counters[k] == CounterEntry(cells[k].value, Some(cells[k].expiry))
    else !Exists(db, k, now)
  }

  ghost predicate SameHolds(s: State, db: Db, k: CounterKey) {
    Held(s, k) == Live(Fields(db, k, s.now), s.now)
  }

  /** A hash never outlives, nor dies before, the holds in it, and stores no unknown id. */
  ghost predicate HashesSound(db: Db, used: set<nat>) {
    forall k :: k in db.hashes ==>
      && db.hashes[k].until.Some? && Within(db.hashes[k].holds, db.hashes[k].until.value)
      && Ids(db.hashes[k].holds) <= used
  }

  ghost predicate Related(s: State, db: Db) {
    && Shape(s) && HashesSound(db, s.used)
    && (forall k :: SameWindow(s.cells, db, k, s.now))
    && (forall k :: SameHolds(s, db, k))
  }

  lemma {:induction false} TickRelated(s: State, db: Db, until: nat)
    requires Related(s, db) && s.now <= until
    ensures Related(After(s, Tick(until)), db)
  {
    var s' := After(s, Tick(until));
    ShapeStep(s, Tick(until));
    forall k
      ensures SameWindow(s'.cells, db, k, until)
    {
      assert SameWindow(s.cells, db, k, s.now);
    }
    forall k
      ensures SameHolds(s', db, k)
    {
      assert SameHolds(s, db, k);
      TickHeld(s, until, k);
      if k in db.hashes {
        var hash := db.hashes[k];
        LiveLater(hash.holds, s.now, until);
        LiveWithin(hash.holds, hash.until.value, s.now);
        LiveWithin(hash.holds, hash.until.value, until);
      }
    }
  }

  /** Hitting a counter on both sides, seen from that counter and from any other. */
  lemma {:induction false} UpdateWindow(s: State, db: Db, c: Counter, actual: u64, k: CounterKey)
    requires SameWindow(s.cells, db, c.key, s.now) && SameWindow(s.cells, db, k, s.now)
    requires Value(s, c.key) + actual < U64
    ensures SameWindow(Updated(s.cells, c, actual, s.now), UpdateScript(db, c, actual, s.now), k, s.now)
  {
  }

  lemma {:induction false} UpdateRelated(s: State, db: Db, c: Counter, id: Option<nat>, actual: u64)
    requires Related(s, db) && Allowed(s, Update(c, id, actual))
    ensures Related(After(s, Update(c, id, actual)), UpdateScript(db, c, actual, s.now))
  {
    var s', db' := After(s, Update(c, id, actual)), UpdateScript(db, c, actual, s.now);
    assert Shape(s') by { ShapeStep(s, Update(c, id, actual)); }
    assert db'.hashes == db.hashes;
    forall k
      ensures SameWindow(s'.cells, db', k, s.now)
    {
      UpdateWindow(s, db, c, actual, k);
    }
    forall k
      ensures SameHolds(s', db', k)
    {
      assert SameHolds(s, db, k);
    }
  }

  lemma {:induction false} HDelKeepsSound(db: Db, k: CounterKey, id: nat, now: nat, used: set<nat>)
    requires HashesSound(db, used)
    ensures HashesSound(HDel(db, k, id, now), used)
  {
    if k in db.hashes {
      WithoutWithin(db.hashes[k].holds, id, db.hashes[k].until.value);
      WithoutIds(db.hashes[k].holds, id);
    }
  }

  lemma {:induction false} ReleasedFields(db: Db, cs: seq<Counter>, id: nat, now: nat, used: set<nat>)
    requires HashesSound(db, used)
    ensures HashesSound(ReleaseCommands(db, cs, id, now), used)
    ensures ReleaseCommands(db, cs, id, now).counters == db.counters
    decreases |cs|
  {
    if cs == [] {
    } else {
      var n := |cs| - 1;
      ReleasedFields(db, cs[..n], id, now, used);
      HDelKeepsSound(ReleaseCommands(db, cs[..n], id, now), cs[n].key, id, now, used);
    }
  }

  lemma {:induction false} WithoutIds(holds: seq<Hold>, id: nat)
    ensures Ids(Without(holds, id)) <= Ids(holds)
    decreases |holds|
  {
    if holds == [] {
    } else {
      var front, last := holds[..|holds| - 1], holds[|holds| - 1];
      WithoutIds(front, id);
      if last.id != id {
        IdsSnoc(Without(front, id), last);
      } else {
        assert Without(holds, id) == Without(front, id);
      }
    }
  }

  lemma {:induction false} IdsSnoc(holds: seq<Hold>, h: Hold)
    ensures Ids(holds + [h]) == Ids(holds) + {h.id}
  {
    assert (holds + [h])[..|holds|] == holds;
  }

  lemma {:induction false} LiveIds(holds: seq<Hold>, now: nat)
    ensures Ids(Live(holds, now)) <= Ids(holds)
    decreases |holds|
  {
    if holds == [] {
    } else {
      var front, last := holds[..|holds| - 1], holds[|holds| - 1];
      LiveIds(front, now);
      if last.LiveAt(now) {
        IdsSnoc(Live(front, now), last);
      } else {
        assert Live(holds, now) == Live(front, now);
      }
    }
  }

  /** An id no hold carries is not there to remove. */
  lemma {:induction false} WithoutUnknown(holds: seq<Hold>, id: nat)
    requires id !in Ids(holds)
    ensures Without(holds, id) == holds
    decreases |holds|
  {
    if holds == [] {
    } else {
      WithoutUnknown(holds[..|holds| - 1], id);
    }
  }

  lemma {:induction false} ReleasedHashLive(db: Db, cs: seq<Counter>, id: nat, now: nat, k: CounterKey)
    ensures var r := ReleaseCommands(db, cs, id, now);
            Live(Fields(r, k, now), now) ==
            if Mentions(cs, k) then Without(Live(Fields(db, k, now), now), id) else Live(Fields(db, k, now), now)
    decreases |cs|
  {
    if cs == [] {
    } else {
      var front, last := cs[..|cs| - 1], cs[|cs| - 1].key;
      ReleasedHashLive(db, front, id, now, k);
      MentionsSnoc(cs, k);
      var mid := ReleaseCommands(db, front, id, now);
      var live := Live(Fields(db, k, now), now);
      if last == k {
        assert Fields(HDel(mid, k, id, now), k, now) == Without(Fields(mid, k, now), id);
        LiveWithout(Fields(mid, k, now), id, now);
        WithoutTwice(live, id);
        WithoutShorter(Without(live, id), id);
      } else {
        assert Fields(HDel(mid, last, id, now), k, now) == Fields(mid, k, now);
      }
    }
  }

  lemma {:induction false} ReleaseRelated(s: State, db: Db, cs: seq<Counter>, held: nat)
    requires Related(s, db)
    ensures Related(After(s, Release(cs, held)), ReleaseCommands(db, cs, held, s.now))
  {
    var s', db' := After(s, Release(cs, held)), ReleaseCommands(db, cs, held, s.now);
    ShapeStep(s, Release(cs, held));
    ReleasedFields(db, cs, held, s.now, s.used);
    forall k
      ensures SameWindow(s'.cells, db', k, s.now) && SameHolds(s', db', k)
    {
      assert SameWindow(s.cells, db, k, s.now) && SameHolds(s, db, k);
      ReleasedLive(s.reg, cs, held, s.now, k, s.now);
      ReleasedHashLive(db, cs, held, s.now, k);
    }
  }

  // ---- The reserve script against touch and locked admission ----

  /** The first loop drops no live field. */
  lemma {:induction false} VisitedHolds(db: Db, cs: seq<Counter>, now: nat, k: CounterKey)
    ensures Live(Fields(Visited(db, cs, now), k, now), now) == Live(Fields(db, k, now), now)
    decreases |cs|
  {
    if cs == [] {
    } else {
      var last := cs[|cs| - 1];
      VisitedHolds(db, cs[..|cs| - 1], now, k);
      var mid := Visited(db, cs[..|cs| - 1], now);
      if last.key == k {
        VisitedCounter(mid, last, now);
      } else {
        VisitElsewhere(mid, last, now, last.(key := k));
      }
    }
  }

  /** The first loop leaves running counters, and counters it does not list, alone. */
  lemma {:induction false} VisitedSame(db: Db, cs: seq<Counter>, now: nat, k: CounterKey)
    requires Exists(db, k, now) || forall i :: 0 <= i < |cs| ==> cs[i].key != k
    ensures SameKey(Visited(db, cs, now), db, k)
    decreases |cs|
  {
    if cs == [] {
    } else {
      VisitedSame(db, cs[..|cs| - 1], now, k);
    }
  }

  ghost predicate StartedAt(db: Db, c: Counter, now: nat) {
    c.key in db.counters && db.counters[c.key] == CounterEntry(0, Some(now + c.window))
  }

  lemma {:induction false} VisitStartsOne(db: Db, c: Counter, now: nat)
    requires !Exists(db, c.key, now)
    ensures StartedAt(VisitedOne(db, c, now), c, now)
  {
  }

  lemma {:induction false} VisitStartsOthers(db: Db, c: Counter, now: nat, other: Counter)
    requires c.key != other.key && StartedAt(db, other, now)
    ensures StartedAt(VisitedOne(db, c, now), other, now)
  {
  }

  /** The first loop starts the window of a listed counter that has none. */
  lemma {:induction false} VisitedStarts(db: Db, cs: seq<Counter>, now: nat, i: nat)
    requires Distinct(cs) && i < |cs| && !Exists(db, cs[i].key, now)
    ensures StartedAt(Visited(db, cs, now), cs[i], now)
    decreases |cs|
  {
    var n := |cs| - 1;
    var front, mid := cs[..n], Visited(db, cs[..n], now);
    if i == n {
      VisitedSame(db, front, now, cs[n].key);
      VisitStartsOne(mid, cs[n], now);
    } else {
      VisitedStarts(db, front, now, i);
      VisitStartsOthers(mid, cs[n], now, cs[i]);
    }
  }

  /** Touching locally and starting the window in Redis show the same value and the same time left. */
  lemma {:induction false} SameViews(s: State, db: Db, cs: seq<Counter>)
    requires Related(s, db) && Distinct(cs)
    ensures ViewsOf(UpdatedAll(s.cells, cs, 0, s.now), cs, s.now) == ScriptViews(Visited(db, cs, s.now), cs, s.now)
  {
    var cells, seen := UpdatedAll(s.cells, cs, 0, s.now), Visited(db, cs, s.now);
    forall i | 0 <= i < |cs|
      ensures ViewsOf(cells, cs, s.now)[i] == ScriptViews(seen, cs, s.now)[i]
    {
      var k := cs[i].key;
      UpdatedAllAt(s.cells, cs, 0, s.now, i);
      assert SameWindow(s.cells, db, k, s.now);
      if Exists(db, k, s.now) {
        VisitedSame(db, cs, s.now, k);
      } else {
        VisitedStarts(db, cs, s.now, i);
      }
    }
  }

  lemma {:induction false} SameOutstanding(s: State, db: Db, cs: seq<Counter>, k: CounterKey)
    requires Related(s, db) && Distinct(cs)
    ensures Outstanding(s.reg, k, s.now) == HeldIn(Visited(db, cs, s.now), k, s.now)
  {
    assert SameHolds(s, db, k);
    VisitedHolds(db, cs, s.now, k);
  }

  lemma {:induction false} SameAdmission(s: State, db: Db, cs: seq<Counter>, views: seq<View>, req: Request)
    requires Related(s, db) && Allowed(s, Reserve(cs, req)) && |views| == |cs|
    ensures LocalRoom(s.reg, cs, views, req) == RedisRoom(Visited(db, cs, s.now), cs, views, req)
    ensures FitsAll(s.reg, cs, views, req) <==> ScriptAdmits(Visited(db, cs, s.now), cs, views, req)
  {
    var seen := Visited(db, cs, s.now);
    forall i | 0 <= i < |cs|
      ensures Fits(s.reg, cs[i], views[i], req) <==>
              views[i].value + HeldIn(seen, cs[i].key, req.now) + req.checkAmount <= cs[i].maxValue
    {
      SameOutstanding(s, db, cs, cs[i].key);
    }
  }

  lemma {:induction false} ShownAlike(reg: Registry, seen: Db, cs: seq<Counter>, views: seq<View>, req: Request, admitted: bool)
    requires |views| == |cs|
    requires forall i :: 0 <= i < |cs| ==> Outstanding(reg, cs[i].key, req.now) == HeldIn(seen, cs[i].key, req.now)
    ensures LocalShown(reg, cs, views, req, admitted) == RedisShown(seen, cs, views, req, admitted)
  {
    var local, script := LocalShown(reg, cs, views, req, admitted), RedisShown(seen, cs, views, req, admitted);
    forall i | 0 <= i < |cs|
      ensures local[i] == script[i]
    {
      assert Outstanding(reg, cs[i].key, req.now) == HeldIn(seen, cs[i].key, req.now);
    }
  }

  lemma {:induction false} SameShown(s: State, db: Db, cs: seq<Counter>, views: seq<View>, req: Request, admitted: bool)
    requires Related(s, db) && Allowed(s, Reserve(cs, req)) && |views| == |cs|
    ensures LocalShown(s.reg, cs, views, req, admitted) == RedisShown(Visited(db, cs, s.now), cs, views, req, admitted)
  {
    var seen := Visited(db, cs, s.now);
    forall i | 0 <= i < |cs|
      ensures Outstanding(s.reg, cs[i].key, s.now) == HeldIn(seen, cs[i].key, s.now)
    {
      SameOutstanding(s, db, cs, cs[i].key);
    }
    ShownAlike(s.reg, seen, cs, views, req, admitted);
  }

  lemma {:induction false} SameAnswer(s: State, db: Db, cs: seq<Counter>, req: Request)
    requires Related(s, db) && Allowed(s, Reserve(cs, req))
    ensures LocalAnswer(s, cs, req) == RedisAnswer(db, cs, req)
  {
    var views := ViewsOf(UpdatedAll(s.cells, cs, 0, s.now), cs, s.now);
    SameViews(s, db, cs);
    SameAdmission(s, db, cs, views, req);
    SameShown(s, db, cs, views, req, FitsAll(s.reg, cs, views, req));
  }

  lemma {:induction false} VisitKeepsSound(db: Db, c: Counter, now: nat, used: set<nat>)
    requires HashesSound(db, used)
    ensures HashesSound(VisitedOne(db, c, now), used)
  {
    if c.key in db.hashes {
      LiveWithin(db.hashes[c.key].holds, db.hashes[c.key].until.value, now);
      LiveIds(db.hashes[c.key].holds, now);
    }
  }

  lemma {:induction false} VisitedSound(db: Db, cs: seq<Counter>, now: nat, used: set<nat>)
    requires HashesSound(db, used)
    ensures HashesSound(Visited(db, cs, now), used)
    decreases |cs|
  {
    if cs == [] {
    } else {
      VisitedSound(db, cs[..|cs| - 1], now, used);
      VisitKeepsSound(Visited(db, cs[..|cs| - 1], now), cs[|cs| - 1], now, used);
    }
  }

  /** Storing holds touches neither the counters nor the hashes of other counters. */
  lemma {:induction false} StoredElsewhere(db: Db, cs: seq<Counter>, views: seq<View>, req: Request, k: CounterKey)
    requires |cs| == |views| && forall i :: 0 <= i < |cs| ==> cs[i].key != k
    ensures var r := StoredAll(db, cs, views, req);
            && r.counters == db.counters
            && (k in r.hashes) == (k in db.hashes) && (k in db.hashes ==> r.hashes[k] == db.hashes[k])
    decreases |cs|
  {
    if cs == [] {
    } else {
      StoredElsewhere(db, cs[..|cs| - 1], views[..|cs| - 1], req, k);
    }
  }

  ghost predicate HashIs(db: Db, k: CounterKey, holds: seq<Hold>, until: nat) {
    k in db.hashes && db.hashes[k] == HoldHash(holds, Some(until))
  }

  lemma {:induction false} StoreOwn(db: Db, c: Counter, view: View, req: Request)
    requires req.id !in Ids(Fields(db, c.key, req.now))
    ensures HashIs(Stored(db, c, view, req), c.key,
                   Fields(db, c.key, req.now) + [NewHold(view, req)], req.now + view.windowTtl)
  {
    WithoutUnknown(Fields(db, c.key, req.now), req.id);
  }

  lemma {:induction false} StoreOther(db: Db, c: Counter, view: View, req: Request, k: CounterKey, holds: seq<Hold>, until: nat)
    requires c.key != k && HashIs(db, k, holds, until)
    ensures HashIs(Stored(db, c, view, req), k, holds, until)
  {
  }

  /** A listed counter's hash gains the hold at the end and lasts as long as the window. */
  lemma {:induction false} StoredAt(db: Db, cs: seq<Counter>, views: seq<View>, req: Request, i: nat)
    requires |cs| == |views| && Distinct(cs) && i < |cs|
    requires req.id !in Ids(Fields(db, cs[i].key, req.now))
    ensures HashIs(StoredAll(db, cs, views, req), cs[i].key,
                   Fields(db, cs[i].key, req.now) + [NewHold(views[i], req)], req.now + views[i].windowTtl)
    decreases |cs|
  {
    var n := |cs| - 1;
    var mid := StoredAll(db, cs[..n], views[..n], req);
    if i == n {
      StoredElsewhere(db, cs[..n], views[..n], req, cs[n].key);
      assert Fields(mid, cs[n].key, req.now) == Fields(db, cs[n].key, req.now);
      StoreOwn(mid, cs[n], views[n], req);
    } else {
      StoredAt(db, cs[..n], views[..n], req, i);
      StoreOther(mid, cs[n], views[n], req, cs[i].key,
                 Fields(db, cs[i].key, req.now) + [NewHold(views[i], req)], req.now + views[i].windowTtl);
    }
  }

  /** What a hash just stored serves. */
  lemma {:induction false} StoredServes(db: Db, k: CounterKey, fields: seq<Hold>, h: Hold, until: nat, now: nat)
    requires HashIs(db, k, fields + [h], until)
    ensures Live(Fields(db, k, now), now) ==
            if until <= now then [] else Live(fields, now) + if h.LiveAt(now) then [h] else []
  {
    LiveSnoc(fields, h, now);
  }

  lemma {:induction false} RedisPlaces(s: State, db: Db, cs: seq<Counter>, views: seq<View>, req: Request, i: nat)
    requires Related(s, db) && Allowed(s, Reserve(cs, req)) && i < |cs| == |views|
    ensures var k, h := cs[i].key, NewHold(views[i], req);
            Live(Fields(StoredAll(Visited(db, cs, s.now), cs, views, req), k, s.now), s.now) ==
            if views[i].windowTtl == 0 then [] else Held(s, k) + if h.LiveAt(s.now) then [h] else []
  {
    var seen, k := Visited(db, cs, s.now), cs[i].key;
    var fields := Fields(seen, k, s.now);
    assert req.id !in Ids(fields) by { VisitedSound(db, cs, s.now, s.used); }
    StoredAt(seen, cs, views, req, i);
    assert Held(s, k) == Live(fields, s.now) by {
      assert SameHolds(s, db, k);
      VisitedHolds(db, cs, s.now, k);
    }
    StoredServes(StoredAll(seen, cs, views, req), k, fields, NewHold(views[i], req), s.now + views[i].windowTtl, s.now);
  }

  lemma {:induction false} LocalPlaces(s: State, cs: seq<Counter>, req: Request, i: nat)
    requires Shape(s) && Timely(s, Reserve(cs, req)) && i < |cs|
    ensures var views := ViewsOf(UpdatedAll(s.cells, cs, 0, s.now), cs, s.now);
            var k, h := cs[i].key, NewHold(views[i], req);
            LiveHolds(PlacedAll(s.reg, cs, views, req), k, s.now) ==
            if views[i].windowTtl == 0 then [] else Held(s, k) + if h.LiveAt(s.now) then [h] else []
  {
    var views, k := ViewsOf(UpdatedAll(s.cells, cs, 0, s.now), cs, s.now), cs[i].key;
    assert WindowsCover(s.reg, cs, views, req) by { TouchedWindowsCover(s, cs, req); }
    PlacedAllLiveAt(s.reg, cs, views, req, i, s.now);
    if views[i].windowTtl == 0 {
      assert !NewHold(views[i], req).LiveAt(s.now) && Within(Held(s, k), s.now);
      NoneLeft(Entries(s.reg, k, s.now), s.now);
      assert Held(s, k) + [] == [];
    }
  }

  /** Reserving on both sides, seen from a counter that got the hold. */
  lemma {:induction false} StoredRelated(s: State, db: Db, cs: seq<Counter>, req: Request, i: nat)
    requires Related(s, db) && Allowed(s, Reserve(cs, req)) && i < |cs|
    ensures var cells, seen := UpdatedAll(s.cells, cs, 0, s.now), Visited(db, cs, s.now);
            var views, k := ViewsOf(cells, cs, s.now), cs[i].key;
            LiveHolds(PlacedAll(s.reg, cs, views, req), k, s.now) ==
            Live(Fields(StoredAll(seen, cs, views, req), k, s.now), s.now)
  {
    LocalPlaces(s, cs, req, i);
    RedisPlaces(s, db, cs, ViewsOf(UpdatedAll(s.cells, cs, 0, s.now), cs, s.now), req, i);
  }

  lemma {:induction false} NoneLeft(holds: seq<Hold>, now: nat)
    requires Within(Live(holds, now), now)
    ensures Live(holds, now) == []
  {
    LiveWithin(Live(holds, now), now, now);
    LiveLater(holds, now, now);
  }

  lemma {:induction false} ReserveKeepsCounters(db: Db, cs: seq<Counter>, req: Request)
    ensures ReserveScript(db, cs, req).counters == Visited(db, cs, req.now).counters
  {
    var seen := Visited(db, cs, req.now);
    StoredKeepsCounters(seen, cs, ScriptViews(seen, cs, req.now), req);
  }

  /** Touching and visiting, seen from one counter. */
  lemma {:induction false} TouchedWindow(s: State, db: Db, cs: seq<Counter>, k: CounterKey)
    requires SameWindow(s.cells, db, k, s.now) && Distinct(cs)
    ensures SameWindow(UpdatedAll(s.cells, cs, 0, s.now), Visited(db, cs, s.now), k, s.now)
  {
    if Mentions(cs, k) {
      var i :| 0 <= i < |cs| && cs[i].key == k;
      UpdatedAllAt(s.cells, cs, 0, s.now, i);
      if Exists(db, k, s.now) {
        VisitedSame(db, cs, s.now, k);
      } else {
        VisitedStarts(db, cs, s.now, i);
      }
    } else {
      UpdatedAllElsewhere(s.cells, cs, 0, s.now, k);
      VisitedSame(db, cs, s.now, k);
    }
  }

  lemma {:induction false} ReserveWindows(s: State, db: Db, cs: seq<Counter>, req: Request, k: CounterKey)
    requires Related(s, db) && Allowed(s, Reserve(cs, req))
    ensures SameWindow(UpdatedAll(s.cells, cs, 0, s.now), ReserveScript(db, cs, req), k, s.now)
  {
    assert SameWindow(s.cells, db, k, s.now);
    TouchedWindow(s, db, cs, k);
    ReserveKeepsCounters(db, cs, req);
  }

  /** Both sides place holds, or neither does, on the same views. */
  lemma {:induction false} SameDecision(s: State, db: Db, cs: seq<Counter>, req: Request)
    requires Related(s, db) && Allowed(s, Reserve(cs, req))
    ensures var seen, views := Visited(db, cs, s.now), ViewsOf(UpdatedAll(s.cells, cs, 0, s.now), cs, s.now);
            ReserveScript(db, cs, req) ==
            if FitsAll(s.reg, cs, views, req) && req.holdAmount > 0 then StoredAll(seen, cs, views, req) else seen
  {
    SameViews(s, db, cs);
    SameAdmission(s, db, cs, ViewsOf(UpdatedAll(s.cells, cs, 0, s.now), cs, s.now), req);
  }

  lemma {:induction false} ReserveHoldsElsewhere(s: State, db: Db, cs: seq<Counter>, views: seq<View>, req: Request, k: CounterKey)
    requires Related(s, db) && !Mentions(cs, k) && |views| == |cs|
    ensures Held(s, k) == Live(Fields(Visited(db, cs, s.now), k, s.now), s.now)
    ensures Held(s, k) == Live(Fields(StoredAll(Visited(db, cs, s.now), cs, views, req), k, s.now), s.now)
  {
    assert SameHolds(s, db, k);
    VisitedHolds(db, cs, s.now, k);
    StoredElsewhere(Visited(db, cs, s.now), cs, views, req, k);
  }

  lemma {:induction false} ReserveHoldsGranted(s: State, db: Db, cs: seq<Counter>, req: Request, i: nat)
    requires Related(s, db) && Allowed(s, Reserve(cs, req)) && i < |cs| && req.holdAmount > 0
    requires FitsAll(s.reg, cs, ViewsOf(UpdatedAll(s.cells, cs, 0, s.now), cs, s.now), req)
    ensures SameHolds(After(s, Reserve(cs, req)), ReserveScript(db, cs, req), cs[i].key)
  {
    SameDecision(s, db, cs, req);
    StoredRelated(s, db, cs, req, i);
  }

  lemma {:induction false} ReserveHoldsKept(s: State, db: Db, cs: seq<Counter>, req: Request, k: CounterKey)
    requires Related(s, db) && Allowed(s, Reserve(cs, req)) && Held(After(s, Reserve(cs, req)), k) == Held(s, k)
    requires Mentions(cs, k) ==>
               !FitsAll(s.reg, cs, ViewsOf(UpdatedAll(s.cells, cs, 0, s.now), cs, s.now), req) || req.holdAmount == 0
    ensures SameHolds(After(s, Reserve(cs, req)), ReserveScript(db, cs, req), k)
  {
    SameDecision(s, db, cs, req);
    if Mentions(cs, k) {
      assert SameHolds(s, db, k);
      VisitedHolds(db, cs, s.now, k);
    } else {
      ReserveHoldsElsewhere(s, db, cs, ViewsOf(UpdatedAll(s.cells, cs, 0, s.now), cs, s.now), req, k);
    }
  }

  lemma {:induction false} ReserveHolds(s: State, db: Db, cs: seq<Counter>, req: Request, k: CounterKey)
    requires Related(s, db) && Allowed(s, Reserve(cs, req))
    ensures SameHolds(After(s, Reserve(cs, req)), ReserveScript(db, cs, req), k)
  {
    var views := ViewsOf(UpdatedAll(s.cells, cs, 0, s.now), cs, s.now);
    if FitsAll(s.reg, cs, views, req) && req.holdAmount > 0 && Mentions(cs, k) {
      var i :| 0 <= i < |cs| && cs[i].key == k;
      ReserveHoldsGranted(s, db, cs, req, i);
    } else {
      ReserveElsewhere(s, cs, req, k);
      ReserveHoldsKept(s, db, cs, req, k);
    }
  }

  lemma {:induction false} ReserveSound(s: State, db: Db, cs: seq<Counter>, req: Request)
    requires Related(s, db) && Allowed(s, Reserve(cs, req))
    ensures HashesSound(ReserveScript(db, cs, req), s.used + {req.id})
  {
    var seen := Visited(db, cs, s.now);
    var views := ScriptViews(seen, cs, s.now);
    VisitedSound(db, cs, s.now, s.used);
    var r := StoredAll(seen, cs, views, req);
    forall k | k in r.hashes
      ensures r.hashes[k].until.Some? && Within(r.hashes[k].holds, r.hashes[k].until.value)
      ensures Ids(r.hashes[k].holds) <= s.used + {req.id}
    {
      if Mentions(cs, k) {
        var i :| 0 <= i < |cs| && cs[i].key == k;
        StoredHashSound(s, db, cs, req, i);
      } else {
        StoredElsewhere(seen, cs, views, req, k);
      }
    }
  }

  lemma {:induction false} StoredHashSound(s: State, db: Db, cs: seq<Counter>, req: Request, i: nat)
    requires Related(s, db) && Allowed(s, Reserve(cs, req)) && i < |cs|
    ensures var seen, k := Visited(db, cs, s.now), cs[i].key;
            var r := StoredAll(seen, cs, ScriptViews(seen, cs, s.now), req);
            && k in r.hashes && r.hashes[k].until.Some? && Within(r.hashes[k].holds, r.hashes[k].until.value)
            && Ids(r.hashes[k].holds) <= s.used + {req.id}
  {
    var seen, k := Visited(db, cs, s.now), cs[i].key;
    var views, fields := ScriptViews(seen, cs, s.now), Fields(seen, k, s.now);
    assert HashesSound(seen, s.used) by { VisitedSound(db, cs, s.now, s.used); }
    StoredAt(seen, cs, views, req, i);
    IdsSnoc(fields, NewHold(views[i], req));
    VisitedOnlyLive(db, cs, s.now, i);
    assert Within(fields, s.now + views[i].windowTtl) by {
      assert SameHolds(s, db, k);
      VisitedHolds(db, cs, s.now, k);
      SameViews(s, db, cs);
      TouchedWindowsCover(s, cs, req);
    }
    WithinSnoc(fields, NewHold(views[i], req), s.now + views[i].windowTtl);
  }

  ghost predicate OnlyLive(db: Db, k: CounterKey, now: nat) {
    Live(Fields(db, k, now), now) == Fields(db, k, now)
  }

  lemma {:induction false} VisitLeavesOnlyLive(db: Db, c: Counter, now: nat)
    ensures OnlyLive(VisitedOne(db, c, now), c.key, now)
  {
    assert Fields(VisitedOne(db, c, now), c.key, now) == Live(Fields(db, c.key, now), now);
    LiveLater(Fields(db, c.key, now), now, now);
  }

  /** After the first loop a listed counter's hash holds live fields only. */
  lemma {:induction false} VisitedOnlyLive(db: Db, cs: seq<Counter>, now: nat, i: nat)
    requires Distinct(cs) && i < |cs|
    ensures OnlyLive(Visited(db, cs, now), cs[i].key, now)
    decreases |cs|
  {
    var n := |cs| - 1;
    var mid := Visited(db, cs[..n], now);
    if i == n {
      VisitLeavesOnlyLive(mid, cs[n], now);
    } else {
      VisitedOnlyLive(db, cs[..n], now, i);
      VisitElsewhere(mid, cs[n], now, cs[i]);
    }
  }

  lemma {:induction false} ReserveRelated(s: State, db: Db, cs: seq<Counter>, req: Request)
    requires Related(s, db) && Allowed(s, Reserve(cs, req))
    ensures Related(After(s, Reserve(cs, req)), ReserveScript(db, cs, req))
  {
    var s', db' := After(s, Reserve(cs, req)), ReserveScript(db, cs, req);
    ShapeStep(s, Reserve(cs, req));
    ReserveSound(s, db, cs, req);
    VisitedSound(db, cs, s.now, s.used);
    forall k
      ensures SameWindow(s'.cells, db', k, s'.now)
    {
      ReserveWindows(s, db, cs, req, k);
    }
    forall k
      ensures SameHolds(s', db', k)
    {
      ReserveHolds(s, db, cs, req, k);
    }
  }

  lemma {:induction false} StepRelated(s: State, db: Db, op: Op)
    requires Related(s, db) && Allowed(s, op)
    ensures Related(After(s, op), RedisAfter(db, op, s.now))
  {
    match op
    case Tick(until) => TickRelated(s, db, until);
    case Reserve(cs, req) => ReserveRelated(s, db, cs, req);
    case Update(c, id, actual) => UpdateRelated(s, db, c, id, actual);
    case Release(cs, held) => ReleaseRelated(s, db, cs, held);
  }

  /**
   Over every sequence of operations run on both, the in-process storage and the
   Redis scripts give the same answers to every reserve, and from related stores
   they end in related stores: same values, same window ends, same live holds with
   the same expiries on every counter.
   */
  lemma {:induction false} BothStoragesAnswerAlike(s: State, db: Db, ops: seq<Op>)
    requires Related(s, db) && AllowedAll(s, ops)
    ensures LocalAnswers(s, ops) == RedisAnswers(db, s.now, ops)
    decreases |ops|
  {
    if ops == [] {
    } else {
      StepRelated(s, db, ops[0]);
      if ops[0].Reserve? {
        SameAnswer(s, db, ops[0].cs, ops[0].req);
      }
      BothStoragesAnswerAlike(After(s, ops[0]), RedisAfter(db, ops[0], s.now), ops[1..]);
    }
  }

  /** Empty stores are related, so the two agree from the start. */
  lemma {:induction false} EmptyStoresRelated()
    ensures Related(State(map[], map[], 0, {}, map[], map[]), Db(map[], map[], map[]))
  {
  }

  /** A denied reserve adds no hold anywhere, in either storage. */
  lemma {:induction false} DenialHoldsNothing(s: State, db: Db, cs: seq<Counter>, req: Request, k: CounterKey)
    requires Related(s, db) && Allowed(s, Reserve(cs, req)) && !LocalAnswer(s, cs, req).admitted
    ensures Held(After(s, Reserve(cs, req)), k) == Held(s, k)
    ensures Live(Fields(ReserveScript(db, cs, req), k, s.now), s.now) == Live(Fields(db, k, s.now), s.now)
  {
    ReserveElsewhere(s, cs, req, k);
    ReserveHolds(s, db, cs, req, k);
    assert SameHolds(s, db, k);
  }

  /**
   The reserve script keeps exactly the hold amount free on each listed counter if it
   admits, and nothing if it denies.
   */
  lemma {:induction false} ScriptHoldsExactly(db: Db, cs: seq<Counter>, req: Request, i: nat)
    requires Distinct(cs) && i < |cs| && req.id !in Ids(Fields(db, cs[i].key, req.now)) && req.ttl > 0
    requires ScriptViews(Visited(db, cs, req.now), cs, req.now)[i].windowTtl > 0
    ensures var seen := Visited(db, cs, req.now);
            HeldIn(ReserveScript(db, cs, req), cs[i].key, req.now) == HeldIn(db, cs[i].key, req.now) +
            if ScriptAdmits(seen, cs, ScriptViews(seen, cs, req.now), req) then req.holdAmount else 0
  {
    var seen, k := Visited(db, cs, req.now), cs[i].key;
    var views := ScriptViews(seen, cs, req.now);
    VisitedHolds(db, cs, req.now, k);
    if ScriptAdmits(seen, cs, views, req) && req.holdAmount > 0 {
      var fields, h := Fields(seen, k, req.now), NewHold(views[i], req);
      VisitedIds(db, cs, req.now, i);
      StoredAt(seen, cs, views, req, i);
      StoredServes(StoredAll(seen, cs, views, req), k, fields, h, req.now + views[i].windowTtl, req.now);
      TotalSnoc(Live(fields, req.now), h);
    }
  }

  /** The first loop adds no id. */
  lemma {:induction false} VisitedIds(db: Db, cs: seq<Counter>, now: nat, i: nat)
    requires Distinct(cs) && i < |cs|
    ensures Ids(Fields(Visited(db, cs, now), cs[i].key, now)) <= Ids(Fields(db, cs[i].key, now))
  {
    VisitedOnlyLive(db, cs, now, i);
    VisitedHolds(db, cs, now, cs[i].key);
    LiveIds(Fields(db, cs[i].key, now), now);
  }
}
