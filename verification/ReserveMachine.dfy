/**
 Reserve and commit over the in-memory counters, as one state machine: any
 interleaving of reserves, of the single steps a commit consists of, and of
 time passing. Beside the real state it keeps two books: how much of each hold
 a commit has already used, and the hits of the running window that no live
 hold covered.
 */
module ReserveMachine {
  import opened Prelude
  import opened Counters
  import opened InMemory
  import opened Reservations
  import opened HoldRetention
  import opened ReservingStorage

  datatype State = State(
    cells: Cells,
    reg: Registry,
    now: nat,
    used: set<nat>,
    spent: map<(CounterKey, nat), nat>,
    excess: map<CounterKey, nat>)

  datatype Op =
    | Tick(until: nat)
    | Reserve(cs: seq<Counter>, req: Request)
    | Update(c: Counter, id: Option<nat>, actual: u64)
    | Release(cs: seq<Counter>, held: nat)

  function Spent(s: State, k: CounterKey, id: nat): nat {
    if (k, id) in s.spent then s.spent[(k, id)] else 0
  }

  function Excess(s: State, k: CounterKey): nat {
    if k in s.excess then s.excess[k] else 0
  }

  function Held(s: State, k: CounterKey): seq<Hold> {
    LiveHolds(s.reg, k, s.now)
  }

  function Value(s: State, k: CounterKey): nat {
    ReadAt(s.cells, k, s.now)
  }

  function AmountOf(holds: seq<Hold>, id: nat): nat {
    if holds == [] then 0
    else if holds[|holds| - 1].id == id then holds[|holds| - 1].amount
    else AmountOf(holds[..|holds| - 1], id)
  }

  /** The part of a commit's amount its live hold still covers. */
  function Credit(s: State, k: CounterKey, id: Option<nat>, actual: nat): nat {
    match id
    case None => 0
    case Some(i) => Min(actual, SaturatingSub(AmountOf(Held(s, k), i), Spent(s, k, i)))
  }

  predicate WindowOver(s: State, k: CounterKey) {
    k !in s.cells || s.cells[k].ExpiredAt(s.now)
  }

  /** A window that starts anew starts with no uncovered hits. */
  function Restarted(s: State, cs: seq<Counter>): map<CounterKey, nat> {
    map k | k in s.excess && !(WindowOver(s, k) && exists i :: 0 <= i < |cs| && cs[i].key == k) :: s.excess[k]
  }

  ghost function After(s: State, op: Op): State {
    match op
    case Tick(until) => s.(now := until)
    case Reserve(cs, req) =>
      var cells := UpdatedAll(s.cells, cs, 0, s.now);
      s.(cells := cells,
         reg := Reserved(s.reg, cs, ViewsOf(cells, cs, s.now), req),
         used := s.used + {req.id},
         excess := Restarted(s, cs))
    case Update(c, id, actual) =>
      var credit := Credit(s, c.key, id, actual);
      var sofar := if WindowOver(s, c.key) then 0 else Excess(s, c.key);
      s.(cells := Updated(s.cells, c, actual, s.now),
         spent := if id.Some? then s.spent[(c.key, id.value) := Spent(s, c.key, id.value) + credit] else s.spent,
         excess := s.excess[c.key := sofar + (actual - credit)])
    case Release(cs, held) =>
      s.(reg := ReleasedAll(s.reg, cs, held, s.now))
  }

  ghost function AfterAll(s: State, ops: seq<Op>): State
    decreases |ops|
  {
    if ops == [] then s else AfterAll(After(s, ops[0]), ops[1..])
  }

  ghost function Ids(holds: seq<Hold>): set<nat> {
    if holds == [] then {} else Ids(holds[..|holds| - 1]) + {holds[|holds| - 1].id}
  }

  function WindowEnd(cells: Cells, k: CounterKey): nat {
    if k in cells then cells[k].expiry else 0
  }

  /**
   The books of a commit balance: what it uses of its hold and what it leaves uncovered
   are its amount, it uses no more than the hold has, and leaves nothing uncovered
   before the hold is used up.
   */
  lemma {:induction false} CommitBooksBalance(s: State, c: Counter, id: nat, actual: u64)
    ensures var s', held := After(s, Update(c, Some(id), actual)), AmountOf(Held(s, c.key), id);
            var sofar := if WindowOver(s, c.key) then 0 else Excess(s, c.key);
            && Spent(s', c.key, id) + Excess(s', c.key) == Spent(s, c.key, id) + sofar + actual
            && Spent(s', c.key, id) <= Max(Spent(s, c.key, id), held) && sofar <= Excess(s', c.key)
            && (Excess(s', c.key) > sofar ==> Spent(s', c.key, id) >= held)
  {
  }

  /** A reserve writes off the uncovered hits of exactly the counters whose window it starts anew. */
  lemma {:induction false} ReserveWritesOff(s: State, cs: seq<Counter>, req: Request, k: CounterKey)
    ensures Excess(After(s, Reserve(cs, req)), k) == if WindowOver(s, k) && Mentions(cs, k) then 0 else Excess(s, k)
  {
  }

  /** Live holds end with their counter's window. */
  ghost predicate Clamped(s: State) {
    forall k {:trigger WindowEnd(s.cells, k)} :: Within(Held(s, k), WindowEnd(s.cells, k))
  }

  /** Holds do not outlive the window, so once it is over none is live. */
  lemma {:induction false} NoHoldsAfterWindow(s: State, k: CounterKey)
    requires Clamped(s) && WindowOver(s, k)
    ensures Held(s, k) == []
  {
    assert Within(Held(s, k), WindowEnd(s.cells, k));
    LiveWithin(Held(s, k), WindowEnd(s.cells, k), s.now);
    var stored := Entries(s.reg, k, s.now);
    LiveLater(stored, s.now, s.now);
  }

  /** Hitting a counter moves no running window's end. */
  lemma {:induction false} HitKeepsClamped(s: State, c: Counter, delta: u64, k: CounterKey)
    requires Clamped(s)
    ensures Within(Held(s, k), WindowEnd(Updated(s.cells, c, delta, s.now), k))
  {
    assert Within(Held(s, k), WindowEnd(s.cells, k));
    if c.key == k && WindowOver(s, k) {
      NoHoldsAfterWindow(s, k);
    }
  }

  /** Starting the windows of a request leaves every value as it was. */
  lemma {:induction false} TouchReadsSame(cells: Cells, cs: seq<Counter>, now: nat, k: CounterKey)
    requires Distinct(cs)
    ensures ReadAt(UpdatedAll(cells, cs, 0, now), k, now) == ReadAt(cells, k, now)
    ensures k in cells && !cells[k].ExpiredAt(now) ==> SameAt(UpdatedAll(cells, cs, 0, now), cells, k)
  {
    if Mentions(cs, k) {
      var i :| 0 <= i < |cs| && cs[i].key == k;
      UpdatedAllAt(cells, cs, 0, now, i);
    } else {
      UpdatedAllElsewhere(cells, cs, 0, now, k);
    }
  }

  /** After the touches, a request's windows cover the holds live on its counters. */
  lemma {:induction false} TouchedWindowsCover(s: State, cs: seq<Counter>, req: Request)
    requires Clamped(s) && Distinct(cs) && req.now == s.now
    ensures WindowsCover(s.reg, cs, ViewsOf(UpdatedAll(s.cells, cs, 0, s.now), cs, s.now), req)
  {
    var cells := UpdatedAll(s.cells, cs, 0, s.now);
    var views := ViewsOf(cells, cs, s.now);
    forall i | 0 <= i < |cs|
      ensures Within(LiveHolds(s.reg, cs[i].key, req.now), req.now + views[i].windowTtl)
    {
      var k := cs[i].key;
      UpdatedAllAt(s.cells, cs, 0, s.now, i);
      assert Within(Held(s, k), WindowEnd(s.cells, k));
      if WindowOver(s, k) {
        NoHoldsAfterWindow(s, k);
      }
    }
  }

  lemma {:induction false} TouchKeepsClamped(s: State, cs: seq<Counter>, j: CounterKey)
    requires Clamped(s) && Distinct(cs)
    ensures Within(Held(s, j), WindowEnd(UpdatedAll(s.cells, cs, 0, s.now), j))
  {
    assert Within(Held(s, j), WindowEnd(s.cells, j));
    if WindowOver(s, j) {
      NoHoldsAfterWindow(s, j);
    } else {
      TouchReadsSame(s.cells, cs, s.now, j);
    }
  }

  lemma {:induction false} PlacingKeepsClamped(s: State, cs: seq<Counter>, req: Request, i: nat)
    requires HoldsWithin(s.reg) && Clamped(s) && Distinct(cs) && req.now == s.now && i < |cs|
    ensures var cells := UpdatedAll(s.cells, cs, 0, s.now);
            Within(LiveHolds(PlacedAll(s.reg, cs, ViewsOf(cells, cs, s.now), req), cs[i].key, s.now), WindowEnd(cells, cs[i].key))
  {
    var cells := UpdatedAll(s.cells, cs, 0, s.now);
    var views := ViewsOf(cells, cs, s.now);
    TouchedWindowsCover(s, cs, req);
    TouchKeepsClamped(s, cs, cs[i].key);
    UpdatedAllAt(s.cells, cs, 0, s.now, i);
    PlacedAllLiveAt(s.reg, cs, views, req, i, s.now);
    WithinSnoc(Held(s, cs[i].key), NewHold(views[i], req), WindowEnd(cells, cs[i].key));
  }

  lemma {:induction false} WithinSnoc(holds: seq<Hold>, h: Hold, end: nat)
    requires Within(holds, end)
    ensures Within(holds + [], end)
    ensures h.expiresAt <= end ==> Within(holds + [h], end)
  {
  }

  lemma {:induction false} ReserveKeepsClamped(s: State, cs: seq<Counter>, req: Request, j: CounterKey)
    requires HoldsWithin(s.reg) && Clamped(s) && Distinct(cs) && req.now == s.now
    ensures var s' := After(s, Reserve(cs, req));
            Within(Held(s', j), WindowEnd(s'.cells, j))
  {
    var cells := UpdatedAll(s.cells, cs, 0, s.now);
    var views := ViewsOf(cells, cs, s.now);
    TouchKeepsClamped(s, cs, j);
    if FitsAll(s.reg, cs, views, req) && req.holdAmount > 0 {
      if Mentions(cs, j) {
        var i :| 0 <= i < |cs| && cs[i].key == j;
        PlacingKeepsClamped(s, cs, req, i);
      } else {
        PlacedAllElsewhere(s.reg, cs, views, req, j);
        assert Entries(PlacedAll(s.reg, cs, views, req), j, s.now) == Entries(s.reg, j, s.now);
      }
    }
  }

  /** Entry expiries and window ends bound the holds. */
  ghost predicate Shape(s: State) {
    HoldsWithin(s.reg) && Clamped(s)
  }

  ghost predicate Timely(s: State, op: Op) {
    match op
    case Tick(until) => s.now <= until
    case Reserve(cs, req) => Distinct(cs) && req.now == s.now
    case _ => true
  }

  lemma {:induction false} TickHeld(s: State, until: nat, k: CounterKey)
    requires HoldsWithin(s.reg) && s.now <= until
    ensures Held(After(s, Tick(until)), k) == Reservations.Live(Held(s, k), until)
  {
    CacheServesEveryLiveHold(s.reg, k, until);
    CacheServesEveryLiveHold(s.reg, k, s.now);
    if k in s.reg {
      LiveLater(s.reg[k].holds, s.now, until);
    }
  }

  lemma {:induction false} StepKeepsClamped(s: State, op: Op, k: CounterKey)
    requires Shape(s) && Timely(s, op)
    ensures Within(Held(After(s, op), k), WindowEnd(After(s, op).cells, k))
  {
    assert Within(Held(s, k), WindowEnd(s.cells, k));
    match op
    case Tick(until) =>
      TickHeld(s, until, k);
      LiveWithin(Held(s, k), WindowEnd(s.cells, k), until);
    case Reserve(cs, req) =>
      ReserveKeepsClamped(s, cs, req, k);
    case Update(c, id, actual) =>
      HitKeepsClamped(s, c, actual, k);
    case Release(cs, held) =>
      ReleasedLive(s.reg, cs, held, s.now, k, s.now);
      WithoutWithin(Held(s, k), held, WindowEnd(s.cells, k));
  }

  lemma {:induction false} ShapeStep(s: State, op: Op)
    requires Shape(s) && Timely(s, op)
    ensures Shape(After(s, op))
  {
    forall k
      ensures Within(Held(After(s, op), k), WindowEnd(After(s, op).cells, k))
    {
      StepKeepsClamped(s, op, k);
    }
    match op
    case Reserve(cs, req) =>
      TouchedWindowsCover(s, cs, req);
      PlacedAllWithin(s.reg, cs, ViewsOf(UpdatedAll(s.cells, cs, 0, s.now), cs, s.now), req);
    case Release(cs, held) =>
      ReleasedWithin(s.reg, cs, held, s.now);
    case _ =>
  }

  lemma {:induction false} ReserveElsewhere(s: State, cs: seq<Counter>, req: Request, k: CounterKey)
    requires Distinct(cs) && req.now == s.now && HoldsWithin(s.reg) && Clamped(s)
    requires !Mentions(cs, k) || After(s, Reserve(cs, req)).reg == s.reg
    ensures Held(After(s, Reserve(cs, req)), k) == Held(s, k)
  {
    var views := ViewsOf(UpdatedAll(s.cells, cs, 0, s.now), cs, s.now);
    if !Mentions(cs, k) {
      PlacedAllElsewhere(s.reg, cs, views, req, k);
    }
  }

  /** A reserve adds at most its own hold to a counter. */
  lemma {:induction false} ReserveHeld(s: State, cs: seq<Counter>, req: Request, k: CounterKey) returns (added: seq<Hold>)
    requires HoldsWithin(s.reg) && Clamped(s) && Distinct(cs) && req.now == s.now
    ensures Held(After(s, Reserve(cs, req)), k) == Held(s, k) + added
    ensures added == [] || (|added| == 1 && added[0].id == req.id)
  {
    var views := ViewsOf(UpdatedAll(s.cells, cs, 0, s.now), cs, s.now);
    if FitsAll(s.reg, cs, views, req) && req.holdAmount > 0 && Mentions(cs, k) {
      var i :| 0 <= i < |cs| && cs[i].key == k;
      assert WindowsCover(s.reg, cs, views, req) by { TouchedWindowsCover(s, cs, req); }
      PlacedAllLiveAt(s.reg, cs, views, req, i, s.now);
      added := if NewHold(views[i], req).LiveAt(s.now) then [NewHold(views[i], req)] else [];
    } else {
      ReserveElsewhere(s, cs, req, k);
      added := [];
      assert Held(s, k) + [] == Held(s, k);
    }
  }
}
