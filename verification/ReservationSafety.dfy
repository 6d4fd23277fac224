/**
 The safety of reservations over whole runs: a counter's value and live holds
 stay within its limit plus the hits no live hold covered, in every
 interleaving of reserves, commit steps and time passing.
 */
module ReservationSafety {
  import opened Prelude
  import opened Counters
  import opened InMemory
  import opened Reservations
  import opened HoldRetention
  import opened ReservingStorage
  import opened ReserveMachine

  /** The limit the counter is under, in every operation that names it. */
  ghost predicate Under(c: Counter, k: CounterKey, max: u64) {
    c.key == k ==> c.maxValue == max
  }

  ghost predicate Legal(s: State, op: Op, k: CounterKey, max: u64) {
    match op
    case Tick(until) => s.now <= until
    case Reserve(cs, req) =>
      && Distinct(cs) && (forall i :: 0 <= i < |cs| ==> Under(cs[i], k, max))
      && req.now == s.now && req.id !in s.used && req.holdAmount <= req.checkAmount
    case Update(c, id, actual) => Under(c, k, max) && Value(s, c.key) + actual < U64
    case Release(_, _) => true
  }

  ghost predicate LegalRun(s: State, ops: seq<Op>, k: CounterKey, max: u64)
    decreases |ops|
  {
    ops == [] || (Legal(s, ops[0], k, max) && LegalRun(After(s, ops[0]), ops[1..], k, max))
  }

  /** What the live holds still keep free: their amounts less what commits already used. */
  ghost function Net(s: State, holds: seq<Hold>, k: CounterKey): nat {
    if holds == [] then 0
    else
      var last := holds[|holds| - 1];
      Net(s, holds[..|holds| - 1], k) + SaturatingSub(last.amount, Spent(s, k, last.id))
  }

  ghost predicate UniqueIds(holds: seq<Hold>) {
    holds == [] || (UniqueIds(holds[..|holds| - 1]) && holds[|holds| - 1].id !in Ids(holds[..|holds| - 1]))
  }

  /** Live holds carry different ids, and neither they nor the books know an id never handed out. */
  ghost predicate IdsInOrder(s: State, k: CounterKey) {
    && UniqueIds(Held(s, k)) && Ids(Held(s, k)) <= s.used
    && forall id :: (k, id) in s.spent && s.spent[(k, id)] > 0 ==> id in s.used
  }

  ghost predicate WithinLimit(s: State, k: CounterKey, max: u64) {
    Value(s, k) + Net(s, Held(s, k), k) <= max + Excess(s, k)
  }

  ghost predicate Inv(s: State, k: CounterKey, max: u64) {
    Shape(s) && IdsInOrder(s, k) && WithinLimit(s, k, max)
  }

  // ---- The books, hold by hold ----

  lemma {:induction false} NetAgree(s: State, s': State, holds: seq<Hold>, k: CounterKey)
    requires forall id :: id in Ids(holds) ==> Spent(s, k, id) == Spent(s', k, id)
    ensures Net(s, holds, k) == Net(s', holds, k)
    decreases |holds|
  {
    if holds == [] {
    } else {
      NetAgree(s, s', holds[..|holds| - 1], k);
    }
  }

  lemma {:induction false} NetSnoc(s: State, holds: seq<Hold>, h: Hold, k: CounterKey)
    ensures Net(s, holds + [h], k) == Net(s, holds, k) + SaturatingSub(h.amount, Spent(s, k, h.id))
    ensures Ids(holds + [h]) == Ids(holds) + {h.id}
    ensures UniqueIds(holds) && h.id !in Ids(holds) ==> UniqueIds(holds + [h])
  {
    assert (holds + [h])[..|holds|] == holds;
  }

  lemma {:induction false} NetAtMostTotal(s: State, holds: seq<Hold>, k: CounterKey)
    ensures Net(s, holds, k) <= Total(holds)
    decreases |holds|
  {
    if holds == [] {
    } else {
      NetAtMostTotal(s, holds[..|holds| - 1], k);
    }
  }

  /** `left` keeps some of the holds of `holds`, each at most once. */
  ghost predicate FewerHolds(s: State, left: seq<Hold>, holds: seq<Hold>, k: CounterKey) {
    Net(s, left, k) <= Net(s, holds, k) && UniqueIds(left) && Ids(left) <= Ids(holds)
  }

  lemma {:induction false} FewerHoldsSnoc(s: State, left: seq<Hold>, front: seq<Hold>, last: Hold, k: CounterKey)
    requires FewerHolds(s, left, front, k) && last.id !in Ids(front)
    ensures FewerHolds(s, left, front + [last], k) && FewerHolds(s, left + [last], front + [last], k)
  {
    NetSnoc(s, left, last, k);
    NetSnoc(s, front, last, k);
  }

  /** Holds that expire free what they kept; the rest keep their identities. */
  lemma {:induction false} NetExpire(s: State, holds: seq<Hold>, k: CounterKey, t: nat)
    requires UniqueIds(holds)
    ensures FewerHolds(s, Reservations.Live(holds, t), holds, k)
    decreases |holds|
  {
    if holds == [] {
    } else {
      var front, last := holds[..|holds| - 1], holds[|holds| - 1];
      NetExpire(s, front, k, t);
      FewerHoldsSnoc(s, Reservations.Live(front, t), front, last, k);
      assert front + [last] == holds;
      if last.LiveAt(t) {
        assert Reservations.Live(holds, t) == Reservations.Live(front, t) + [last];
      } else {
        assert Reservations.Live(holds, t) == Reservations.Live(front, t);
      }
    }
  }

  lemma {:induction false} NetRelease(s: State, holds: seq<Hold>, k: CounterKey, id: nat)
    requires UniqueIds(holds)
    ensures FewerHolds(s, Without(holds, id), holds, k)
    decreases |holds|
  {
    if holds == [] {
    } else {
      var front, last := holds[..|holds| - 1], holds[|holds| - 1];
      NetRelease(s, front, k, id);
      FewerHoldsSnoc(s, Without(front, id), front, last, k);
      assert front + [last] == holds;
      if last.id != id {
        assert Without(holds, id) == Without(front, id) + [last];
      } else {
        assert Without(holds, id) == Without(front, id);
      }
    }
  }

  lemma {:induction false} AmountOfUnknown(holds: seq<Hold>, id: nat)
    requires id !in Ids(holds)
    ensures AmountOf(holds, id) == 0
    decreases |holds|
  {
    if holds == [] {
    } else {
      AmountOfUnknown(holds[..|holds| - 1], id);
    }
  }

  /** Using part of one hold lowers what the holds keep free by just that part. */
  lemma {:induction false} NetSpend(s: State, s': State, holds: seq<Hold>, k: CounterKey, id: nat, credit: nat)
    requires UniqueIds(holds)
    requires credit <= SaturatingSub(AmountOf(holds, id), Spent(s, k, id))
    requires Spent(s', k, id) == Spent(s, k, id) + credit
    requires forall j :: j != id ==> Spent(s', k, j) == Spent(s, k, j)
    ensures Net(s', holds, k) + credit == Net(s, holds, k)
    decreases |holds|
  {
    if holds == [] {
    } else {
      var front, last := holds[..|holds| - 1], holds[|holds| - 1];
      if last.id == id {
        NetAgree(s, s', front, k);
      } else {
        NetSpend(s, s', front, k, id, credit);
      }
    }
  }

  // ---- Each operation keeps the invariant ----

  lemma {:induction false} TickKeepsInv(s: State, until: nat, k: CounterKey, max: u64)
    requires Inv(s, k, max) && s.now <= until
    ensures Inv(After(s, Tick(until)), k, max)
  {
    var s' := After(s, Tick(until));
    ShapeStep(s, Tick(until));
    TickHeld(s, until, k);
    NetExpire(s, Held(s, k), k, until);
    NetAgree(s, s', Held(s', k), k);
  }

  lemma {:induction false} ReleaseKeepsInv(s: State, cs: seq<Counter>, held: nat, k: CounterKey, max: u64)
    requires Inv(s, k, max)
    ensures Inv(After(s, Release(cs, held)), k, max)
  {
    var s' := After(s, Release(cs, held));
    ShapeStep(s, Release(cs, held));
    ReleasedLive(s.reg, cs, held, s.now, k, s.now);
    NetRelease(s, Held(s, k), k, held);
    NetAgree(s, s', Held(s', k), k);
  }

  /** A commit's update uses its credit and nothing else. */
  lemma {:induction false} UpdateBooks(s: State, c: Counter, id: Option<nat>, actual: u64)
    requires UniqueIds(Held(s, c.key))
    ensures var s' := After(s, Update(c, id, actual));
            Net(s', Held(s, c.key), c.key) + Credit(s, c.key, id, actual) == Net(s, Held(s, c.key), c.key)
    ensures Credit(s, c.key, id, actual) > 0 ==> id.Some? && id.value in Ids(Held(s, c.key))
  {
    var s', holds := After(s, Update(c, id, actual)), Held(s, c.key);
    if id.Some? {
      if id.value !in Ids(holds) {
        AmountOfUnknown(holds, id.value);
      }
      NetSpend(s, s', holds, c.key, id.value, Credit(s, c.key, id, actual));
    } else {
      NetAgree(s, s', holds, c.key);
    }
  }

  lemma {:induction false} UpdateKeepsIds(s: State, c: Counter, id: Option<nat>, actual: u64, k: CounterKey)
    requires IdsInOrder(s, k)
    ensures IdsInOrder(After(s, Update(c, id, actual)), k)
  {
    assert Held(After(s, Update(c, id, actual)), k) == Held(s, k);
    if c.key == k {
      UpdateBooks(s, c, id, actual);
    }
  }

  lemma {:induction false} UpdateElsewhere(s: State, c: Counter, id: Option<nat>, actual: u64, k: CounterKey, max: u64)
    requires WithinLimit(s, k, max) && c.key != k
    ensures WithinLimit(After(s, Update(c, id, actual)), k, max)
  {
    NetAgree(s, After(s, Update(c, id, actual)), Held(s, k), k);
  }

  /** A commit's update of the counter itself: what its hold does not cover is booked as excess. */
  lemma {:induction false} UpdateOnCounter(s: State, c: Counter, id: Option<nat>, actual: u64, k: CounterKey, max: u64)
    requires Inv(s, k, max) && Legal(s, Update(c, id, actual), k, max) && c.key == k
    ensures WithinLimit(After(s, Update(c, id, actual)), k, max)
  {
    var s' := After(s, Update(c, id, actual));
    UpdateBooks(s, c, id, actual);
    if WindowOver(s, k) {
      NoHoldsAfterWindow(s, k);
      assert Value(s', k) <= actual;
    } else {
      assert Value(s', k) == Value(s, k) + actual;
    }
  }

  lemma {:induction false} UpdateKeepsInv(s: State, c: Counter, id: Option<nat>, actual: u64, k: CounterKey, max: u64)
    requires Inv(s, k, max) && Legal(s, Update(c, id, actual), k, max)
    ensures Inv(After(s, Update(c, id, actual)), k, max)
  {
    assert Shape(After(s, Update(c, id, actual))) by { ShapeStep(s, Update(c, id, actual)); }
    UpdateKeepsIds(s, c, id, actual, k);
    if c.key != k {
      UpdateElsewhere(s, c, id, actual, k, max);
    } else {
      UpdateOnCounter(s, c, id, actual, k, max);
    }
  }

  /** The books of a counter that just got a hold. */
  lemma {:induction false} HoldFits(s: State, holds: seq<Hold>, h: Hold, k: CounterKey, value: nat, check: nat, max: nat, live: bool)
    requires UniqueIds(holds) && h.id !in Ids(holds) && Spent(s, k, h.id) == 0
    requires value + Total(holds) + check <= max && h.amount <= check
    ensures var after := holds + if live then [h] else [];
            UniqueIds(after) && Ids(after) <= Ids(holds) + {h.id} && value + Net(s, after, k) <= max
  {
    NetAtMostTotal(s, holds, k);
    NetSnoc(s, holds, h, k);
    assert holds + [] == holds;
  }

  lemma {:induction false} ReserveOnCounter(s: State, cs: seq<Counter>, req: Request, i: nat, k: CounterKey, max: u64)
    requires Inv(s, k, max) && Legal(s, Reserve(cs, req), k, max) && i < |cs| && cs[i].key == k
    requires FitsAll(s.reg, cs, ViewsOf(UpdatedAll(s.cells, cs, 0, s.now), cs, s.now), req) && req.holdAmount > 0
    ensures var s' := After(s, Reserve(cs, req));
            && UniqueIds(Held(s', k)) && Ids(Held(s', k)) <= s'.used
            && Value(s', k) + Net(s', Held(s', k), k) <= max
  {
    var s' := After(s, Reserve(cs, req));
    var cells := UpdatedAll(s.cells, cs, 0, s.now);
    var views := ViewsOf(cells, cs, s.now);
    var h := NewHold(views[i], req);
    assert WindowsCover(s.reg, cs, views, req) by { TouchedWindowsCover(s, cs, req); }
    PlacedAllLiveAt(s.reg, cs, views, req, i, s.now);
    assert Value(s', k) <= views[i].value by { UpdatedAllAt(s.cells, cs, 0, s.now, i); }
    assert Under(cs[i], k, max) && Fits(s.reg, cs[i], views[i], req);
    HoldFits(s', Held(s, k), h, k, Value(s', k), req.checkAmount, max, h.LiveAt(s.now));
  }

  /** A reserve that gives `k` no hold leaves its books as they were. */
  lemma {:induction false} ReserveWithoutHold(s: State, cs: seq<Counter>, req: Request, k: CounterKey, max: u64)
    requires Inv(s, k, max) && Legal(s, Reserve(cs, req), k, max)
    requires Held(After(s, Reserve(cs, req)), k) == Held(s, k)
    ensures IdsInOrder(After(s, Reserve(cs, req)), k) && WithinLimit(After(s, Reserve(cs, req)), k, max)
  {
    var s' := After(s, Reserve(cs, req));
    assert Net(s', Held(s, k), k) == Net(s, Held(s, k), k) by { NetAgree(s, s', Held(s, k), k); }
    assert Value(s', k) == Value(s, k) by { TouchReadsSame(s.cells, cs, s.now, k); }
    if WindowOver(s, k) {
      NoHoldsAfterWindow(s, k);
    }
  }

  lemma {:induction false} ReserveKeepsInv(s: State, cs: seq<Counter>, req: Request, k: CounterKey, max: u64)
    requires Inv(s, k, max) && Legal(s, Reserve(cs, req), k, max)
    ensures Inv(After(s, Reserve(cs, req)), k, max)
  {
    var views := ViewsOf(UpdatedAll(s.cells, cs, 0, s.now), cs, s.now);
    assert Shape(After(s, Reserve(cs, req))) by { ShapeStep(s, Reserve(cs, req)); }
    if FitsAll(s.reg, cs, views, req) && req.holdAmount > 0 && Mentions(cs, k) {
      var i :| 0 <= i < |cs| && cs[i].key == k;
      ReserveOnCounter(s, cs, req, i, k, max);
    } else {
      ReserveElsewhere(s, cs, req, k);
      ReserveWithoutHold(s, cs, req, k, max);
    }
  }

  lemma {:induction false} StepKeepsInv(s: State, op: Op, k: CounterKey, max: u64)
    requires Inv(s, k, max) && Legal(s, op, k, max)
    ensures Inv(After(s, op), k, max)
  {
    match op
    case Tick(until) => TickKeepsInv(s, until, k, max);
    case Reserve(cs, req) => ReserveKeepsInv(s, cs, req, k, max);
    case Update(c, id, actual) => UpdateKeepsInv(s, c, id, actual, k, max);
    case Release(cs, held) => ReleaseKeepsInv(s, cs, held, k, max);
  }

  /**
   Over every interleaving of reserves, commit steps and time passing: a counter's
   value plus what its live holds still keep free is at most its limit plus the
   hits of this window that no live hold covered.
   */
  lemma {:induction false} ReservationsAreSafe(s: State, ops: seq<Op>, k: CounterKey, max: u64)
    requires Inv(s, k, max) && LegalRun(s, ops, k, max)
    ensures var s' := AfterAll(s, ops);
            && Inv(s', k, max)
            && Value(s', k) + Net(s', Held(s', k), k) <= max + Excess(s', k)
    decreases |ops|
  {
    if ops == [] {
    } else {
      StepKeepsInv(s, ops[0], k, max);
      ReservationsAreSafe(After(s, ops[0]), ops[1..], k, max);
    }
  }

  function Empty(): State {
    State(map[], map[], 0, {}, map[], map[])
  }

  lemma {:induction false} EmptyIsSafe(k: CounterKey, max: u64)
    ensures Inv(Empty(), k, max)
  {
  }

  /** A commit's amount lies within what its live hold has left. */
  ghost predicate CoveredCommit(s: State, k: CounterKey, id: Option<nat>, actual: nat) {
    actual == 0 || (id.Some? && Spent(s, k, id.value) + actual <= AmountOf(Held(s, k), id.value))
  }

  /** Every commit on `k` along the run is covered by its own live hold. */
  ghost predicate Covered(s: State, ops: seq<Op>, k: CounterKey)
    decreases |ops|
  {
    ops == [] ||
    (&& (ops[0].Update? && ops[0].c.key == k ==> CoveredCommit(s, k, ops[0].id, ops[0].actual))
     && Covered(After(s, ops[0]), ops[1..], k))
  }

  lemma {:induction false} CoveredLeavesNoExcess(s: State, ops: seq<Op>, k: CounterKey)
    requires Excess(s, k) == 0 && Covered(s, ops, k)
    ensures Excess(AfterAll(s, ops), k) == 0
    decreases |ops|
  {
    if ops == [] {
    } else {
      CoveredLeavesNoExcess(After(s, ops[0]), ops[1..], k);
    }
  }

  /**
   When every commit is live and within its hold, no interleaving, not even one
   that reserves between a commit's update and its release, takes the value past
   the limit.
   */
  lemma {:induction false} CoveredCommitsNeverExceedTheLimit(ops: seq<Op>, k: CounterKey, max: u64)
    requires LegalRun(Empty(), ops, k, max) && Covered(Empty(), ops, k)
    ensures Value(AfterAll(Empty(), ops), k) <= max
  {
    EmptyIsSafe(k, max);
    ReservationsAreSafe(Empty(), ops, k, max);
    CoveredLeavesNoExcess(Empty(), ops, k);
  }

  // ---- Whole calls: commits that nothing interrupts ----

  datatype Call =
    | Wait(until: nat)
    | ReserveCall(cs: seq<Counter>, req: Request)
    | CommitCall(cs: seq<Counter>, id: Option<nat>, actual: u64)

  /** A commit's steps: update the counters one by one, then release them all. */
  function CommitOps(cs: seq<Counter>, rest: seq<Counter>, id: Option<nat>, actual: u64): seq<Op>
    decreases |rest|
  {
    if rest == [] then (if id.Some? then [Release(cs, id.value)] else [])
    else [Update(rest[0], id, actual)] + CommitOps(cs, rest[1..], id, actual)
  }

  function OpsOf(call: Call): seq<Op> {
    match call
    case Wait(until) => [Tick(until)]
    case ReserveCall(cs, req) => [Reserve(cs, req)]
    case CommitCall(cs, id, actual) => CommitOps(cs, cs, id, actual)
  }

  ghost predicate LegalCalls(s: State, calls: seq<Call>, k: CounterKey, max: u64)
    decreases |calls|
  {
    calls == [] ||
    (LegalRun(s, OpsOf(calls[0]), k, max) && LegalCalls(AfterAll(s, OpsOf(calls[0])), calls[1..], k, max))
  }

  ghost function AfterCalls(s: State, calls: seq<Call>): State
    decreases |calls|
  {
    if calls == [] then s else AfterCalls(AfterAll(s, OpsOf(calls[0])), calls[1..])
  }

  /** No live hold of `k` has been partly used. */
  ghost predicate Settled(s: State, k: CounterKey) {
    forall id :: id in Ids(Held(s, k)) ==> Spent(s, k, id) == 0
  }

  lemma {:induction false} SettledNet(s: State, holds: seq<Hold>, k: CounterKey)
    requires forall id :: id in Ids(holds) ==> Spent(s, k, id) == 0
    ensures Net(s, holds, k) == Total(holds)
    decreases |holds|
  {
    if holds == [] {
    } else {
      SettledNet(s, holds[..|holds| - 1], k);
    }
  }

  lemma {:induction false} WithoutDropsId(holds: seq<Hold>, id: nat)
    ensures Ids(Without(holds, id)) == Ids(holds) - {id}
    decreases |holds|
  {
    if holds == [] {
    } else {
      var front, last := holds[..|holds| - 1], holds[|holds| - 1];
      WithoutDropsId(front, id);
      if last.id != id {
        assert (Without(front, id) + [last])[..|Without(front, id)|] == Without(front, id);
        assert Without(holds, id) == Without(front, id) + [last];
      } else {
        assert Without(holds, id) == Without(front, id);
      }
    }
  }

  /** A whole commit changes the counters and the registry as the storage's own calls do. */
  lemma {:induction false} CommitOpsRun(s: State, cs: seq<Counter>, rest: seq<Counter>, id: Option<nat>, actual: u64)
    ensures var s' := AfterAll(s, CommitOps(cs, rest, id, actual));
            && s'.cells == UpdatedAll(s.cells, rest, actual, s.now)
            && s'.reg == if id.Some? then ReleasedAll(s.reg, cs, id.value, s.now) else s.reg
    decreases |rest|
  {
    var ops := CommitOps(cs, rest, id, actual);
    if rest == [] {
      assert id.Some? ==> ops[1..] == [];
    } else {
      assert ops[1..] == CommitOps(cs, rest[1..], id, actual);
      CommitOpsRun(After(s, Update(rest[0], id, actual)), cs, rest[1..], id, actual);
    }
  }

  /** Each whole call does to clock, counters and registry what the storage's own calls do. */
  lemma {:induction false} CallRuns(s: State, call: Call)
    ensures var s' := AfterAll(s, OpsOf(call));
            match call
            case Wait(until) => s'.now == until && s'.cells == s.cells && s'.reg == s.reg
            case ReserveCall(cs, req) =>
              && s'.now == s.now && s'.cells == UpdatedAll(s.cells, cs, 0, s.now)
              && s'.reg == Reserved(s.reg, cs, ViewsOf(s'.cells, cs, s.now), req)
            case CommitCall(cs, id, actual) =>
              && s'.cells == UpdatedAll(s.cells, cs, actual, s.now)
              && s'.reg == if id.Some? then ReleasedAll(s.reg, cs, id.value, s.now) else s.reg
  {
    match call
    case Wait(until) => assert OpsOf(call)[1..] == [];
    case ReserveCall(cs, req) => assert OpsOf(call)[1..] == [];
    case CommitCall(cs, id, actual) => CommitOpsRun(s, cs, cs, id, actual);
  }

  /** No live hold of `k` other than `id` has been partly used. */
  ghost predicate SettledBut(s: State, k: CounterKey, id: Option<nat>) {
    forall j :: j in Ids(Held(s, k)) && Some(j) != id ==> Spent(s, k, j) == 0
  }

  lemma {:induction false} UpdateKeepsSettledBut(s: State, c: Counter, id: Option<nat>, actual: u64, k: CounterKey)
    requires SettledBut(s, k, id)
    ensures SettledBut(After(s, Update(c, id, actual)), k, id)
    ensures c.key != k && Settled(s, k) ==> Settled(After(s, Update(c, id, actual)), k)
  {
    assert Held(After(s, Update(c, id, actual)), k) == Held(s, k);
  }

  lemma {:induction false} ReleaseSettles(s: State, cs: seq<Counter>, id: nat, k: CounterKey)
    requires SettledBut(s, k, Some(id)) && (Mentions(cs, k) || Settled(s, k))
    ensures Settled(After(s, Release(cs, id)), k)
  {
    ReleasedLive(s.reg, cs, id, s.now, k, s.now);
    WithoutDropsId(Held(s, k), id);
  }

  /** A whole commit settles its hold. */
  lemma {:induction false} CommitOpsSettle(s: State, cs: seq<Counter>, rest: seq<Counter>, id: Option<nat>, actual: u64, k: CounterKey)
    requires SettledBut(s, k, id) && (Mentions(cs, k) || Settled(s, k)) && (Mentions(rest, k) ==> Mentions(cs, k))
    ensures Settled(AfterAll(s, CommitOps(cs, rest, id, actual)), k)
    decreases |rest|
  {
    var ops := CommitOps(cs, rest, id, actual);
    if rest == [] {
      if id.Some? {
        assert ops[1..] == [];
        ReleaseSettles(s, cs, id.value, k);
      }
    } else {
      assert ops[1..] == CommitOps(cs, rest[1..], id, actual);
      MentionsFirst(rest, k);
      UpdateKeepsSettledBut(s, rest[0], id, actual, k);
      CommitOpsSettle(After(s, Update(rest[0], id, actual)), cs, rest[1..], id, actual, k);
    }
  }

  lemma {:induction false} MentionsFirst(cs: seq<Counter>, k: CounterKey)
    requires cs != []
    ensures Mentions(cs, k) <==> cs[0].key == k || Mentions(cs[1..], k)
  {
    if Mentions(cs[1..], k) {
      var i :| 0 <= i < |cs[1..]| && cs[1..][i].key == k;
      assert cs[i + 1].key == k;
    }
    if Mentions(cs, k) {
      var i :| 0 <= i < |cs| && cs[i].key == k;
      assert i > 0 ==> cs[1..][i - 1].key == k;
    }
  }

  lemma {:induction false} CallKeepsSettled(s: State, call: Call, k: CounterKey, max: u64)
    requires Inv(s, k, max) && Settled(s, k) && LegalRun(s, OpsOf(call), k, max)
    ensures Settled(AfterAll(s, OpsOf(call)), k)
  {
    match call
    case Wait(until) =>
      assert OpsOf(call)[1..] == [];
      TickHeld(s, until, k);
      NetExpire(s, Held(s, k), k, until);
    case ReserveCall(cs, req) =>
      assert OpsOf(call)[1..] == [];
      ReserveKeepsSettled(s, cs, req, k, max);
    case CommitCall(cs, id, actual) =>
      CommitOpsSettle(s, cs, cs, id, actual, k);
  }

  lemma {:induction false} SettledSnoc(s: State, s': State, holds: seq<Hold>, added: seq<Hold>, k: CounterKey, id: nat)
    requires s'.spent == s.spent && Spent(s, k, id) == 0
    requires forall j :: j in Ids(holds) ==> Spent(s, k, j) == 0
    requires added == [] || (|added| == 1 && added[0].id == id)
    ensures forall j :: j in Ids(holds + added) ==> Spent(s', k, j) == 0
  {
    if added == [] {
      assert holds + added == holds;
    } else {
      NetSnoc(s, holds, added[0], k);
      assert holds + added == holds + [added[0]];
    }
  }

  lemma {:induction false} ReserveKeepsSettled(s: State, cs: seq<Counter>, req: Request, k: CounterKey, max: u64)
    requires Inv(s, k, max) && Settled(s, k) && Legal(s, Reserve(cs, req), k, max)
    ensures Settled(After(s, Reserve(cs, req)), k)
  {
    var added := ReserveHeld(s, cs, req, k);
    SettledSnoc(s, After(s, Reserve(cs, req)), Held(s, k), added, k, req.id);
  }

  /**
   Over every run of whole reserve and commit calls and of time passing, value plus
   live holds is at most the limit plus, for each commit of this window, the part
   of its amount above the live hold it released.
   */
  lemma {:induction false} WholeCallsAreSafe(s: State, calls: seq<Call>, k: CounterKey, max: u64)
    requires Inv(s, k, max) && Settled(s, k) && LegalCalls(s, calls, k, max)
    ensures var s' := AfterCalls(s, calls);
            Value(s', k) + Total(Held(s', k)) <= max + Excess(s', k)
    decreases |calls|
  {
    if calls == [] {
      SettledNet(s, Held(s, k), k);
    } else {
      CallKeepsSettled(s, calls[0], k, max);
      ReservationsAreSafe(s, OpsOf(calls[0]), k, max);
      WholeCallsAreSafe(AfterAll(s, OpsOf(calls[0])), calls[1..], k, max);
    }
  }
}
