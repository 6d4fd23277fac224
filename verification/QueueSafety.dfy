/**
 One cached counter and the flush queue, with any number of calls recording hits
 at once. A call records first and queues the counter afterwards; the flusher takes
 a queued counter's pending hits, sends them, drops the counter from the queue if
 nothing is pending, and only then folds the answer in. Every step may fall
 between any two others.
 */
module QueueSafety {
  import opened Prelude
  import opened ExpiringCells
  import opened CachedCounters
  import opened Counters
  import RedisScripts
  import CachedRedis

  /** Where the flusher stands with this counter. */
  datatype Phase =
    | Resting
    | Sending(offset: u64)
    | Checking(offset: u64)
    | Removing(offset: u64, clear: bool)
    | Folding(offset: u64)

  /** `waiting[t]`: call `t` has recorded its hits and not queued the counter yet. */
  datatype State = State(cached: Cached, queued: bool, phase: Phase, waiting: seq<bool>, now: nat)

  datatype Step =
    | Tick(until: nat)
    | Record(t: nat, delta: u64, window: nat)
    | Enqueue(t: nat)
    | Take
    | Sent
    | Failed
    | Check
    | Remove
    | Fold(remote: u64, until: nat)

  /** The queue's entry is locked between the check for pending hits and the removal. */
  ghost predicate Possible(s: State, step: Step) {
    match step
    case Tick(until) => s.now <= until
    case Record(t, delta, window) => t < |s.waiting| && !s.waiting[t] && window > 0 && s.cached.cell.ValueAt(s.now) + delta < U64
    case Enqueue(t) => t < |s.waiting| && s.waiting[t] && !s.phase.Removing?
    case Take => s.phase.Resting? && s.queued
    case Sent => s.phase.Sending?
    case Failed => s.phase.Sending?
    case Check => s.phase.Checking?
    case Remove => s.phase.Removing?
    case Fold(remote, until) => s.phase.Folding? && s.cached.cell.value + remote < U64 && s.cached.initial + remote < U64
  }

  function After(s: State, step: Step): State {
    match step
    case Tick(until) => s.(now := until)
    case Record(t, delta, window) =>
      if t < |s.waiting| then s.(cached := s.cached.Delta(delta, window, s.now), waiting := s.waiting[t := true]) else s
    case Enqueue(t) => if t < |s.waiting| then s.(queued := true, waiting := s.waiting[t := false]) else s
    case Take => s.(cached := s.cached.Taken(s.now), phase := Sending(s.cached.Pending(s.now)))
    case Sent => if s.phase.Sending? then s.(phase := Checking(s.phase.offset)) else s
    case Failed => if s.phase.Sending? then s.(phase := Resting, cached := s.cached.Reverted(s.phase.offset)) else s
    case Check => if s.phase.Checking? then s.(phase := Removing(s.phase.offset, s.cached.NoPendingWrites(s.now))) else s
    case Remove =>
      if s.phase.Removing? then s.(phase := Folding(s.phase.offset), queued := s.queued && !s.phase.clear) else s
    case Fold(remote, until) =>
      if !s.phase.Folding? then s
      else if s.phase.offset > 0 && until > s.now
      then s.(phase := Resting, cached := s.cached.AddedFromAuthority(remote, until))
      else s.(phase := Resting)
  }

  ghost predicate Run(s: State, steps: seq<Step>)
    decreases |steps|
  {
    steps == [] || (Possible(s, steps[0]) && Run(After(s, steps[0]), steps[1..]))
  }

  ghost function AfterAll(s: State, steps: seq<Step>): State
    decreases |steps|
  {
    if steps == [] then s else AfterAll(After(s, steps[0]), steps[1..])
  }

  /** Hits above the initial value, whether or not their window still runs. */
  function Above(c: Cached): nat {
    SaturatingSub(c.cell.value, c.initial)
  }

  /** Some call will still queue the counter. */
  ghost predicate AddUnderWay(s: State) {
    exists t :: 0 <= t < |s.waiting| && s.waiting[t]
  }

  /** No pending hit is left to nobody. */
  ghost predicate NotStranded(s: State) {
    s.cached.Pending(s.now) > 0 ==> s.queued || AddUnderWay(s)
  }

  // ---- What every run keeps ----

  /** The window is over and no answer on its way can bring it back. */
  ghost predicate GoneForGood(s: State) {
    s.cached.cell.ExpiredAt(s.now) && (s.phase.Resting? || s.phase.offset == 0)
  }

  ghost predicate Inv(s: State) {
    && s.cached.initial <= s.cached.cell.value
    && (s.phase.Sending? || s.phase.Checking? ==> s.queued)
    && (s.phase.Removing? && s.phase.clear && Above(s.cached) > 0 ==> AddUnderWay(s) || GoneForGood(s))
    && (Above(s.cached) > 0 ==> s.queued || AddUnderWay(s) || GoneForGood(s))
  }

  /** The check finds the window over, hits that came in since the take, and an answer to come. */
  ghost predicate LateCheck(s: State, step: Step) {
    step.Check? && s.phase.Checking? && s.phase.offset > 0 && s.cached.cell.ExpiredAt(s.now) && Above(s.cached) > 0
  }

  ghost predicate NoLateCheck(s: State, steps: seq<Step>)
    decreases |steps|
  {
    steps == [] || (!LateCheck(s, steps[0]) && NoLateCheck(After(s, steps[0]), steps[1..]))
  }

  lemma {:induction false} RecordKeepsInv(s: State, t: nat, delta: u64, window: nat)
    requires Inv(s) && Possible(s, Record(t, delta, window))
    ensures Inv(After(s, Record(t, delta, window)))
  {
    var r := After(s, Record(t, delta, window));
    assert r.waiting[t] && AddUnderWay(r);
  }

  lemma {:induction false} StepKeepsInv(s: State, step: Step)
    requires Inv(s) && Possible(s, step) && !LateCheck(s, step)
    ensures Inv(After(s, step))
  {
    match step
    case Record(t, delta, window) => RecordKeepsInv(s, t, delta, window);
    case Tick(_) =>
    case Enqueue(_) =>
    case Take =>
    case Sent =>
    case Failed =>
    case Check =>
    case Remove =>
    case Fold(remote, until) =>
      var r := After(s, step);
      assert Above(r.cached) == Above(s.cached);
  }

  lemma {:induction false} InvIsEnough(s: State)
    requires Inv(s)
    ensures NotStranded(s)
  {
  }

  /**
   However recording, queueing, flushing, failing, removal and time interleave: as
   long as no check is late, a counter with pending hits is in the queue, or a call
   that recorded some is still on its way to queue it. No pending hit is stranded.
   */
  lemma {:induction false} NoHitIsStranded(s: State, steps: seq<Step>)
    requires Inv(s) && Run(s, steps) && NoLateCheck(s, steps)
    ensures Inv(AfterAll(s, steps)) && NotStranded(AfterAll(s, steps))
    decreases |steps|
  {
    if steps == [] {
      InvIsEnough(s);
    } else {
      StepKeepsInv(s, steps[0]);
      NoHitIsStranded(After(s, steps[0]), steps[1..]);
    }
  }

  /** A counter nobody has recorded hits on yet. */
  lemma {:induction false} FreshCounter(window: nat, now: nat, calls: nat)
    ensures Inv(State(Provisional(0, window, now), false, Resting, seq(calls, _ => false), now))
  {
  }

  // ---- The storage's calls as steps ----

  /** Hits a call records in the cache are the record step. */
  lemma {:induction false} IncreaseIsTheRecordStep(s: State, cache: CachedRedis.Cache, c: Counter, t: nat, delta: u64)
    requires t < |s.waiting| && c.key in cache && cache[c.key] == s.cached
    ensures After(s, Record(t, delta, c.window)).cached == CachedRedis.Increased(cache, c, delta, s.now)[c.key]
  {
  }

  function WholeFlush(s: State, remote: u64, until: nat): State {
    After(After(After(After(After(s, Take), Sent), Check), Remove), Fold(remote, until))
  }

  /**
   A flush that nobody interrupts is take, send, check, remove and fold: it leaves the
   counter as the storage's flush of a batch does, and out of the queue.
   */
  lemma {:induction false} FlushIsTheSteps(
    s: State, db: RedisScripts.Db, cache: CachedRedis.Cache, batch: seq<Counter>, i: nat, until: nat)
    requires s.phase.Resting? && s.queued && s.cached.Pending(s.now) > 0
    requires Distinct(batch) && i < |batch| && batch[i].key in cache && cache[batch[i].key] == s.cached
    requires RedisScripts.Reply(db, batch[i], s.cached.Pending(s.now), s.now).1 == Some(until)
    ensures var total := RedisScripts.Reply(db, batch[i], s.cached.Pending(s.now), s.now).0;
            var r := WholeFlush(s, Wrap(SaturatingSub(total, s.cached.cell.ValueAt(s.now))), until);
            && batch[i].key in CachedRedis.FlushedCache(db, cache, batch, true, s.now)
            && r == s.(cached := CachedRedis.FlushedCache(db, cache, batch, true, s.now)[batch[i].key], queued := false)
  {
    CachedRedis.FlushedAt(db, cache, batch, s.now, i);
  }

  /** And so when nothing is pending: then Redis is not asked, and nothing is folded in. */
  lemma {:induction false} IdleFlushIsTheSteps(
    s: State, db: RedisScripts.Db, cache: CachedRedis.Cache, batch: seq<Counter>, i: nat, remote: u64, until: nat)
    requires s.phase.Resting? && s.queued && s.cached.Pending(s.now) == 0
    requires Distinct(batch) && i < |batch| && batch[i].key in cache && cache[batch[i].key] == s.cached
    ensures var k := batch[i].key;
            && k in CachedRedis.FlushedCache(db, cache, batch, true, s.now)
            && WholeFlush(s, remote, until) ==
               s.(cached := CachedRedis.FlushedCache(db, cache, batch, true, s.now)[k], queued := false)
  {
    var sent, k := CachedRedis.SentAll(cache, batch, s.now), batch[i].key;
    forall j | 0 <= j < |sent|
      ensures sent[j].c.key != k
    {
      var from := CachedRedis.SentComesFrom(cache, batch, s.now, j);
    }
    CachedRedis.TakenAt(cache, batch, s.now, i);
    CachedRedis.AckedElsewhere(CachedRedis.TakenAll(cache, batch, s.now), sent,
                               RedisScripts.BatchReplies(db, CachedRedis.Pairs(sent), s.now), s.now, k);
  }

  // ---- A late check ----

  /**
   With no call under way, checking a counter, removing it and folding the answer in
   leaves hits pending that nobody will send, if and only if the check was late and
   the answer's window still runs.
   */
  lemma {:induction false} RemovalStrandsIff(s: State, remote: u64, until: nat)
    requires Inv(s) && s.phase.Checking? && !AddUnderWay(s) && s.cached.cell.value + remote < U64
    ensures var r := After(After(After(s, Check), Remove), Fold(remote, until));
            !NotStranded(r) <==> LateCheck(s, Check) && until > s.now
  {
  }

  lemma {:induction false} RunCons(s: State, step: Step, rest: seq<Step>)
    requires Possible(s, step) && Run(After(s, step), rest)
    ensures Run(s, [step] + rest) && AfterAll(s, [step] + rest) == AfterAll(After(s, step), rest)
  {
    assert ([step] + rest)[1..] == rest;
  }

  /** The rest of the flush, once the window has ended: the counter leaves the queue and is revived. */
  lemma {:induction false} LateCheckRun(s: State)
    requires s.phase == Sending(3) && s.queued && s.waiting == [false] && s.now == 60 && s.cached == Cached(Cell(5, 60), 3, false)
    ensures var steps := [Sent] + ([Check] + ([Remove] + ([Fold(0, 118)] + [])));
            && Run(s, steps)
            && AfterAll(s, steps) == s.(cached := Cached(Cell(5, 118), 3, true), queued := false, phase := Resting)
  {
    var folding := s.(phase := Folding(3), queued := false);
    RunCons(folding, Fold(0, 118), []);
    RunCons(s.(phase := Removing(3, true)), Remove, [Fold(0, 118)] + []);
    RunCons(s.(phase := Checking(3)), Check, [Remove] + ([Fold(0, 118)] + []));
    RunCons(s, Sent, [Check] + ([Remove] + ([Fold(0, 118)] + [])));
  }

  /** Two hits recorded between a take and the end of a 60-second window are left to nobody. */
  lemma {:induction false} WindowEndStrandsHits() returns (steps: seq<Step>)
    ensures var s := State(Cached(Cell(3, 60), 0, false), true, Resting, [false], 58);
            Inv(s) && Run(s, steps) && !NotStranded(AfterAll(s, steps))
  {
    var s0 := State(Cached(Cell(3, 60), 0, false), true, Resting, [false], 58);
    var s1 := State(Cached(Cell(3, 60), 3, false), true, Sending(3), [false], 58);
    var s2 := State(Cached(Cell(5, 60), 3, false), true, Sending(3), [true], 58);
    var s3 := State(Cached(Cell(5, 60), 3, false), true, Sending(3), [false], 58);
    var late := [Sent] + ([Check] + ([Remove] + ([Fold(0, 118)] + [])));
    LateCheckRun(s3.(now := 60));
    RunCons(s3, Tick(60), late);
    assert After(s2, Enqueue(0)) == s3;
    RunCons(s2, Enqueue(0), [Tick(60)] + late);
    assert After(s1, Record(0, 2, 60)) == s2;
    RunCons(s1, Record(0, 2, 60), [Enqueue(0)] + ([Tick(60)] + late));
    RunCons(s0, Take, [Record(0, 2, 60)] + ([Enqueue(0)] + ([Tick(60)] + late)));
    steps := [Take] + ([Record(0, 2, 60)] + ([Enqueue(0)] + ([Tick(60)] + late)));
  }
}
