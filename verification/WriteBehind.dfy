/**
 Several instances caching one counter in front of one Redis, inside one
 window. Each instance records hits locally, takes what is pending, sends it,
 and folds the total it gets back into its cache, or puts the hits back when
 the flush fails. Steps of different instances interleave freely.
 */
module WriteBehind {
  import opened Prelude
  import opened ExpiringCells
  import opened CachedCounters

  /** Where an instance's current flush stands. */
  datatype Flight =
    | Idle
    | Taken(offset: nat, value: nat)
    | Applied(value: nat, total: nat)

  /**
   `since` counts hits recorded since the last take, `admitted` those let in by a
   check, `lost` those a failed flush did not put back.
   */
  datatype Instance = Instance(cached: Cached, flight: Flight, since: nat, admitted: nat, lost: nat)

  datatype State = State(redis: nat, instances: seq<Instance>, recorded: nat)

  datatype Step =
    | Check(i: nat, delta: u64, window: nat, now: nat)
    | Report(i: nat, delta: u64, window: nat, now: nat)
    | Take(i: nat, now: nat)
    | Apply(i: nat)
    | Ack(i: nat, until: nat)
    | Fail(i: nat)

  /** Everything happens in one window: an instance's cell is running whenever it steps, and sums fit 64 bits. */
  ghost predicate Possible(s: State, step: Step) {
    && step.i < |s.instances|
    && var me := s.instances[step.i];
       match step
       case Check(_, delta, window, now) => !me.cached.cell.ExpiredAt(now) && me.cached.cell.value + delta < U64
       case Report(_, delta, window, now) => !me.cached.cell.ExpiredAt(now) && me.cached.cell.value + delta < U64
       case Take(_, now) => me.flight.Idle? && !me.cached.cell.ExpiredAt(now)
       case Apply(_) => me.flight.Taken?
       case Ack(_, until) => me.flight.Applied? && me.cached.cell.value + me.flight.total < U64
       case Fail(_) => me.flight.Taken?
  }

  function Recording(me: Instance, delta: u64, window: nat, now: nat): Instance {
    me.(cached := me.cached.Delta(delta, window, now), since := me.since + delta)
  }

  /** What one instance does in a step of its own. */
  function Moved(me: Instance, step: Step, redis: nat, max: u64): Instance {
    match step
    case Check(_, delta, window, now) =>
      if me.cached.IsLimited(delta, max, now) then me
      else Recording(me, delta, window, now).(admitted := me.admitted + delta)
    case Report(_, delta, window, now) => Recording(me, delta, window, now)
    case Take(_, now) =>
      var offset := me.cached.Pending(now);
      me.(cached := me.cached.Taken(now), since := 0,
          flight := if offset > 0 then Flight.Taken(offset, me.cached.cell.ValueAt(now)) else Idle)
    case Apply(_) =>
      if me.flight.Taken? then me.(flight := Applied(me.flight.value, redis + me.flight.offset)) else me
    case Ack(_, until) =>
      if me.flight.Applied? then
        var remote := SaturatingSub(me.flight.total, me.flight.value);
        me.(cached := me.cached.AddedFromAuthority(Wrap(remote), until), flight := Idle)
      else me
    case Fail(_) =>
      if me.flight.Taken? then
        var back := me.cached.Reverted(Wrap(me.flight.offset));
        me.(cached := back, flight := Idle,
            lost := me.lost + SaturatingSub(me.flight.offset, SaturatingSub(me.cached.initial, back.initial)))
      else me
  }

  /** Hits a step records. */
  function Recorded(me: Instance, step: Step, max: u64): nat {
    match step
    case Check(_, delta, window, now) => if me.cached.IsLimited(delta, max, now) then 0 else delta
    case Report(_, delta, _, _) => delta
    case _ => 0
  }

  function After(s: State, step: Step, max: u64): State
    requires step.i < |s.instances|
  {
    var me := s.instances[step.i];
    State(if step.Apply? && me.flight.Taken? then s.redis + me.flight.offset else s.redis,
          s.instances[step.i := Moved(me, step, s.redis, max)],
          s.recorded + Recorded(me, step, max))
  }

  ghost predicate Run(s: State, steps: seq<Step>, max: u64)
    decreases |steps|
  {
    steps == [] || (Possible(s, steps[0]) && Run(After(s, steps[0], max), steps[1..], max))
  }

  ghost function AfterAll(s: State, steps: seq<Step>, max: u64): State
    requires Run(s, steps, max)
    decreases |steps|
  {
    if steps == [] then s else AfterAll(After(s, steps[0], max), steps[1..], max)
  }

  // ---- One instance ----

  /** Hits an instance recorded that Redis has not applied: pending, in flight, or lost. */
  function Unsent(me: Instance): nat {
    SaturatingSub(me.cached.cell.value, me.cached.initial) + (if me.flight.Taken? then me.flight.offset else 0) + me.lost
  }

  /** The cache is consistent with the flush it has under way. */
  ghost predicate Sound(me: Instance) {
    var c := me.cached;
    && c.initial <= c.cell.value
    && me.admitted <= c.cell.value
    && (me.flight.Taken? ==> 0 < me.flight.offset <= me.flight.value == c.initial)
    && (me.flight.Applied? ==> me.flight.value == c.initial > 0)
    && (!me.flight.Idle? ==> c.cell.value == me.flight.value + me.since)
  }

  /** What Redis counted covers everything the instance believes Redis knows. */
  ghost predicate InStep(me: Instance, redis: nat) {
    match me.flight
    case Idle => me.cached.initial <= redis
    case Taken(offset, value) => value <= redis + offset && me.cached.cell.value == value + me.since
    case Applied(value, total) => value <= total <= redis && me.cached.cell.value == value + me.since
  }

  lemma {:induction false} RecordingKeepsSound(me: Instance, delta: u64, window: nat, now: nat, admitted: bool)
    requires Sound(me) && !me.cached.cell.ExpiredAt(now) && me.cached.cell.value + delta < U64
    ensures var next := Recording(me, delta, window, now);
            && Sound(next.(admitted := if admitted then me.admitted + delta else me.admitted))
            && Unsent(next) == Unsent(me) + delta
  {
  }

  lemma {:induction false} TakeKeepsSound(me: Instance, now: nat, redis: nat, max: u64)
    requires Sound(me) && me.flight.Idle? && !me.cached.cell.ExpiredAt(now)
    ensures var next := Moved(me, Take(0, now), redis, max);
            Sound(next) && Unsent(next) == Unsent(me)
  {
  }

  lemma {:induction false} FailKeepsSound(me: Instance, redis: nat, max: u64)
    requires Sound(me) && me.flight.Taken?
    ensures var next := Moved(me, Fail(0), redis, max);
            Sound(next) && Unsent(next) == Unsent(me)
  {
  }

  /** An acknowledgement raises value and initial value alike, by what Redis counted beyond the value sent. */
  lemma {:induction false} AckMoves(me: Instance, until: nat, redis: nat, max: u64)
    requires Sound(me) && me.flight.Applied? && me.cached.cell.value + me.flight.total < U64
    ensures var next := Moved(me, Ack(0, until), redis, max);
            && Sound(next) && Unsent(next) == Unsent(me) && next.flight.Idle?
            && next.since == me.since && next.admitted == me.admitted && next.lost == me.lost
            && next.cached.initial == Max(me.flight.value, me.flight.total)
            && next.cached.cell.value - next.cached.initial == me.cached.cell.value - me.cached.initial
  {
    var remote := SaturatingSub(me.flight.total, me.flight.value);
    assert Wrap(remote) == remote;
  }

  /** A step keeps its instance consistent, and accounts for every hit it records or sends. */
  lemma {:induction false} MovedKeepsSound(s: State, step: Step, max: u64)
    requires Possible(s, step) && Sound(s.instances[step.i])
    ensures var me := s.instances[step.i];
            var me' := Moved(me, step, s.redis, max);
            && Sound(me')
            && Unsent(me') + (if step.Apply? then me.flight.offset else 0) == Unsent(me) + Recorded(me, step, max)
  {
    var me := s.instances[step.i];
    match step
    case Check(_, delta, window, now) => RecordingKeepsSound(me, delta, window, now, true);
    case Report(_, delta, window, now) => RecordingKeepsSound(me, delta, window, now, false);
    case Take(_, now) => TakeKeepsSound(me, now, s.redis, max);
    case Apply(_) =>
    case Ack(_, until) => AckMoves(me, until, s.redis, max);
    case Fail(_) => FailKeepsSound(me, s.redis, max);
  }

  lemma {:induction false} MovedKeepsInStep(s: State, step: Step, max: u64)
    requires Possible(s, step) && Sound(s.instances[step.i])
    requires s.instances[step.i].lost == 0 ==> InStep(s.instances[step.i], s.redis)
    ensures var me' := Moved(s.instances[step.i], step, s.redis, max);
            me'.lost == 0 ==> InStep(me', After(s, step, max).redis)
  {
    var me := s.instances[step.i];
    match step
    case Check(_, delta, window, now) =>
    case Report(_, delta, window, now) =>
    case Take(_, now) =>
    case Apply(_) =>
    case Ack(_, until) => AckMoves(me, until, s.redis, max);
    case Fail(_) => FailKeepsSound(me, s.redis, max);
  }

  // ---- Conservation ----

  ghost function UnsentAll(s: State): nat {
    SumTo(|s.instances|, (i: nat) => if i < |s.instances| then Unsent(s.instances[i]) else 0)
  }

  ghost predicate Inv(s: State) {
    && (forall i :: 0 <= i < |s.instances| ==> Sound(s.instances[i]))
    && (forall i :: 0 <= i < |s.instances| && s.instances[i].lost == 0 ==> InStep(s.instances[i], s.redis))
    && s.recorded == s.redis + UnsentAll(s)
  }

  lemma {:induction false} StepKeepsInv(s: State, step: Step, max: u64)
    requires Inv(s) && Possible(s, step)
    ensures Inv(After(s, step, max))
  {
    var s', i := After(s, step, max), step.i;
    MovedKeepsSound(s, step, max);
    MovedKeepsInStep(s, step, max);
    var f := (j: nat) => if j < |s.instances| then Unsent(s.instances[j]) else 0;
    var g := (j: nat) => if j < |s'.instances| then Unsent(s'.instances[j]) else 0;
    SumToChange(|s.instances|, f, g, i);
    forall j | 0 <= j < |s'.instances|
      ensures Sound(s'.instances[j])
      ensures s'.instances[j].lost == 0 ==> InStep(s'.instances[j], s'.redis)
    {
      assert j != i ==> s'.instances[j] == s.instances[j];
    }
  }

  /** Instances that have nothing cached yet. */
  ghost predicate Starting(s: State) {
    && s.recorded == s.redis == 0
    && forall i :: 0 <= i < |s.instances| ==>
         var me := s.instances[i];
         me.cached.cell.value == 0 && me.cached.initial == 0 && me.flight.Idle? && me.since == me.admitted == me.lost == 0
  }

  lemma {:induction false} StartingInv(s: State)
    requires Starting(s)
    ensures Inv(s)
  {
    var f := (j: nat) => if j < |s.instances| then Unsent(s.instances[j]) else 0;
    SumToZero(|s.instances|, f);
  }

  lemma {:induction false} RunKeepsInv(s: State, steps: seq<Step>, max: u64)
    requires Inv(s) && Run(s, steps, max)
    ensures Inv(AfterAll(s, steps, max))
    decreases |steps|
  {
    if steps == [] {
    } else {
      StepKeepsInv(s, steps[0], max);
      RunKeepsInv(After(s, steps[0], max), steps[1..], max);
    }
  }

  /**
   Over every run, in whatever order the instances' steps fall: the hits recorded
   anywhere are those Redis counted, plus those in flight, plus those still pending
   in the caches, plus those lost to a failed first flush.
   */
  lemma {:induction false} HitsAreConserved(s: State, steps: seq<Step>, max: u64)
    requires Starting(s) && Run(s, steps, max)
    ensures var s' := AfterAll(s, steps, max);
            s'.recorded == s'.redis + UnsentAll(s')
  {
    StartingInv(s);
    RunKeepsInv(s, steps, max);
  }

  /**
   An acknowledgement leaves exactly the hits recorded since the take on top of what
   the instance counts from, and that is the total Redis returned if and only if
   this total is no less than the value sent. Only an instance that lost hits to an
   earlier failed flush can send more than Redis then holds.
   */
  lemma {:induction false} AckAdoptsTheTotalIff(s: State, steps: seq<Step>, max: u64, i: nat, until: nat)
    requires Starting(s) && Run(s, steps, max) && Possible(AfterAll(s, steps, max), Ack(i, until))
    ensures var before := AfterAll(s, steps, max).instances[i];
            var after := After(AfterAll(s, steps, max), Ack(i, until), max).instances[i];
            && after.cached.cell.value == after.cached.initial + before.since
            && (after.cached.initial == before.flight.total <==> before.flight.value <= before.flight.total)
            && (before.lost == 0 ==> before.flight.value <= before.flight.total)
  {
    StartingInv(s);
    RunKeepsInv(s, steps, max);
    var s' := AfterAll(s, steps, max);
    assert Sound(s'.instances[i]);
    AckMoves(s'.instances[i], until, s'.redis, max);
  }

  lemma {:induction false} RunCons(s: State, step: Step, rest: seq<Step>, max: u64)
    requires Possible(s, step) && Run(After(s, step, max), rest, max)
    ensures Run(s, [step] + rest, max)
    ensures AfterAll(s, [step] + rest, max) == AfterAll(After(s, step, max), rest, max)
  {
    assert ([step] + rest)[1..] == rest;
  }

  function Alone(value: u64, initial: u64, flight: Flight, since: nat, lost: nat): seq<Instance> {
    [Instance(Cached(Cell(value, 100), initial, false), flight, since, 0, lost)]
  }

  /** Five hits, a first flush that fails: the hits are lost. */
  lemma {:induction false} FirstFlushFails(rest: seq<Step>)
    requires Run(State(0, Alone(5, 5, Idle, 0, 5), 5), rest, 10)
    ensures var start, steps := State(0, Alone(0, 0, Idle, 0, 0), 0), [Report(0, 5, 60, 1)] + ([Take(0, 2)] + ([Fail(0)] + rest));
            && Run(start, steps, 10)
            && AfterAll(start, steps, 10) == AfterAll(State(0, Alone(5, 5, Idle, 0, 5), 5), rest, 10)
  {
    var s0, s1 := State(0, Alone(0, 0, Idle, 0, 0), 0), State(0, Alone(5, 0, Idle, 5, 0), 5);
    var s2, s3 := State(0, Alone(5, 5, Flight.Taken(5, 5), 0, 0), 5), State(0, Alone(5, 5, Idle, 0, 5), 5);
    assert After(s2, Fail(0), 10) == s3;
    RunCons(s2, Fail(0), rest, 10);
    assert After(s1, Take(0, 2), 10) == s2;
    RunCons(s1, Take(0, 2), [Fail(0)] + rest, 10);
    assert After(s0, Report(0, 5, 60, 1), 10) == s1;
    RunCons(s0, Report(0, 5, 60, 1), [Take(0, 2)] + ([Fail(0)] + rest), 10);
  }

  /**
   A run that fails to adopt it: five hits are lost to a failed first flush, one more
   is sent. Redis counted one; acknowledged, the instance goes on counting from six.
   */
  lemma {:induction false} AckAfterLossKeepsTheOldCount() returns (steps: seq<Step>)
    ensures var start := State(0, Alone(0, 0, Idle, 0, 0), 0);
            && Starting(start) && Run(start, steps, 10)
            && var end := AfterAll(start, steps, 10);
               && Possible(end, Ack(0, 100)) && end.instances[0].flight == Applied(6, 1) && end.redis == 1
               && After(end, Ack(0, 100), 10).instances[0].cached.initial == 6
  {
    var s3, s4 := State(0, Alone(5, 5, Idle, 0, 5), 5), State(0, Alone(6, 5, Idle, 1, 5), 6);
    var s5, s6 := State(0, Alone(6, 6, Flight.Taken(1, 6), 0, 5), 6), State(1, Alone(6, 6, Applied(6, 1), 0, 5), 6);
    assert After(s5, Apply(0), 10) == s6;
    RunCons(s5, Apply(0), [], 10);
    assert After(s4, Take(0, 4), 10) == s5;
    RunCons(s4, Take(0, 4), [Apply(0)] + [], 10);
    assert After(s3, Report(0, 1, 60, 3), 10) == s4;
    var rest := [Report(0, 1, 60, 3)] + ([Take(0, 4)] + ([Apply(0)] + []));
    RunCons(s3, Report(0, 1, 60, 3), [Take(0, 4)] + ([Apply(0)] + []), 10);
    FirstFlushFails(rest);
    steps := [Report(0, 5, 60, 1)] + ([Take(0, 2)] + ([Fail(0)] + rest));
  }

  /**
   A failed flush gives every hit back exactly when the take did not start from
   zero; otherwise all of it is lost.
   */
  lemma {:induction false} FailGivesBackIff(s: State, steps: seq<Step>, max: u64, i: nat)
    requires Starting(s) && Run(s, steps, max) && Possible(AfterAll(s, steps, max), Fail(i))
    ensures var before := AfterAll(s, steps, max).instances[i];
            var after := After(AfterAll(s, steps, max), Fail(i), max).instances[i];
            && after.cached.cell == before.cached.cell
            && (before.flight.value > before.flight.offset ==>
                  after.lost == before.lost && after.cached.initial == before.flight.value - before.flight.offset)
            && (before.flight.value == before.flight.offset ==>
                  after.lost == before.lost + before.flight.offset && after.cached.initial == before.cached.initial)
  {
    StartingInv(s);
    RunKeepsInv(s, steps, max);
    assert Sound(AfterAll(s, steps, max).instances[i]);
  }

  // ---- Bounded inaccuracy ----

  ghost function AdmittedAll(s: State): nat {
    SumTo(|s.instances|, (i: nat) => if i < |s.instances| then s.instances[i].admitted else 0)
  }

  ghost predicate ChecksOnly(steps: seq<Step>) {
    forall i :: 0 <= i < |steps| ==> !steps[i].Report?
  }

  ghost predicate Bounded(s: State, max: nat) {
    && (forall i :: 0 <= i < |s.instances| ==> s.instances[i].admitted <= max)
    && s.recorded == AdmittedAll(s)
  }

  lemma {:induction false} StepKeepsBounded(s: State, step: Step, max: u64)
    requires Inv(s) && Bounded(s, max) && Possible(s, step) && !step.Report?
    ensures Bounded(After(s, step, max), max)
  {
    var s', i := After(s, step, max), step.i;
    assert Sound(s.instances[i]);
    var f := (j: nat) => if j < |s.instances| then s.instances[j].admitted else 0;
    var g := (j: nat) => if j < |s'.instances| then s'.instances[j].admitted else 0;
    SumToChange(|s.instances|, f, g, i);
    forall j | 0 <= j < |s'.instances|
      ensures s'.instances[j].admitted <= max
    {
      assert j != i ==> s'.instances[j] == s.instances[j];
    }
  }

  lemma {:induction false} RunKeepsBounded(s: State, steps: seq<Step>, max: u64)
    requires Inv(s) && Bounded(s, max) && Run(s, steps, max) && ChecksOnly(steps)
    ensures Bounded(AfterAll(s, steps, max), max) && |AfterAll(s, steps, max).instances| == |s.instances|
    decreases |steps|
  {
    if steps == [] {
    } else {
      StepKeepsInv(s, steps[0], max);
      StepKeepsBounded(s, steps[0], max);
      RunKeepsBounded(After(s, steps[0], max), steps[1..], max);
    }
  }

  lemma {:induction false} SumBounded(n: nat, f: nat -> nat, max: nat)
    requires forall i :: 0 <= i < n ==> f(i) <= max
    ensures SumTo(n, f) <= n * max
  {
    if n == 0 {
    } else {
      SumBounded(n - 1, f, max);
      assert n * max == (n - 1) * max + max;
    }
  }

  /**
   When hits enter only through the check, no instance lets in more than the limit
   in a window, so `N` instances together let in, and Redis counts, at most `N`
   times the limit, whatever the order of flushes, acknowledgements and failures.
   */
  lemma {:induction false} InaccuracyIsBounded(s: State, steps: seq<Step>, max: u64)
    requires Starting(s) && Run(s, steps, max) && ChecksOnly(steps)
    ensures var s' := AfterAll(s, steps, max);
            && (forall i :: 0 <= i < |s'.instances| ==> s'.instances[i].admitted <= max)
            && s'.redis <= AdmittedAll(s') <= |s.instances| * max
  {
    StartingInv(s);
    SumToZero(|s.instances|, (i: nat) => if i < |s.instances| then s.instances[i].admitted else 0);
    RunKeepsInv(s, steps, max);
    RunKeepsBounded(s, steps, max);
    var s' := AfterAll(s, steps, max);
    SumBounded(|s'.instances|, (i: nat) => if i < |s'.instances| then s'.instances[i].admitted else 0, max);
  }

  // ---- The bound is reached ----

  /** `n` instances whose window has just started. */
  function Fresh(n: nat): seq<Instance> {
    seq(n, _ => Instance(Cached(Cell(0, 100), 0, false), Idle, 0, 0, 0))
  }

  /** The first `i` of `n` instances have let in the whole limit. */
  function FullUpTo(n: nat, i: nat, max: u64): State
    requires i <= n
  {
    State(0, seq(n, j => if j < i then Instance(Cached(Cell(max, 100), 0, false), Idle, max, max, 0)
                         else Instance(Cached(Cell(0, 100), 0, false), Idle, 0, 0, 0)), i * max)
  }

  function FillAll(n: nat, i: nat, max: u64): seq<Step>
    requires i <= n
    decreases n - i
  {
    if i == n then [] else [Check(i, max, 60, 1)] + FillAll(n, i + 1, max)
  }

  lemma {:induction false} FillOne(n: nat, i: nat, max: u64)
    requires i < n && max > 0
    ensures Possible(FullUpTo(n, i, max), Check(i, max, 60, 1))
    ensures After(FullUpTo(n, i, max), Check(i, max, 60, 1), max) == FullUpTo(n, i + 1, max)
  {
    var s, s' := FullUpTo(n, i, max), After(FullUpTo(n, i, max), Check(i, max, 60, 1), max);
    assert s.instances[i] == Instance(Cached(Cell(0, 100), 0, false), Idle, 0, 0, 0);
    assert s'.instances[i] == Instance(Cached(Cell(max, 100), 0, false), Idle, max, max, 0);
    assert s'.instances == FullUpTo(n, i + 1, max).instances;
    assert (i + 1) * max == i * max + max;
  }

  lemma {:induction false} FillRun(n: nat, i: nat, max: u64)
    requires i <= n && max > 0
    ensures Run(FullUpTo(n, i, max), FillAll(n, i, max), max) && ChecksOnly(FillAll(n, i, max))
    ensures AfterAll(FullUpTo(n, i, max), FillAll(n, i, max), max) == FullUpTo(n, n, max)
    decreases n - i
  {
    if i == n {
    } else {
      FillOne(n, i, max);
      FillRun(n, i + 1, max);
      RunCons(FullUpTo(n, i, max), Check(i, max, 60, 1), FillAll(n, i + 1, max), max);
    }
  }

  /**
   The bound is tight: for every limit and every number of instances there is a run
   in which each instance lets in exactly the limit, and all together `N` times it.
   */
  lemma {:induction false} InaccuracyIsReached(n: nat, max: u64)
    requires max > 0
    ensures var s, steps := State(0, Fresh(n), 0), FillAll(n, 0, max);
            && Starting(s) && Run(s, steps, max) && ChecksOnly(steps)
            && AdmittedAll(AfterAll(s, steps, max)) == n * max && |AfterAll(s, steps, max).instances| == n
            && forall i :: 0 <= i < n ==> AfterAll(s, steps, max).instances[i].admitted == max
  {
    assert FullUpTo(n, 0, max) == State(0, Fresh(n), 0);
    FillRun(n, 0, max);
    var end := FullUpTo(n, n, max);
    SumOfEqual(n, (i: nat) => if i < |end.instances| then end.instances[i].admitted else 0, max);
  }

  lemma {:induction false} SumOfEqual(n: nat, f: nat -> nat, max: nat)
    requires forall i :: 0 <= i < n ==> f(i) == max
    ensures SumTo(n, f) == n * max
  {
    if n == 0 {
    } else {
      SumOfEqual(n - 1, f, max);
      assert n * max == (n - 1) * max + max;
    }
  }
}
