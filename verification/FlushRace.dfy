/**
 The flush's three atomic operations (load, load, compare-exchange) against
 concurrent increments, each of which may in turn reset `initial_value`.
 Everything happens inside one window; flushes may also run concurrently.
 */
module FlushRace {
  import opened Prelude
  import opened CachedCounters

  /** An increment: add, and, if that made the value equal the delta, reset. */
  datatype IncPc = Add(delta: nat) | Reset | Counted

  datatype FlushPc = LoadInitial | LoadValue(start: nat) | Exchange(start: nat, seen: nat) | Returned(offset: Option<nat>)

  /**
   `recorded`, `sent` and `clobbered` are the books: deltas added, offsets
   returned by flushes, and initial values overwritten by a reset.
   */
  datatype State = State(
    value: nat, initial: nat,
    incs: seq<IncPc>, flushes: seq<FlushPc>,
    recorded: nat, sent: nat, clobbered: nat)

  datatype Move = Inc(i: nat) | Flush(f: nat)

  predicate Possible(s: State, m: Move) {
    match m
    case Inc(i) => i < |s.incs|
    case Flush(f) => f < |s.flushes|
  }

  function IncStep(s: State, i: nat): State
    requires i < |s.incs|
  {
    match s.incs[i]
    case Add(delta) =>
      var value := s.value + delta;
      s.(value := value, recorded := s.recorded + delta, incs := s.incs[i := if value == delta then Reset else Counted])
    case Reset =>
      s.(initial := 0, clobbered := s.clobbered + s.initial, incs := s.incs[i := Counted])
    case Counted => s
  }

  function FlushStep(s: State, f: nat): State
    requires f < |s.flushes|
  {
    match s.flushes[f]
    case LoadInitial => s.(flushes := s.flushes[f := LoadValue(s.initial)])
    case LoadValue(start) => s.(flushes := s.flushes[f := Exchange(start, s.value)])
    case Exchange(start, seen) =>
      var offset := if start == 0 || seen < start then seen else seen - start;
      if s.initial == start then
        s.(initial := seen, sent := s.sent + offset, flushes := s.flushes[f := Returned(Some(offset))])
      else if s.initial == 0 then
        s.(flushes := s.flushes[f := Returned(Some(0))])
      else
        s.(flushes := s.flushes[f := Returned(None)])
    case Returned(_) => s
  }

  function Step(s: State, m: Move): State
    requires Possible(s, m)
  {
    match m
    case Inc(i) => IncStep(s, i)
    case Flush(f) => FlushStep(s, f)
  }

  ghost predicate Possibles(s: State, moves: seq<Move>)
    decreases |moves|
  {
    moves == [] || (Possible(s, moves[0]) && Possibles(Step(s, moves[0]), moves[1..]))
  }

  ghost function Run(s: State, moves: seq<Move>): State
    requires Possibles(s, moves)
    decreases |moves|
  {
    if moves == [] then s else Run(Step(s, moves[0]), moves[1..])
  }

  /** Counter and books before the race, with any calls about to start. */
  ghost predicate Starting(s: State) {
    && s.initial <= s.value && s.recorded == s.sent == s.clobbered == 0
    && (forall i :: 0 <= i < |s.incs| ==> s.incs[i].Add?)
    && (forall f :: 0 <= f < |s.flushes| ==> s.flushes[f].LoadInitial?)
  }

  /** What a flush remembers is never ahead of the value. */
  ghost predicate FlushSound(s: State, pc: FlushPc) {
    match pc
    case LoadValue(start) => start <= s.value
    case Exchange(start, seen) => start <= seen <= s.value
    case _ => true
  }

  ghost predicate Inv(s: State, v0: nat, i0: nat, quiet: bool) {
    && s.initial <= s.value && i0 <= v0 <= s.value
    && (forall f :: 0 <= f < |s.flushes| ==> FlushSound(s, s.flushes[f]))
    && s.sent + (s.value - s.initial) == s.recorded + (v0 - i0) + s.clobbered
    && (v0 > 0 ==> s.clobbered == 0 && forall i :: 0 <= i < |s.incs| ==> !s.incs[i].Reset?)
    && (v0 == 0 && |s.flushes| == 0 ==> s.clobbered == s.initial == 0)
    && (v0 == 0 && quiet ==> NoHits(s.incs) && s.clobbered == s.value == 0)
  }

  /** No increment still has anything to add. */
  ghost predicate NoHits(incs: seq<IncPc>) {
    forall i :: 0 <= i < |incs| && incs[i].Add? ==> incs[i].delta == 0
  }

  ghost predicate Balanced(s: State, r: State) {
    r.sent + r.value + s.initial == r.recorded + s.value + r.initial
  }

  lemma {:induction false} IncKeepsInv(s: State, i: nat, v0: nat, i0: nat, quiet: bool)
    requires Inv(s, v0, i0, quiet) && i < |s.incs|
    ensures Inv(IncStep(s, i), v0, i0, quiet)
  {
    var r := IncStep(s, i);
    forall f | 0 <= f < |r.flushes|
      ensures FlushSound(r, r.flushes[f])
    {
      assert FlushSound(s, s.flushes[f]);
    }
  }

  lemma {:induction false} FlushKeepsInv(s: State, f: nat, v0: nat, i0: nat, quiet: bool)
    requires Inv(s, v0, i0, quiet) && f < |s.flushes|
    ensures Inv(FlushStep(s, f), v0, i0, quiet)
  {
    var r := FlushStep(s, f);
    assert FlushSound(s, s.flushes[f]);
    forall g | 0 <= g < |r.flushes|
      ensures FlushSound(r, r.flushes[g])
    {
      assert g != f ==> r.flushes[g] == s.flushes[g] && FlushSound(s, s.flushes[g]);
    }
  }

  lemma {:induction false} StepKeepsInv(s: State, m: Move, v0: nat, i0: nat, quiet: bool)
    requires Inv(s, v0, i0, quiet) && Possible(s, m)
    ensures Inv(Step(s, m), v0, i0, quiet)
  {
    match m
    case Inc(i) => IncKeepsInv(s, i, v0, i0, quiet);
    case Flush(f) => FlushKeepsInv(s, f, v0, i0, quiet);
  }

  lemma {:induction false} RunKeepsInv(s: State, moves: seq<Move>, v0: nat, i0: nat, quiet: bool)
    requires Inv(s, v0, i0, quiet) && Possibles(s, moves)
    ensures Inv(Run(s, moves), v0, i0, quiet)
    decreases |moves|
  {
    if moves == [] {
    } else {
      StepKeepsInv(s, moves[0], v0, i0, quiet);
      RunKeepsInv(Step(s, moves[0]), moves[1..], v0, i0, quiet);
    }
  }

  /**
   However flushes and increments interleave on a counter that is not zero, no
   write is lost and none is sent twice: what flushes returned plus what is still
   pending is what was pending plus what was recorded.
   */
  lemma {:induction false} FlushesNeitherLoseNorRepeat(s: State, moves: seq<Move>)
    requires Starting(s) && s.value > 0 && Possibles(s, moves)
    ensures Balanced(s, Run(s, moves))
  {
    RunKeepsInv(s, moves, s.value, s.initial, NoHits(s.incs));
  }

  /** From any counter, the balance is off by exactly the initial values that resets overwrote. */
  lemma {:induction false} FlushImbalance(s: State, moves: seq<Move>)
    requires Starting(s) && Possibles(s, moves)
    ensures var r := Run(s, moves);
            r.sent + (r.value - r.initial) == r.recorded + (s.value - s.initial) + r.clobbered
  {
    RunKeepsInv(s, moves, s.value, s.initial, NoHits(s.incs));
  }

  /** On a zero counter, a flush between an increment's add and its reset makes the next one send it again. */
  lemma {:induction false} ZeroCounterCanSendTwice(s: State, i: nat, f: nat) returns (moves: seq<Move>)
    requires Starting(s) && s.value == 0 && i < |s.incs| && f < |s.flushes| && s.incs[i].delta > 0
    ensures Possibles(s, moves) && !Balanced(s, Run(s, moves))
  {
    var added := Step(s, Inc(i));
    var flushed := Flushed(added, f);
    var reset := Step(flushed, Inc(i));
    assert added.incs[i].Reset? && added.value == s.incs[i].delta && added.initial == 0;
    RunCons(flushed, Inc(i), []);
    WholeFlush(added, f, [Inc(i)] + []);
    var rest := [Flush(f)] + ([Flush(f)] + ([Flush(f)] + ([Inc(i)] + [])));
    RunCons(s, Inc(i), rest);
    moves := [Inc(i)] + rest;
    assert Run(s, moves) == Run(reset, []) == reset;
  }

  /**
   Every interleaving balances exactly when the counter starts above zero, or
   nothing flushes it, or nothing is added to it.
   */
  lemma {:induction false} EveryInterleavingBalancesIff(s: State)
    requires Starting(s)
    ensures (forall moves | Possibles(s, moves) :: Balanced(s, Run(s, moves)))
            <==> s.value > 0 || |s.flushes| == 0 || NoHits(s.incs)
  {
    if s.value > 0 || |s.flushes| == 0 || NoHits(s.incs) {
      forall moves | Possibles(s, moves)
        ensures Balanced(s, Run(s, moves))
      {
        RunKeepsInv(s, moves, s.value, s.initial, NoHits(s.incs));
        KeepsFlushes(s, moves);
      }
    } else {
      var i :| 0 <= i < |s.incs| && s.incs[i].Add? && s.incs[i].delta != 0;
      var moves := ZeroCounterCanSendTwice(s, i, 0);
      assert Possibles(s, moves) && !Balanced(s, Run(s, moves));
    }
  }

  lemma {:induction false} KeepsFlushes(s: State, moves: seq<Move>)
    requires Possibles(s, moves)
    ensures |Run(s, moves).flushes| == |s.flushes|
    decreases |moves|
  {
    if moves == [] {
    } else {
      KeepsFlushes(Step(s, moves[0]), moves[1..]);
    }
  }

  lemma {:induction false} RunCons(s: State, m: Move, rest: seq<Move>)
    requires Possible(s, m) && Possibles(Step(s, m), rest)
    ensures Possibles(s, [m] + rest) && Run(s, [m] + rest) == Run(Step(s, m), rest)
  {
    assert ([m] + rest)[1..] == rest;
  }

  /** The state after a flush nobody interrupted. */
  function Flushed(s: State, f: nat): State
    requires f < |s.flushes| && s.initial <= s.value
  {
    var pending := s.value - s.initial;
    s.(initial := s.value, sent := s.sent + pending, flushes := s.flushes[f := Returned(Some(pending))])
  }

  lemma {:induction false} ThreeStepsFlush(s: State, f: nat)
    requires f < |s.flushes| && s.flushes[f].LoadInitial? && s.initial <= s.value
    ensures var s1 := Step(s, Flush(f));
            var s2 := Step(s1, Flush(f));
            Step(s2, Flush(f)) == Flushed(s, f)
  {
    var s2 := s.(flushes := s.flushes[f := Exchange(s.initial, s.value)]);
    assert Step(Step(s, Flush(f)), Flush(f)) == s2;
    assert s2.flushes[f := Returned(Some(s.value - s.initial))] == s.flushes[f := Returned(Some(s.value - s.initial))];
  }

  /** A flush nobody interrupts sends what is pending. */
  lemma {:induction false} WholeFlush(s: State, f: nat, rest: seq<Move>)
    requires f < |s.flushes| && s.flushes[f].LoadInitial? && s.initial <= s.value && Possibles(Flushed(s, f), rest)
    ensures var moves := [Flush(f)] + ([Flush(f)] + ([Flush(f)] + rest));
            Possibles(s, moves) && Run(s, moves) == Run(Flushed(s, f), rest)
  {
    var s1 := Step(s, Flush(f));
    var s2 := Step(s1, Flush(f));
    ThreeStepsFlush(s, f);
    RunCons(s2, Flush(f), rest);
    RunCons(s1, Flush(f), [Flush(f)] + rest);
    RunCons(s, Flush(f), [Flush(f)] + ([Flush(f)] + rest));
  }

  // ---- What flushes return ----

  function Amount(pc: FlushPc): nat {
    if pc.Returned? && pc.offset.Some? then pc.offset.value else 0
  }

  function SumReturned(flushes: seq<FlushPc>): nat {
    if flushes == [] then 0 else SumReturned(flushes[..|flushes| - 1]) + Amount(flushes[|flushes| - 1])
  }

  lemma {:induction false} SumReturnedWith(flushes: seq<FlushPc>, f: nat, pc: FlushPc)
    requires f < |flushes|
    ensures SumReturned(flushes[f := pc]) + Amount(flushes[f]) == SumReturned(flushes) + Amount(pc)
    decreases |flushes|
  {
    var n := |flushes| - 1;
    if f < n {
      SumReturnedWith(flushes[..n], f, pc);
      assert flushes[f := pc][..n] == flushes[..n][f := pc];
    } else {
      assert flushes[f := pc][..n] == flushes[..n];
    }
  }

  lemma {:induction false} NothingReturned(flushes: seq<FlushPc>)
    requires forall f :: 0 <= f < |flushes| ==> flushes[f].LoadInitial?
    ensures SumReturned(flushes) == 0
    decreases |flushes|
  {
    if flushes == [] {
    } else {
      NothingReturned(flushes[..|flushes| - 1]);
    }
  }

  lemma {:induction false} RunReturns(s: State, moves: seq<Move>)
    requires Possibles(s, moves) && s.sent == SumReturned(s.flushes)
    ensures Run(s, moves).sent == SumReturned(Run(s, moves).flushes)
    decreases |moves|
  {
    if moves == [] {
    } else {
      var next := Step(s, moves[0]);
      if moves[0].Flush? {
        SumReturnedWith(s.flushes, moves[0].f, next.flushes[moves[0].f]);
      }
      RunReturns(next, moves[1..]);
    }
  }

  /** In every interleaving what is booked as sent is exactly what the flushes returned. */
  lemma {:induction false} SentIsWhatFlushesReturned(s: State, moves: seq<Move>)
    requires Starting(s) && Possibles(s, moves)
    ensures Run(s, moves).sent == SumReturned(Run(s, moves).flushes)
  {
    NothingReturned(s.flushes);
    RunReturns(s, moves);
  }

  /** Nothing but a reset moves the initial value under a flush that runs alone. */
  ghost predicate Undisturbed(s: State) {
    && |s.flushes| == 1 && s.flushes[0] != Returned(None)
    && (s.flushes[0].LoadValue? || s.flushes[0].Exchange? ==> s.initial == s.flushes[0].start || s.initial == 0)
  }

  lemma {:induction false} RunStaysUndisturbed(s: State, moves: seq<Move>)
    requires Undisturbed(s) && Possibles(s, moves)
    ensures Undisturbed(Run(s, moves))
    decreases |moves|
  {
    if moves == [] {
    } else {
      RunStaysUndisturbed(Step(s, moves[0]), moves[1..]);
    }
  }

  /** A flush fails to nobody but another flush: whatever increments do, one that runs alone returns its hits. */
  lemma {:induction false} LoneFlushNeverFails(s: State, moves: seq<Move>)
    requires Starting(s) && |s.flushes| == 1 && Possibles(s, moves)
    ensures Returned(None) !in Run(s, moves).flushes
  {
    RunStaysUndisturbed(s, moves);
  }

  // ---- Calls that nobody interrupts ----

  /** The race's counter is the cached value `c`, in its running window. */
  ghost predicate Mirrors(s: State, c: Cached, now: nat) {
    !c.cell.ExpiredAt(now) && s.value == c.cell.value && s.initial == c.initial
  }

  lemma {:induction false} UninterruptedIncIsDelta(s: State, i: nat, c: Cached, window: nat, now: nat)
    requires Mirrors(s, c, now) && i < |s.incs| && s.incs[i].Add? && c.cell.value + s.incs[i].delta < U64
    ensures var r := IncStep(IncStep(s, i), i);
            r.incs[i].Counted? && Mirrors(r, c.Delta(s.incs[i].delta, window, now), now)
  {
  }

  lemma {:induction false} UninterruptedFlushIsTake(s: State, f: nat, c: Cached, now: nat)
    requires Mirrors(s, c, now) && c.initial <= c.cell.value && f < |s.flushes| && s.flushes[f].LoadInitial?
    ensures var r := FlushStep(FlushStep(FlushStep(s, f), f), f);
            r.flushes[f] == Returned(Some(c.Pending(now))) && Mirrors(r, c.Taken(now), now)
  {
    ThreeStepsFlush(s, f);
  }
}
