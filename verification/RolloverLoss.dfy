/**
 Which groups of calls can lose hits at a window rollover, whatever the order of
 their atomic operations: exactly those with two calls or more, one of them with
 hits to record.
 */
module RolloverLoss {
  import opened Prelude
  import opened ExpiringCells
  import opened WindowRollover

  /** All hits the calls record. */
  ghost function Total(calls: seq<Call>): nat {
    SumTo(|calls|, DeltaOf(calls))
  }

  ghost function DeltaOf(calls: seq<Call>): nat -> nat {
    (t: nat) => if t < |calls| then calls[t].delta else 0
  }

  ghost function DeltaIfLogged(calls: seq<Call>, log: seq<Event>): nat -> nat {
    (t: nat) => if t < |calls| && Logged(log, t) then calls[t].delta else 0
  }

  ghost predicate DistinctCalls(log: seq<Event>, n: nat) {
    && (forall i :: 0 <= i < |log| ==> log[i].call < n)
    && (forall i, j :: 0 <= i < j < |log| ==> log[i].call != log[j].call)
  }

  lemma {:induction false} LoggedStep(calls: seq<Call>, log: seq<Event>, e: Event, t: nat)
    requires t < |calls| && DistinctCalls(log + [e], |calls|)
    ensures t != e.call ==> DeltaIfLogged(calls, log + [e])(t) == DeltaIfLogged(calls, log)(t)
    ensures t == e.call ==> DeltaIfLogged(calls, log)(t) == 0 && DeltaIfLogged(calls, log + [e])(t) == calls[t].delta
  {
    LoggedGrows(log, e, t);
    assert forall i :: 0 <= i < |log| ==> (log + [e])[i] == log[i] && log[i].call != (log + [e])[|log|].call;
  }

  lemma {:induction false} SumStep(calls: seq<Call>, log: seq<Event>, e: Event)
    requires DistinctCalls(log + [e], |calls|) && e.call < |calls|
    ensures SumTo(|calls|, DeltaIfLogged(calls, log + [e])) == SumTo(|calls|, DeltaIfLogged(calls, log)) + calls[e.call].delta
  {
    var f, g := DeltaIfLogged(calls, log), DeltaIfLogged(calls, log + [e]);
    forall t: nat | t < |calls|
      ensures t != e.call ==> f(t) == g(t)
      ensures t == e.call ==> f(t) == 0 && g(t) == calls[t].delta
    {
      LoggedStep(calls, log, e, t);
    }
    SumToChange(|calls|, f, g, e.call);
  }

  lemma {:induction false} DeltasAreASum(calls: seq<Call>, log: seq<Event>)
    requires DistinctCalls(log, |calls|)
    ensures Deltas(calls, log) == SumTo(|calls|, DeltaIfLogged(calls, log))
    decreases |log|
  {
    if log == [] {
      SumToZero(|calls|, DeltaIfLogged(calls, log));
    } else {
      var front, last := log[..|log| - 1], log[|log| - 1];
      assert log == front + [last];
      SumStep(calls, front, last);
      DeltasAreASum(calls, front);
      assert Deltas(calls, log) == Deltas(calls, front) + calls[last.call].delta;
    }
  }

  /** Once every call has finished, the writes logged are all the hits. */
  lemma {:induction false} FinishedLogsAll(calls: seq<Call>, s: State)
    requires |s.pcs| == |calls| && LogMatches(s) && Finished(s)
    ensures Deltas(calls, s.log) == Total(calls)
  {
    DeltasAreASum(calls, s.log);
    SumToAgree(|calls|, DeltaIfLogged(calls, s.log), DeltaOf(calls));
  }

  // ---- A schedule that loses hits ----

  lemma {:induction false} RunConcat(calls: seq<Call>, s: State, a: seq<nat>, b: seq<nat>)
    requires |calls| == |s.pcs| && Schedules(a, |calls|) && Schedules(b, |calls|)
    ensures Schedules(a + b, |calls|)
    ensures Run(calls, s, a + b) == Run(calls, Run(calls, s, a), b)
    decreases |a|
  {
    if a == [] {
      assert a + b == b;
    } else {
      RunConcat(calls, Step(calls, s, a[0]), a[1..], b);
      assert (a + b)[1..] == a[1..] + b;
    }
  }

  /** The window is open for every call, and nobody is halfway through a rollover. */
  ghost predicate Open(calls: seq<Call>, s: State) {
    && |s.pcs| == |calls|
    && (forall i :: 0 <= i < |calls| ==> (s.pcs[i].Load? || s.pcs[i].Done?) && calls[i].when < s.cell.expiry)
  }

  /** Let the calls below `n` finish, one after the other. */
  function FinishUpTo(n: nat): seq<nat> {
    if n == 0 then [] else FinishUpTo(n - 1) + [n - 1, n - 1]
  }

  lemma {:induction false} FinishOne(calls: seq<Call>, s: State, t: nat)
    requires Open(calls, s) && t < |calls|
    ensures Schedules([t, t], |calls|)
    ensures var r := Run(calls, s, [t, t]);
            && Open(calls, r) && r.pcs == s.pcs[t := Done] && s.log <= r.log
  {
    var mid := Step(calls, s, t);
    assert [t, t][1..] == [t] && [t][1..] == [];
    assert Run(calls, s, [t, t]) == Run(calls, mid, [t]) == Step(calls, mid, t);
    if s.pcs[t].Load? {
      assert mid.pcs[t].Add?;
    } else {
      assert s.pcs[t := Done] == s.pcs;
    }
  }

  lemma {:induction false} FinishAll(calls: seq<Call>, s: State, n: nat)
    requires Open(calls, s) && n <= |calls|
    ensures Schedules(FinishUpTo(n), |calls|)
    ensures var r := Run(calls, s, FinishUpTo(n));
            && Open(calls, r) && s.log <= r.log
            && forall i :: 0 <= i < n ==> r.pcs[i].Done?
    decreases n
  {
    if n == 0 {
    } else {
      FinishAll(calls, s, n - 1);
      var mid := Run(calls, s, FinishUpTo(n - 1));
      FinishOne(calls, mid, n - 1);
      RunConcat(calls, s, FinishUpTo(n - 1), [n - 1, n - 1]);
    }
  }

  /** `w` opens the new window, `t` adds to it, and only then does `w` store. */
  lemma {:induction false} Overtake(calls: seq<Call>, cell: Cell, w: nat, t: nat)
    requires AllInNewWindow(calls, cell) && w < |calls| && t < |calls| && w != t
    ensures Schedules([w, w, t, t, w], |calls|)
    ensures var s := Run(calls, Start(calls, cell), [w, w, t, t, w]);
            Open(calls, s) && s.log == [Added(t), Stored(w)]
  {
    var s0 := Start(calls, cell);
    var s1 := Step(calls, s0, w);
    var s2 := Step(calls, s1, w);
    assert s2.pcs[w].Store? && s2.pcs[t].Load? && s2.cell.expiry == calls[w].when + calls[w].ttl;
    var s3 := Step(calls, s2, t);
    assert s3.pcs[t].Add?;
    var s4 := Step(calls, s3, t);
    assert s4.log == [Added(t)] && s4.pcs[w].Store?;
    var s5 := Step(calls, s4, w);
    assert s5.log == [Added(t), Stored(w)];
    FiveSteps(calls, s0, w, t);
  }

  lemma {:induction false} FiveSteps(calls: seq<Call>, s: State, w: nat, t: nat)
    requires |s.pcs| == |calls| && w < |calls| && t < |calls|
    ensures Schedules([w, w, t, t, w], |calls|)
    ensures Run(calls, s, [w, w, t, t, w]) ==
            Step(calls, Step(calls, Step(calls, Step(calls, Step(calls, s, w), w), t), t), w)
  {
    var a := Step(calls, s, w);
    var b := Step(calls, a, w);
    var c := Step(calls, b, t);
    var d := Step(calls, c, t);
    assert [w, w, t, t, w][1..] == [w, t, t, w] && [w, t, t, w][1..] == [t, t, w];
    assert [t, t, w][1..] == [t, w] && [t, w][1..] == [w] && [w][1..] == [];
    assert Run(calls, s, [w, w, t, t, w]) == Run(calls, a, [w, t, t, w]) == Run(calls, b, [t, t, w]);
    assert Run(calls, b, [t, t, w]) == Run(calls, c, [t, w]) == Run(calls, d, [w]) == Step(calls, d, w);
  }

  lemma {:induction false} LosingSchedule(calls: seq<Call>, cell: Cell, w: nat, t: nat) returns (schedule: seq<nat>)
    requires AllInNewWindow(calls, cell) && w < |calls| && t < |calls| && w != t
    requires calls[t].delta > 0
    ensures Schedules(schedule, |calls|)
    ensures var s := Run(calls, Start(calls, cell), schedule);
            Finished(s) && s.cell.value != Wrap(Total(calls))
  {
    var s0, first := Start(calls, cell), [w, w, t, t, w];
    Overtake(calls, cell, w, t);
    var s1 := Run(calls, s0, first);
    FinishAll(calls, s1, |calls|);
    RunConcat(calls, s0, first, FinishUpTo(|calls|));
    schedule := first + FinishUpTo(|calls|);
    var s := Run(calls, s0, schedule);
    LossIsFinal(calls, cell, schedule, w, t);
  }

  /** Hits written before the winner's store are not in the final value. */
  lemma {:induction false} LossIsFinal(calls: seq<Call>, cell: Cell, schedule: seq<nat>, w: nat, t: nat)
    requires AllInNewWindow(calls, cell) && w < |calls| && t < |calls| && Schedules(schedule, |calls|)
    requires Finished(Run(calls, Start(calls, cell), schedule))
    requires [Added(t), Stored(w)] <= Run(calls, Start(calls, cell), schedule).log
    requires calls[t].delta > 0
    ensures Run(calls, Start(calls, cell), schedule).cell.value != Wrap(Total(calls))
  {
    var s := Run(calls, Start(calls, cell), schedule);
    var v, k := RolloverCountsAllIff(calls, cell, schedule);
    FinishedLogsAll(calls, s);
    assert s.log[1].Stored? && s.log[..1] == [Added(t)] && [Added(t)][..0] == [];
    assert Deltas(calls, s.log[..1]) == calls[t].delta;
  }

  // ---- Exactly when no schedule does ----

  /** In every interleaving that runs to its end, the value is the hits of all calls, modulo 2^64. */
  ghost predicate AlwaysCountsAll(calls: seq<Call>, cell: Cell) {
    forall schedule: seq<nat> | Schedules(schedule, |calls|) ::
      Finished(Run(calls, Start(calls, cell), schedule)) ==>
        Run(calls, Start(calls, cell), schedule).cell.value == Wrap(Total(calls))
  }

  lemma {:induction false} OneCallWritesOnce(log: seq<Event>, k: nat)
    requires DistinctCalls(log, 1) && k < |log|
    ensures k == 0
  {
    var first, other := log[0].call, log[k].call;
  }

  lemma {:induction false} AloneOrIdleCountsAll(calls: seq<Call>, cell: Cell, schedule: seq<nat>)
    requires calls != [] && AllInNewWindow(calls, cell) && Schedules(schedule, |calls|)
    requires |calls| == 1 || forall i :: 0 <= i < |calls| ==> calls[i].delta == 0
    requires Finished(Run(calls, Start(calls, cell), schedule))
    ensures Run(calls, Start(calls, cell), schedule).cell.value == Wrap(Total(calls))
  {
    var s := Run(calls, Start(calls, cell), schedule);
    var w, k := RolloverCountsAllIff(calls, cell, schedule);
    FinishedLogsAll(calls, s);
    if |calls| == 1 {
      OneCallWritesOnce(s.log, k);
      assert s.log[..k] == [];
    } else {
      NoDeltas(calls, s.log[..k]);
    }
  }

  lemma {:induction false} NoDeltas(calls: seq<Call>, log: seq<Event>)
    requires forall i :: 0 <= i < |calls| ==> calls[i].delta == 0
    ensures Deltas(calls, log) == 0
    decreases |log|
  {
    if log == [] {
    } else {
      NoDeltas(calls, log[..|log| - 1]);
    }
  }

  /**
   A rollover counts every hit in every interleaving exactly when there is a single
   call, or none of the calls has hits to record.
   */
  lemma {:induction false} RolloverNeverLosesIff(calls: seq<Call>, cell: Cell)
    requires calls != [] && AllInNewWindow(calls, cell)
    ensures AlwaysCountsAll(calls, cell) <==> |calls| == 1 || forall i :: 0 <= i < |calls| ==> calls[i].delta == 0
  {
    if |calls| == 1 || forall i :: 0 <= i < |calls| ==> calls[i].delta == 0 {
      forall schedule: seq<nat> | Schedules(schedule, |calls|) && Finished(Run(calls, Start(calls, cell), schedule))
        ensures Run(calls, Start(calls, cell), schedule).cell.value == Wrap(Total(calls))
      {
        AloneOrIdleCountsAll(calls, cell, schedule);
      }
    } else {
      var t :| 0 <= t < |calls| && calls[t].delta > 0;
      var schedule := LosingSchedule(calls, cell, if t == 0 then 1 else 0, t);
    }
  }
}
