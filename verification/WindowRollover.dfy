/**
 Threads racing through `AtomicExpiringValue::update` at a window rollover,
 one atomic operation at a time: load the expiry, compare-exchange it, then
 either store the delta or add it.
 */
module WindowRollover {
  import opened Prelude
  import opened ExpiringCells

  datatype Call = Call(delta: u64, ttl: nat, when: nat)

  datatype Pc = Load | Exchange(seen: nat) | Store | Add | Done

  /** The write each finished call made, in the order the writes happened. */
  datatype Event = Stored(call: nat) | Added(call: nat)

  datatype State = State(cell: Cell, pcs: seq<Pc>, log: seq<Event>)

  /** The atomic operation call `t` performs next. */
  function Step(calls: seq<Call>, s: State, t: nat): (r: State)
    requires t < |calls| == |s.pcs|
    ensures |r.pcs| == |s.pcs|
  {
    var call := calls[t];
    match s.pcs[t]
    case Load =>
      s.(pcs := s.pcs[t := if s.cell.expiry <= call.when then Exchange(s.cell.expiry) else Add])
    case Exchange(seen) =>
      if s.cell.expiry == seen then
        s.(pcs := s.pcs[t := Store], cell := s.cell.(expiry := call.when + call.ttl))
      else
        s.(pcs := s.pcs[t := Add])
    case Store =>
      State(s.cell.(value := call.delta), s.pcs[t := Done], s.log + [Stored(t)])
    case Add =>
      State(s.cell.(value := Wrap(s.cell.value + call.delta)), s.pcs[t := Done], s.log + [Added(t)])
    case Done => s
  }

  predicate Schedules(schedule: seq<nat>, n: nat) {
    forall i :: 0 <= i < |schedule| ==> schedule[i] < n
  }

  /** An interleaving: which call moves, at every step. */
  function Run(calls: seq<Call>, s: State, schedule: seq<nat>): (r: State)
    requires |calls| == |s.pcs|
    requires Schedules(schedule, |calls|)
    ensures |r.pcs| == |s.pcs|
    decreases |schedule|
  {
    if schedule == [] then s
    else Run(calls, Step(calls, s, schedule[0]), schedule[1..])
  }

  function Start(calls: seq<Call>, cell: Cell): (s: State)
    ensures |s.pcs| == |calls|
  {
    State(cell, seq(|calls|, _ => Load), [])
  }

  /** Every call starts after the old window's end and before any new window's end. */
  ghost predicate AllInNewWindow(calls: seq<Call>, cell: Cell) {
    && (forall i :: 0 <= i < |calls| ==> cell.ExpiredAt(calls[i].when))
    && (forall i, j :: 0 <= i < |calls| && 0 <= j < |calls| ==>
          calls[i].when < calls[j].when + calls[j].ttl)
  }

  ghost predicate Finished(s: State) {
    forall i :: 0 <= i < |s.pcs| ==> s.pcs[i].Done?
  }

  ghost function Deltas(calls: seq<Call>, log: seq<Event>): nat {
    if log == [] then 0
    else
      var t := log[|log| - 1].call;
      Deltas(calls, log[..|log| - 1]) + if t < |calls| then calls[t].delta else 0
  }

  ghost predicate OnlyAdds(log: seq<Event>) {
    forall i :: 0 <= i < |log| ==> log[i].Added?
  }

  /** The log names each finished call once. */
  ghost predicate LogMatches(s: State) {
    && (forall i :: 0 <= i < |s.log| ==> s.log[i].call < |s.pcs| && s.pcs[s.log[i].call].Done?)
    && (forall i, j :: 0 <= i < j < |s.log| ==> s.log[i].call != s.log[j].call)
    && (forall t :: 0 <= t < |s.pcs| && s.pcs[t].Done? ==> Logged(s.log, t))
  }

  ghost predicate Logged(log: seq<Event>, t: nat) {
    exists i :: 0 <= i < |log| && log[i].call == t
  }

  /** Nobody has won yet: the old window end still stands. */
  ghost predicate NoWinner(calls: seq<Call>, cell: Cell, s: State) {
    && s.cell.expiry == cell.expiry && s.log == []
    && forall i :: 0 <= i < |s.pcs| ==> s.pcs[i].Load? || s.pcs[i] == Exchange(cell.expiry)
  }

  /** Call `w` won the exchange; nobody else can. */
  ghost predicate Winner(calls: seq<Call>, cell: Cell, s: State, w: nat) {
    && w < |calls| == |s.pcs|
    && s.cell.expiry == calls[w].when + calls[w].ttl
    && (s.pcs[w].Store? || s.pcs[w].Done?)
    && (forall i :: 0 <= i < |s.pcs| && i != w ==>
          !s.pcs[i].Store? && (s.pcs[i].Exchange? ==> s.pcs[i].seen == cell.expiry))
    && (s.pcs[w].Store? ==> OnlyAdds(s.log))
    && (s.pcs[w].Done? ==> exists k: nat :: WrittenAt(calls, s, w, k))
  }

  /** The winner's store is the `k`-th write; everything from then on adds up, nothing before it does. */
  ghost predicate WrittenAt(calls: seq<Call>, s: State, w: nat, k: nat) {
    && k < |s.log| && s.log[k] == Stored(w) && w < |calls|
    && OnlyAdds(s.log[..k]) && OnlyAdds(s.log[k + 1..])
    && s.cell.value == Wrap(calls[w].delta + Deltas(calls, s.log[k + 1..]))
  }

  ghost predicate Inv(calls: seq<Call>, cell: Cell, s: State) {
    && |s.pcs| == |calls|
    && LogMatches(s)
    && (NoWinner(calls, cell, s) || exists w: nat :: Winner(calls, cell, s, w))
  }

  lemma {:induction false} AppendKeepsWritten(calls: seq<Call>, s: State, w: nat, k: nat, t: nat, r: State)
    requires WrittenAt(calls, s, w, k) && t < |calls|
    requires r.log == s.log + [Added(t)] && r.cell.value == Wrap(s.cell.value + calls[t].delta)
    ensures WrittenAt(calls, r, w, k)
  {
    assert r.log[..k] == s.log[..k];
    var tail := r.log[k + 1..];
    assert tail == s.log[k + 1..] + [Added(t)];
    assert tail[..|tail| - 1] == s.log[k + 1..];
    WrapAdd(calls[w].delta + Deltas(calls, s.log[k + 1..]), calls[t].delta);
  }

  lemma {:induction false} LoggedGrows(log: seq<Event>, e: Event, t: nat)
    ensures Logged(log + [e], t) <==> Logged(log, t) || e.call == t
  {
    var log' := log + [e];
    if Logged(log, t) {
      var i :| 0 <= i < |log| && log[i].call == t;
      assert log'[i].call == t;
    }
    if e.call == t {
      assert log'[|log|].call == t;
    }
  }

  lemma {:induction false} LogStep(calls: seq<Call>, s: State, t: nat)
    requires t < |calls| == |s.pcs| && LogMatches(s)
    ensures LogMatches(Step(calls, s, t))
  {
    var r := Step(calls, s, t);
    if s.pcs[t].Store? || s.pcs[t].Add? {
      var e := r.log[|s.log|];
      assert r.log == s.log + [e] && r.pcs == s.pcs[t := Done] && e.call == t;
      forall u | 0 <= u < |r.pcs| && r.pcs[u].Done?
        ensures Logged(r.log, u)
      {
        LoggedGrows(s.log, e, u);
      }
    } else {
      assert r.log == s.log && forall u :: 0 <= u < |s.pcs| ==> r.pcs[u].Done? == s.pcs[u].Done?;
    }
  }

  lemma {:induction false} NoWinnerStep(calls: seq<Call>, cell: Cell, s: State, t: nat)
    requires t < |calls| == |s.pcs| && AllInNewWindow(calls, cell) && NoWinner(calls, cell, s)
    ensures var r := Step(calls, s, t);
            NoWinner(calls, cell, r) || Winner(calls, cell, r, t)
  {
  }

  lemma {:induction false} WinnerWrites(calls: seq<Call>, cell: Cell, s: State, w: nat)
    requires Winner(calls, cell, s, w) && s.pcs[w].Store?
    ensures Winner(calls, cell, Step(calls, s, w), w)
  {
    var r := Step(calls, s, w);
    assert r.log[..|s.log|] == s.log && r.log[|s.log| + 1..] == [];
    assert WrittenAt(calls, r, w, |s.log|);
  }

  lemma {:induction false} LoserAdds(calls: seq<Call>, cell: Cell, s: State, w: nat, t: nat)
    requires Winner(calls, cell, s, w) && t < |calls| && t != w && s.pcs[t].Add?
    ensures Winner(calls, cell, Step(calls, s, t), w)
  {
    var r := Step(calls, s, t);
    if s.pcs[w].Done? {
      var k: nat :| WrittenAt(calls, s, w, k);
      AppendKeepsWritten(calls, s, w, k, t, r);
    }
  }

  lemma {:induction false} LoserMoves(calls: seq<Call>, cell: Cell, s: State, w: nat, t: nat)
    requires Winner(calls, cell, s, w) && t < |calls| && AllInNewWindow(calls, cell)
    requires s.pcs[t].Load? || s.pcs[t].Exchange?
    ensures Winner(calls, cell, Step(calls, s, t), w)
  {
    var r := Step(calls, s, t);
    assert calls[t].when < calls[w].when + calls[w].ttl;
    assert cell.ExpiredAt(calls[w].when) && calls[w].when < calls[w].when + calls[w].ttl;
    assert r.pcs[t].Add? && r.log == s.log && r.cell == s.cell;
    if s.pcs[w].Done? {
      var k: nat :| WrittenAt(calls, s, w, k);
      assert WrittenAt(calls, r, w, k);
    }
  }

  lemma {:induction false} InvStep(calls: seq<Call>, cell: Cell, s: State, t: nat)
    requires t < |calls| && AllInNewWindow(calls, cell) && Inv(calls, cell, s)
    ensures Inv(calls, cell, Step(calls, s, t))
  {
    LogStep(calls, s, t);
    if NoWinner(calls, cell, s) {
      NoWinnerStep(calls, cell, s, t);
    } else {
      var w: nat :| Winner(calls, cell, s, w);
      match s.pcs[t]
      case Store => WinnerWrites(calls, cell, s, w);
      case Add => LoserAdds(calls, cell, s, w, t);
      case Load => LoserMoves(calls, cell, s, w, t);
      case Exchange(_) => LoserMoves(calls, cell, s, w, t);
      case Done =>
    }
  }

  lemma {:induction false} OneStore(log: seq<Event>, k: nat)
    requires k < |log| && log[k].Stored? && OnlyAdds(log[..k]) && OnlyAdds(log[k + 1..])
    ensures forall i :: 0 <= i < |log| ==> (log[i].Stored? <==> i == k)
  {
    forall i | 0 <= i < |log| && i != k
      ensures log[i].Added?
    {
      if i < k {
        assert log[i] == log[..k][i];
      } else {
        assert log[i] == log[k + 1..][i - k - 1];
      }
    }
  }

  lemma {:induction false} InvRun(calls: seq<Call>, cell: Cell, s: State, schedule: seq<nat>)
    requires AllInNewWindow(calls, cell) && Inv(calls, cell, s)
    requires Schedules(schedule, |calls|)
    ensures Inv(calls, cell, Run(calls, s, schedule))
    decreases |schedule|
  {
    if schedule == [] {
    } else {
      InvStep(calls, cell, s, schedule[0]);
      InvRun(calls, cell, Step(calls, s, schedule[0]), schedule[1..]);
    }
  }

  /**
   Every interleaving of any number of calls across a rollover ends with exactly
   one winner `w`: the window end is the one it set, its store is the only one,
   and the value is its delta plus the deltas written after that store. What the
   old window held is gone.
   */
  lemma {:induction false} RolloverHasOneWinner(calls: seq<Call>, cell: Cell, schedule: seq<nat>) returns (w: nat, k: nat)
    requires calls != [] && AllInNewWindow(calls, cell)
    requires Schedules(schedule, |calls|)
    requires Finished(Run(calls, Start(calls, cell), schedule))
    ensures var s := Run(calls, Start(calls, cell), schedule);
            && LogMatches(s) && WrittenAt(calls, s, w, k)
            && s.cell.expiry == calls[w].when + calls[w].ttl
            && forall i :: 0 <= i < |s.log| ==> (s.log[i].Stored? <==> i == k)
  {
    var s := Run(calls, Start(calls, cell), schedule);
    assert NoWinner(calls, cell, Start(calls, cell));
    InvRun(calls, cell, Start(calls, cell), schedule);
    assert s.pcs[0].Done?;
    w :| Winner(calls, cell, s, w);
    k :| WrittenAt(calls, s, w, k);
    OneStore(s.log, k);
  }

  lemma {:induction false} DeltasSplit(calls: seq<Call>, a: seq<Event>, b: seq<Event>)
    ensures Deltas(calls, a + b) == Deltas(calls, a) + Deltas(calls, b)
    decreases |b|
  {
    if b == [] {
      assert a + b == a;
    } else {
      var ab := a + b;
      assert ab[..|ab| - 1] == a + b[..|b| - 1];
      DeltasSplit(calls, a, b[..|b| - 1]);
    }
  }

  lemma {:induction false} DeltasAround(calls: seq<Call>, log: seq<Event>, k: nat)
    requires k < |log| && log[k].call < |calls|
    ensures Deltas(calls, log) ==
            Deltas(calls, log[..k]) + calls[log[k].call].delta + Deltas(calls, log[k + 1..])
  {
    assert log == log[..k + 1] + log[k + 1..];
    DeltasSplit(calls, log[..k + 1], log[k + 1..]);
    assert log[..k + 1][..k] == log[..k];
  }

  lemma {:induction false} LostBeforeStore(calls: seq<Call>, s: State, w: nat, k: nat)
    requires WrittenAt(calls, s, w, k)
    ensures Wrap(s.cell.value + Deltas(calls, s.log[..k])) == Wrap(Deltas(calls, s.log))
    ensures s.cell.value == Wrap(Deltas(calls, s.log)) <==> Wrap(Deltas(calls, s.log[..k])) == 0
  {
    DeltasAround(calls, s.log, k);
    KeptAndLost(calls[w].delta + Deltas(calls, s.log[k + 1..]), Deltas(calls, s.log[..k]));
  }

  lemma {:induction false} KeptAndLost(kept: nat, lost: nat)
    ensures Wrap(Wrap(kept) + lost) == Wrap(lost + kept)
    ensures Wrap(kept) == Wrap(lost + kept) <==> Wrap(lost) == 0
  {
    WrapAdd(kept, lost);
    WrapCancels(kept, lost);
  }

  /**
   The rollover counts every hit, modulo 2^64 as the counter does, exactly when the
   calls that wrote between the winner's exchange and its store added nothing:
   those, and only those, are lost.
   */
  lemma {:induction false} RolloverCountsAllIff(calls: seq<Call>, cell: Cell, schedule: seq<nat>) returns (w: nat, k: nat)
    requires calls != [] && AllInNewWindow(calls, cell)
    requires Schedules(schedule, |calls|)
    requires Finished(Run(calls, Start(calls, cell), schedule))
    ensures var s := Run(calls, Start(calls, cell), schedule);
            && LogMatches(s) && WrittenAt(calls, s, w, k)
            && (forall i :: 0 <= i < |s.log| ==> (s.log[i].Stored? <==> i == k))
            && Wrap(s.cell.value + Deltas(calls, s.log[..k])) == Wrap(Deltas(calls, s.log))
            && (s.cell.value == Wrap(Deltas(calls, s.log)) <==> Wrap(Deltas(calls, s.log[..k])) == 0)
  {
    w, k := RolloverHasOneWinner(calls, cell, schedule);
    LostBeforeStore(calls, Run(calls, Start(calls, cell), schedule), w, k);
  }

  /** Two calls, the loser adding before the winner's store: its 5 hits vanish. */
  lemma {:induction false} RolloverCanLoseHits()
    ensures var calls := [Call(3, 10, 100), Call(5, 10, 100)];
            var s := Run(calls, Start(calls, Cell(7, 100)), [0, 0, 1, 1, 0]);
            && AllInNewWindow(calls, Cell(7, 100)) && Finished(s)
            && s.log == [Added(1), Stored(0)] && s.cell == Cell(3, 110)
  {
    var calls := [Call(3, 10, 100), Call(5, 10, 100)];
    var s0 := Start(calls, Cell(7, 100));
    assert s0.pcs == [Load, Load];
    var s1 := Step(calls, s0, 0);
    var s2 := Step(calls, s1, 0);
    var s3 := Step(calls, s2, 1);
    var s4 := Step(calls, s3, 1);
    var s5 := Step(calls, s4, 0);
    assert s5 == State(Cell(3, 110), [Done, Done], [Added(1), Stored(0)]);
    calc {
      Run(calls, s0, [0, 0, 1, 1, 0]);
      { assert [0, 0, 1, 1, 0][1..] == [0, 1, 1, 0]; }
      Run(calls, s1, [0, 1, 1, 0]);
      { assert [0, 1, 1, 0][1..] == [1, 1, 0]; }
      Run(calls, s2, [1, 1, 0]);
      { assert [1, 1, 0][1..] == [1, 0]; }
      Run(calls, s3, [1, 0]);
      { assert [1, 0][1..] == [0]; }
      Run(calls, s4, [0]);
      { assert [0][1..] == []; }
      Run(calls, s5, []);
    }
  }

  /** A call that nobody interrupts does what `Cell.Update` says, window ended or not. */
  lemma {:induction false} UninterruptedCallIsUpdate(call: Call, cell: Cell)
    ensures var s := Run([call], Start([call], cell), [0, 0, 0]);
            s.cell == cell.Update(call.delta, call.ttl, call.when) && s.pcs == [Done]
  {
    var calls := [call];
    var s0 := Start(calls, cell);
    assert s0.pcs == [Load];
    var s1 := Step(calls, s0, 0);
    var s2 := Step(calls, s1, 0);
    var s3 := Step(calls, s2, 0);
    calc {
      Run(calls, s0, [0, 0, 0]);
      { assert [0, 0, 0][1..] == [0, 0]; }
      Run(calls, s1, [0, 0]);
      { assert [0, 0][1..] == [0]; }
      Run(calls, s2, [0]);
      { assert [0][1..] == []; }
      Run(calls, s3, []);
    }
  }
}
