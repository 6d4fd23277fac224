/**
 What a counter's limit guarantees over whole runs: any sequence of
 check-and-update calls, each over its own list of counters, with a clock that
 never goes back.
 */
module FixedWindow {
  import opened Prelude
  import opened ExpiringCells
  import opened Counters
  import opened InMemory

  datatype Call = Call(counters: seq<Counter>, delta: u64, now: nat)

  ghost predicate AdmitsCall(cells: Cells, call: Call) {
    Admits(cells, call.counters, call.delta, call.now)
  }

  ghost function After(cells: Cells, call: Call): Cells {
    Checked(cells, call.counters, call.delta, call.now)
  }

  ghost function AfterAll(cells: Cells, calls: seq<Call>): Cells
    decreases |calls|
  {
    if calls == [] then cells else AfterAll(After(cells, calls[0]), calls[1..])
  }

  ghost predicate Ordered(calls: seq<Call>, from: nat) {
    && (forall i :: 0 <= i < |calls| ==> from <= calls[i].now)
    && (forall i, j :: 0 <= i <= j < |calls| ==> calls[i].now <= calls[j].now)
  }

  /** Every call that names `k` gives it this limit, and names it once. */
  ghost predicate Governed(calls: seq<Call>, k: CounterKey, max: u64, window: nat) {
    forall i :: 0 <= i < |calls| ==> GovernedCall(calls[i], k, max, window)
  }

  ghost predicate GovernedCall(call: Call, k: CounterKey, max: u64, window: nat) {
    && Distinct(call.counters)
    && forall j :: 0 <= j < |call.counters| && call.counters[j].key == k ==>
         call.counters[j].maxValue == max && call.counters[j].window == window
  }

  /** The cell under `k`; one never written behaves as one that expired long ago. */
  ghost function CellOf(cells: Cells, k: CounterKey): Cell {
    if k in cells then cells[k] else Cell(0, 0)
  }

  /** Hits one call adds to `k`. */
  ghost function HitsOf(cells: Cells, call: Call, k: CounterKey): nat {
    if AdmitsCall(cells, call) && Mentions(call.counters, k) then call.delta else 0
  }

  /** Hits admitted for `k` at times in `[lo, hi)`. */
  ghost function Admitted(cells: Cells, calls: seq<Call>, k: CounterKey, lo: nat, hi: nat): nat
    decreases |calls|
  {
    if calls == [] then 0
    else
      (if lo <= calls[0].now < hi then HitsOf(cells, calls[0], k) else 0)
      + Admitted(After(cells, calls[0]), calls[1..], k, lo, hi)
  }

  /**
   One call seen from one counter: nothing happens to it, an empty window opens,
   or it is hit, and then its exact new value is within its limit.
   */
  lemma {:induction false} CallOnCell(cells: Cells, call: Call, k: CounterKey, max: u64, window: nat)
    requires GovernedCall(call, k, max, window) && max < U64 - 1
    ensures var before, after := CellOf(cells, k), CellOf(After(cells, call), k);
            if AdmitsCall(cells, call) && Mentions(call.counters, k) then
              && after == before.Update(call.delta, window, call.now)
              && before.ValueAt(call.now) + call.delta <= max
            else
              after == before || (before.ExpiredAt(call.now) && after == Cell(0, call.now + window))
  {
    var cs := call.counters;
    if Mentions(cs, k) {
      var i :| 0 <= i < |cs| && cs[i].key == k;
      if AdmitsCall(cells, call) {
        UpdatedAllAt(cells, cs, call.delta, call.now, i);
        assert !Over(cells, cs[i], call.delta, call.now);
      } else {
        OpenedReadsSame(cells, cs, call.now);
      }
    } else if AdmitsCall(cells, call) {
      UpdatedAllElsewhere(cells, cs, call.delta, call.now, k);
    } else {
      OpenedElsewhere(cells, cs, call.now, k);
    }
  }

  /**
   The limit holds at every moment of every run, and no increment ever wraps: the
   value read after the run is at most `max`.
   */
  lemma {:induction false} ValueStaysWithinLimit(cells: Cells, calls: seq<Call>, k: CounterKey, max: u64, window: nat)
    requires max < U64 - 1 && Governed(calls, k, max, window) && CellOf(cells, k).value <= max
    ensures CellOf(AfterAll(cells, calls), k).value <= max
    ensures forall t :: ReadAt(AfterAll(cells, calls), k, t) <= max
    decreases |calls|
  {
    if calls == [] {
    } else {
      assert GovernedCall(calls[0], k, max, window);
      CallOnCell(cells, calls[0], k, max, window);
      ValueStaysWithinLimit(After(cells, calls[0]), calls[1..], k, max, window);
    }
  }

  /** How many more hits `[lo, hi)` can still see, given the counter's cell. */
  ghost function Room(c: Cell, now: nat, max: nat, lo: nat, hi: nat): int {
    if c.ExpiredAt(now) then (if lo <= now then max else 2 * max)
    else if c.expiry <= lo then 2 * max
    else (max - c.value) + if c.expiry < hi then max else 0
  }

  lemma {:induction false} RoomCoversCall(c: Cell, c': Cell, from: nat, now: nat, delta: nat, max: nat, window: nat, lo: nat, hi: nat)
    requires from <= now && hi <= lo + window && c.value <= max < U64
    requires || (c' == c && delta == 0)
             || (c.ExpiredAt(now) && c' == Cell(0, now + window) && delta == 0)
             || (c.ValueAt(now) + delta <= max && c' == c.Update(delta, window, now))
    ensures (if lo <= now < hi then delta else 0) + (if now < hi then Room(c', now, max, lo, hi) else 0)
            <= Room(c, from, max, lo, hi)
  {
  }

  lemma {:induction false} RoomCoversRun(
    cells: Cells, calls: seq<Call>, k: CounterKey, max: u64, window: nat, from: nat, lo: nat, hi: nat)
    requires max < U64 - 1 && Governed(calls, k, max, window) && Ordered(calls, from)
    requires CellOf(cells, k).value <= max && hi <= lo + window
    ensures Admitted(cells, calls, k, lo, hi) <= if from < hi then Room(CellOf(cells, k), from, max, lo, hi) else 0
    decreases |calls|
  {
    if calls == [] {
    } else {
      var call, rest := calls[0], calls[1..];
      assert GovernedCall(call, k, max, window);
      CallOnCell(cells, call, k, max, window);
      var c, c' := CellOf(cells, k), CellOf(After(cells, call), k);
      RoomCoversCall(c, c', from, call.now, HitsOf(cells, call, k), max, window, lo, hi);
      forall i, j | 0 <= i <= j < |rest|
        ensures call.now <= rest[i].now <= rest[j].now
      {
        assert rest[i] == calls[i + 1] && rest[j] == calls[j + 1];
      }
      assert Ordered(rest, call.now);
      RoomCoversRun(After(cells, call), rest, k, max, window, call.now, lo, hi);
    }
  }

  /**
   Over every run, any half-open interval no longer than the window sees at most
   twice the limit, whatever other counters the calls name.
   */
  lemma {:induction false} AtMostTwiceTheLimitPerWindow(cells: Cells, calls: seq<Call>, k: CounterKey, max: u64, window: nat, lo: nat, hi: nat)
    requires max < U64 - 1 && Governed(calls, k, max, window) && Ordered(calls, 0)
    requires CellOf(cells, k).value <= max && hi <= lo + window
    ensures Admitted(cells, calls, k, lo, hi) <= 2 * max
  {
    RoomCoversRun(cells, calls, k, max, window, 0, lo, hi);
  }

  /** The bound is tight: a window's worth at its very end, then another at the start of the next. */
  lemma {:induction false} TwiceTheLimitIsReached(k: CounterKey, max: u64, window: nat)
    requires window > 1 && max < U64 - 1
    ensures var c := Counter(k, max, window, None, None, None);
            var calls := [Call([c], 0, 0), Call([c], max, window - 1), Call([c], max, window)];
            Admitted(map[], calls, k, window - 1, 2 * window - 1) == 2 * max
  {
    var c := Counter(k, max, window, None, None, None);
    var a, b, d := Call([c], 0, 0), Call([c], max, window - 1), Call([c], max, window);
    var s0: Cells := map[];
    var s1, s2 := After(s0, a), After(After(s0, a), b);
    assert Mentions([c], k) by { assert [c][0].key == k; }
    assert AdmitsCall(s0, a);
    UpdatedAllAt(s0, [c], 0, 0, 0);
    assert s1[k] == Cell(0, window);
    assert AdmitsCall(s1, b);
    UpdatedAllAt(s1, [c], max, window - 1, 0);
    assert s2[k] == Cell(max, window);
    assert AdmitsCall(s2, d);
    assert [a, b, d][1..] == [b, d] && [b, d][1..] == [d] && [d][1..] == [];
    var lo, hi := window - 1, 2 * window - 1;
    assert Admitted(s2, [d], k, lo, hi) == max;
    assert Admitted(s1, [b, d], k, lo, hi) == 2 * max;
    assert Admitted(s0, [a, b, d], k, lo, hi) == (if lo <= 0 < hi then 0 else 0) + Admitted(s1, [b, d], k, lo, hi);
  }

  /**
   The exact edge of the bound: an admitted hit keeps the sum within the limit
   unless the limit is 2^64 - 1 and the sum overflows, when it is admitted all the
   same and the stored value wraps.
   */
  lemma {:induction false} AdmissionIsExactIff(cells: Cells, c: Counter, delta: u64, now: nat)
    ensures (!Over(cells, c, delta, now) <==> ReadAt(cells, c.key, now) + delta <= c.maxValue)
            <==> !(c.maxValue == U64 - 1 && ReadAt(cells, c.key, now) + delta >= U64)
    ensures c.maxValue == U64 - 1 && ReadAt(cells, c.key, now) + delta >= U64 ==>
              !Over(cells, c, delta, now)
              && Hit(cells, c, delta, now).value == ReadAt(cells, c.key, now) + delta - U64
  {
  }

  /** A counter at the largest limit takes one more hit and starts again from zero. */
  lemma {:induction false} LargestLimitWraps(k: CounterKey)
    ensures var c, cells := Counter(k, U64 - 1, 60, None, None, None), map[k := Cell(U64 - 1, 60)];
            !Over(cells, c, 1, 0) && Hit(cells, c, 1, 0) == Cell(0, 60)
  {
  }
}
