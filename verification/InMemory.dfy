/**
 The in-memory counter storage: check, update and check-and-update over any
 list of distinct counters. One map holds both the simple counters (no
 variables) and the qualified ones; each call reads the clock once.
 */
module InMemory {
  import opened Prelude
  import opened ExpiringCells
  import opened Counters

  type Cells = map<CounterKey, Cell>

  /** What reading a counter yields: a counter never seen, or one whose window ended, reads 0. */
  function ReadAt(cells: Cells, k: CounterKey, now: nat): u64 {
    if k in cells then cells[k].ValueAt(now) else 0
  }

  function WindowLeft(cells: Cells, c: Counter, now: nat): nat {
    var ttl := if c.key in cells then cells[c.key].Ttl(now) else c.window;
    if ttl == 0 then c.window else ttl
  }

  function Annotated(cells: Cells, c: Counter, now: nat): Counter {
    c.(remaining := Some(SaturatingSub(c.maxValue, ReadAt(cells, c.key, now))),
       expiresIn := Some(WindowLeft(cells, c, now)))
  }

  /** `delta` more would push the counter past its limit, in saturating arithmetic. */
  predicate Over(cells: Cells, c: Counter, delta: u64, now: nat) {
    c.maxValue < SaturatingAdd(ReadAt(cells, c.key, now), delta)
  }

  ghost predicate Admits(cells: Cells, cs: seq<Counter>, delta: u64, now: nat) {
    forall i :: 0 <= i < |cs| ==> !Over(cells, cs[i], delta, now)
  }

  /** The cell a hit leaves behind. */
  function Hit(cells: Cells, c: Counter, delta: u64, now: nat): Cell {
    if c.key in cells then cells[c.key].Update(delta, c.window, now)
    else if c.key.IsQualified() then Cell(0, now + c.window).Update(delta, c.window, now)
    else Cell(delta, now + c.window)
  }

  function Updated(cells: Cells, c: Counter, delta: u64, now: nat): Cells {
    cells[c.key := Hit(cells, c, delta, now)]
  }

  function UpdatedAll(cells: Cells, cs: seq<Counter>, delta: u64, now: nat): Cells
    decreases |cs|
  {
    if cs == [] then cells
    else UpdatedAll(Updated(cells, cs[0], delta, now), cs[1..], delta, now)
  }

  /** Qualified counters met for the first time get an empty window, admitted or not. */
  function Opened(cells: Cells, cs: seq<Counter>, now: nat): Cells {
    if cs == [] then cells
    else
      var before := Opened(cells, cs[..|cs| - 1], now);
      var c := cs[|cs| - 1];
      if c.key.IsQualified() && c.key !in before then before[c.key := Cell(0, now + c.window)] else before
  }

  ghost predicate SameAt(a: Cells, b: Cells, k: CounterKey) {
    (k in a) == (k in b) && (k in a ==> a[k] == b[k])
  }

  /** Updating all counters of a list leaves every other cell alone. */
  lemma {:induction false} UpdatedAllElsewhere(cells: Cells, cs: seq<Counter>, delta: u64, now: nat, k: CounterKey)
    requires forall i :: 0 <= i < |cs| ==> cs[i].key != k
    ensures SameAt(UpdatedAll(cells, cs, delta, now), cells, k)
    decreases |cs|
  {
    if cs == [] {
    } else {
      UpdatedAllElsewhere(Updated(cells, cs[0], delta, now), cs[1..], delta, now, k);
    }
  }

  /** For distinct counters, updating all of them hits each cell once. */
  lemma {:induction false} UpdatedAllAt(cells: Cells, cs: seq<Counter>, delta: u64, now: nat, i: nat)
    requires Distinct(cs) && i < |cs|
    ensures var r := UpdatedAll(cells, cs, delta, now);
            cs[i].key in r && r[cs[i].key] == Hit(cells, cs[i], delta, now)
    decreases |cs|
  {
    var next := Updated(cells, cs[0], delta, now);
    if i == 0 {
      UpdatedAllElsewhere(next, cs[1..], delta, now, cs[0].key);
    } else {
      assert cs[1..][i - 1] == cs[i];
      UpdatedAllAt(next, cs[1..], delta, now, i - 1);
    }
  }

  lemma {:induction false} OpenedSnoc(cells: Cells, cs: seq<Counter>, i: nat, now: nat)
    requires i < |cs|
    ensures var before, c := Opened(cells, cs[..i], now), cs[i];
            Opened(cells, cs[..i + 1], now) ==
            if c.key.IsQualified() && c.key !in before then before[c.key := Cell(0, now + c.window)] else before
  {
    assert cs[..i + 1][..i] == cs[..i];
  }

  /** Opening windows leaves the cells of other counters alone. */
  lemma {:induction false} OpenedElsewhere(cells: Cells, cs: seq<Counter>, now: nat, k: CounterKey)
    requires forall i :: 0 <= i < |cs| ==> cs[i].key != k
    ensures SameAt(Opened(cells, cs, now), cells, k)
    decreases |cs|
  {
    if cs == [] {
    } else {
      OpenedElsewhere(cells, cs[..|cs| - 1], now, k);
    }
  }

  /** Opening windows changes nothing a reader can see. */
  lemma {:induction false} OpenedReadsSame(cells: Cells, cs: seq<Counter>, now: nat)
    ensures var r := Opened(cells, cs, now);
            && (forall k :: k in cells ==> k in r && r[k] == cells[k])
            && (forall k :: k in r && k !in cells ==>
                  k.IsQualified() && exists i :: 0 <= i < |cs| && cs[i].key == k && r[k] == Cell(0, now + cs[i].window))
            && (forall k, t :: ReadAt(r, k, t) == ReadAt(cells, k, t))
    decreases |cs|
  {
    if cs == [] {
    } else {
      var front := cs[..|cs| - 1];
      OpenedReadsSame(cells, front, now);
      var before, r := Opened(cells, front, now), Opened(cells, cs, now);
      forall k | k in r && k !in cells
        ensures k.IsQualified() && exists i :: 0 <= i < |cs| && cs[i].key == k && r[k] == Cell(0, now + cs[i].window)
      {
        if k in before {
          var i :| 0 <= i < |front| && front[i].key == k && before[k] == Cell(0, now + front[i].window);
          assert cs[i].key == k && r[k] == Cell(0, now + cs[i].window);
        } else {
          assert cs[|cs| - 1].key == k;
        }
      }
    }
  }

  /** Hitting a cell just opened is hitting one that was never there. */
  lemma {:induction false} HitOpened(cells: Cells, cs: seq<Counter>, delta: u64, now: nat, i: nat)
    requires Distinct(cs) && i < |cs|
    ensures Hit(Opened(cells, cs, now), cs[i], delta, now) == Hit(cells, cs[i], delta, now)
  {
    OpenedReadsSame(cells, cs, now);
    var r, k := Opened(cells, cs, now), cs[i].key;
    if k in r && k !in cells {
      var j :| 0 <= j < |cs| && cs[j].key == k && r[k] == Cell(0, now + cs[j].window);
      assert i == j;
    }
  }

  /** The store a whole check-and-update call leaves behind. */
  ghost function Checked(cells: Cells, cs: seq<Counter>, delta: u64, now: nat): Cells {
    if Admits(cells, cs, delta, now) then UpdatedAll(cells, cs, delta, now) else Opened(cells, cs, now)
  }

  /** The store the two-phase form leaves behind. */
  ghost function TwoPhase(cells: Cells, cs: seq<Counter>, delta: u64, now: nat): Cells {
    if Admits(cells, cs, delta, now) then UpdatedAll(cells, cs, delta, now) else cells
  }

  /**
   The single-pass check-and-update refines evaluate-then-update: the same store
   when admitted, and when denied a store in which every counter reads the same
   at every time.
   */
  lemma {:induction false} SinglePassRefinesTwoPhase(cells: Cells, cs: seq<Counter>, delta: u64, now: nat)
    ensures Admits(cells, cs, delta, now) ==>
              Checked(cells, cs, delta, now) == TwoPhase(cells, cs, delta, now)
    ensures !Admits(cells, cs, delta, now) ==>
              forall k, t :: ReadAt(Checked(cells, cs, delta, now), k, t) == ReadAt(TwoPhase(cells, cs, delta, now), k, t)
  {
    OpenedReadsSame(cells, cs, now);
  }

  // ---- What a call reports ----

  /** A counter's window runs: it has a cell that has not ended. */
  ghost predicate WindowRuns(cells: Cells, k: CounterKey, now: nat) {
    k in cells && now < cells[k].expiry
  }

  /**
   The reported time left is the time until the counter reads zero, before which it
   keeps its value; a counter unknown or over is reported with a whole window.
   */
  lemma {:induction false} ReportedEndIsTheWindowsEnd(cells: Cells, c: Counter, now: nat)
    ensures var left := Annotated(cells, c, now).expiresIn;
            if WindowRuns(cells, c.key, now)
            then
              && left.Some? && now + left.value == cells[c.key].expiry
              && forall t: nat :: ReadAt(cells, c.key, t) == if t < now + left.value then cells[c.key].value else 0
            else left == Some(c.window)
  {
  }

  /** The reported remaining and the value read make up the limit, unless the value is past it. */
  lemma {:induction false} ReportedRemainingMakesUpTheLimit(cells: Cells, c: Counter, now: nat)
    ensures var left := Annotated(cells, c, now).remaining;
            left.Some? && if ReadAt(cells, c.key, now) <= c.maxValue then left.value + ReadAt(cells, c.key, now) == c.maxValue
                          else left.value == 0
  {
  }

  /** An admitted call leaves every counter a window that ends when it reported. */
  lemma {:induction false} AdmittedCallEndsAsReported(cells: Cells, cs: seq<Counter>, delta: u64, now: nat, i: nat)
    requires Distinct(cs) && Admits(cells, cs, delta, now) && i < |cs|
    ensures var r := Checked(cells, cs, delta, now);
            cs[i].key in r && Annotated(cells, cs[i], now).expiresIn == Some(r[cs[i].key].expiry - now)
  {
    UpdatedAllAt(cells, cs, delta, now, i);
  }

  ghost predicate AnnotatedAll(cells: Cells, before: seq<Counter>, after: seq<Counter>, now: nat) {
    |after| == |before| && forall i :: 0 <= i < |before| ==> after[i] == Annotated(cells, before[i], now)
  }

  /**
   Every counter a call was given is reported, and as itself: with the end of its window
   and what is left of its limit at the start of the call.
   */
  lemma {:induction false} EveryCounterIsReported(cells: Cells, before: seq<Counter>, after: seq<Counter>, now: nat, i: nat)
    requires AnnotatedAll(cells, before, after, now) && i < |before|
    ensures |after| == |before| && after[i].remaining.Some? && after[i].expiresIn.Some?
    ensures before[i] == after[i].(remaining := before[i].remaining, expiresIn := before[i].expiresIn)
    ensures now + after[i].expiresIn.value ==
            if WindowRuns(cells, before[i].key, now) then cells[before[i].key].expiry else now + before[i].window
    ensures ReadAt(cells, before[i].key, now) <= before[i].maxValue ==>
              after[i].remaining.value + ReadAt(cells, before[i].key, now) == before[i].maxValue
  {
    ReportedEndIsTheWindowsEnd(cells, before[i], now);
    ReportedRemainingMakesUpTheLimit(cells, before[i], now);
  }

  /** `i` is the first counter over its limit, in the order the list gives. */
  ghost predicate FirstOver(cells: Cells, cs: seq<Counter>, delta: u64, now: nat, i: nat) {
    i < |cs| && Over(cells, cs[i], delta, now)
    && forall j :: 0 <= j < i ==> !Over(cells, cs[j], delta, now)
  }

  /** `i` is the first simple counter over its limit, or else the first qualified one. */
  ghost predicate FirstOverSimpleFirst(cells: Cells, cs: seq<Counter>, delta: u64, now: nat, i: nat) {
    i < |cs| && Over(cells, cs[i], delta, now)
    && forall j :: 0 <= j < |cs| && (if cs[i].key.IsQualified() then j < i || !cs[j].key.IsQualified()
                                     else j < i && !cs[j].key.IsQualified()) ==>
         !Over(cells, cs[j], delta, now)
  }

  /** A denial names the counter at which the list stops being admitted. */
  lemma {:induction false} NamesWhereAdmissionStops(cells: Cells, cs: seq<Counter>, delta: u64, now: nat, i: nat)
    requires i < |cs|
    ensures FirstOver(cells, cs, delta, now, i) <==>
            Admits(cells, cs[..i], delta, now) && !Admits(cells, cs[..i + 1], delta, now)
  {
    assert cs[..i + 1] == cs[..i] + [cs[i]];
    forall j | 0 <= j < i
      ensures cs[..i][j] == cs[j] && cs[..i + 1][j] == cs[j]
    {
    }
  }

  /** Or, when nothing is to be loaded, the first over its limit once simple counters are put before qualified ones. */
  lemma {:induction false} NamesTheFirstSimpleFirst(cells: Cells, cs: seq<Counter>, delta: u64, now: nat, i: nat)
    requires i < |cs|
    ensures FirstOverSimpleFirst(cells, cs, delta, now, i) <==>
            && Over(cells, cs[i], delta, now)
            && forall j :: 0 <= j < |cs| && Over(cells, cs[j], delta, now) ==>
                 if cs[i].key.IsQualified() == cs[j].key.IsQualified() then i <= j else cs[j].key.IsQualified()
  {
  }

  class InMemoryStorage {
    var cells: Cells

    constructor ()
      ensures cells == map[]
    {
      cells := map[];
    }

    method UpdateCounter(c: Counter, delta: u64, now: nat)
      modifies this
      ensures cells == Updated(old(cells), c, delta, now)
    {
      if c.key.IsQualified() {
        var cell := if c.key in cells then cells[c.key] else Cell(0, now + c.window);
        cells := cells[c.key := cell.Update(delta, c.window, now)];
      } else if c.key !in cells {
        cells := cells[c.key := Cell(delta, now + c.window)];
      } else {
        cells := cells[c.key := cells[c.key].Update(delta, c.window, now)];
      }
    }

    /** Reads a counter, starting or restarting its window, without changing its value. */
    method Touch(c: Counter, now: nat) returns (value: u64, ttl: nat)
      modifies this
      ensures cells == Updated(old(cells), c, 0, now)
      ensures value == cells[c.key].value && ttl == cells[c.key].Ttl(now)
    {
      var cell := if c.key in cells then cells[c.key] else Cell(0, now + c.window);
      cell := cell.Update(0, c.window, now);
      cells := cells[c.key := cell];
      return cell.value, cell.Ttl(now);
    }

    /**
     Reads every counter, simple ones first, and decides whether `delta` more
     keeps all of them within their limit. Changes no stored value.
     */
    method Evaluate(counters: array<Counter>, delta: u64, now: nat) returns (auth: Authorization)
      modifies counters
      ensures AnnotatedAll(cells, old(counters[..]), counters[..], now)
      ensures auth.Ok? <==> Admits(cells, old(counters[..]), delta, now)
      ensures auth.Limited? ==> exists i: nat ::
                FirstOverSimpleFirst(cells, old(counters[..]), delta, now, i) && auth.name == old(counters[..])[i].name
    {
      ghost var given := counters[..];
      ghost var first := 0;
      auth := Ok;
      for i := 0 to counters.Length
        invariant forall j :: 0 <= j < counters.Length ==>
                    counters[j] == if j < i && !given[j].key.IsQualified() then Annotated(cells, given[j], now) else given[j]
        invariant auth.Ok? ==> forall j :: 0 <= j < i && !given[j].key.IsQualified() ==> !Over(cells, given[j], delta, now)
        invariant auth.Limited? ==>
                    && 0 <= first < i && !given[first].key.IsQualified() && auth.name == given[first].name
                    && FirstOverSimpleFirst(cells, given, delta, now, first)
      {
        var c := counters[i];
        if !c.key.IsQualified() {
          counters[i] := Annotated(cells, c, now);
          if auth.Ok? && Over(cells, c, delta, now) {
            auth := Limited(c.name);
            first := i;
          }
        }
      }
      for i := 0 to counters.Length
        invariant forall j :: 0 <= j < counters.Length ==>
                    counters[j] == if j < i || !given[j].key.IsQualified() then Annotated(cells, given[j], now) else given[j]
        invariant auth.Ok? ==> forall j :: 0 <= j < |given| && (j < i || !given[j].key.IsQualified()) ==>
                    !Over(cells, given[j], delta, now)
        invariant auth.Limited? ==>
                    && 0 <= first < |given| && auth.name == given[first].name
                    && FirstOverSimpleFirst(cells, given, delta, now, first)
      {
        var c := counters[i];
        if c.key.IsQualified() {
          counters[i] := Annotated(cells, c, now);
          if auth.Ok? && Over(cells, c, delta, now) {
            auth := Limited(c.name);
            first := i;
          }
        }
      }
    }

    /** The two-phase form: evaluate first, then update each counter in turn. */
    method CheckThenUpdate(counters: array<Counter>, delta: u64, now: nat) returns (auth: Authorization)
      modifies this, counters
      ensures AnnotatedAll(old(cells), old(counters[..]), counters[..], now)
      ensures auth.Ok? <==> Admits(old(cells), old(counters[..]), delta, now)
      ensures cells == TwoPhase(old(cells), old(counters[..]), delta, now)
    {
      ghost var given := counters[..];
      auth := Evaluate(counters, delta, now);
      if auth.Ok? {
        ghost var start := cells;
        for i := 0 to counters.Length
          invariant AnnotatedAll(start, given, counters[..], now)
          invariant UpdatedAll(cells, given[i..], delta, now) == UpdatedAll(start, given, delta, now)
        {
          assert given[i..][1..] == given[i + 1..];
          assert Updated(cells, counters[i], delta, now) == Updated(cells, given[i], delta, now);
          UpdateCounter(counters[i], delta, now);
        }
      }
    }

    /** Look one counter up, opening its window if it is qualified and new, and annotate it. */
    method AnnotateOne(counters: array<Counter>, i: nat, delta: u64, now: nat) returns (over: bool)
      requires i < counters.Length
      modifies this, counters
      ensures var c := old(counters[i]);
              && over == Over(old(cells), c, delta, now)
              && counters[..] == old(counters[..])[i := Annotated(old(cells), c, now)]
              && cells == if c.key.IsQualified() && c.key !in old(cells)
                          then old(cells)[c.key := Cell(0, now + c.window)] else old(cells)
    {
      var c := counters[i];
      if c.key.IsQualified() && c.key !in cells {
        cells := cells[c.key := Cell(0, now + c.window)];
      }
      over := Over(cells, c, delta, now);
      counters[i] := Annotated(cells, c, now);
    }

    /** The first pass, part one: which kind of cell the second pass will find under each index. */
    method SplitByKind(counters: array<Counter>) returns (simple: seq<nat>, qualified: seq<nat>, missing: seq<nat>)
      ensures simple == Indices(counters[..], cells, counters.Length, 0)
      ensures qualified == Indices(counters[..], cells, counters.Length, 1)
      ensures missing == Indices(counters[..], cells, counters.Length, 2)
    {
      simple, qualified, missing := [], [], [];
      for i := 0 to counters.Length
        invariant simple == Indices(counters[..], cells, i, 0)
        invariant qualified == Indices(counters[..], cells, i, 1)
        invariant missing == Indices(counters[..], cells, i, 2)
      {
        var k := counters[i].key;
        if k.IsQualified() {
          qualified := qualified + [i];
        } else if k in cells {
          simple := simple + [i];
        } else {
          missing := missing + [i];
        }
      }
    }

    /** The first pass, part two: annotate every counter and open the windows of new qualified ones. */
    method Annotate(counters: array<Counter>, delta: u64, now: nat) returns (auth: Authorization)
      requires Distinct(counters[..])
      modifies this, counters
      ensures AnnotatedAll(old(cells), old(counters[..]), counters[..], now)
      ensures auth.Ok? <==> Admits(old(cells), old(counters[..]), delta, now)
      ensures auth.Limited? ==> exists i: nat ::
                FirstOver(old(cells), old(counters[..]), delta, now, i) && auth.name == old(counters[..])[i].name
      ensures cells == Opened(old(cells), old(counters[..]), now)
    {
      ghost var given, start, first := counters[..], cells, 0;
      auth := Ok;
      for i := 0 to counters.Length
        invariant cells == Opened(start, given[..i], now)
        invariant forall j :: 0 <= j < i ==> counters[j] == Annotated(start, given[j], now)
        invariant forall j :: i <= j < counters.Length ==> counters[j] == given[j]
        invariant auth.Ok? ==> forall j :: 0 <= j < i ==> !Over(start, given[j], delta, now)
        invariant auth.Limited? ==> first < i && FirstOver(start, given, delta, now, first) && auth.name == given[first].name
      {
        OpenedSnoc(start, given, i, now);
        OpenedElsewhere(start, given[..i], now, given[i].key);
        AnnotateOpened(start, cells, given[i], delta, now);
        var c := counters[i];
        var over := AnnotateOne(counters, i, delta, now);
        if auth.Ok? && over {
          auth, first := Limited(c.name), i;
        }
      }
      assert given[..counters.Length] == given;
    }

    /**
     Decides and, when every counter admits `delta`, applies it to all of them:
     simple counters first, then qualified ones, then simple ones not there yet.
     */
    method CheckAndUpdate(counters: array<Counter>, delta: u64, now: nat) returns (auth: Authorization)
      requires Distinct(counters[..])
      modifies this, counters
      ensures AnnotatedAll(old(cells), old(counters[..]), counters[..], now)
      ensures auth.Ok? <==> Admits(old(cells), old(counters[..]), delta, now)
      ensures auth.Limited? ==> exists i: nat ::
                FirstOver(old(cells), old(counters[..]), delta, now, i) && auth.name == old(counters[..])[i].name
      ensures cells == Checked(old(cells), old(counters[..]), delta, now)
    {
      ghost var given, start := counters[..], cells;
      var simple, qualified, missing := SplitByKind(counters);
      auth := Annotate(counters, delta, now);
      if auth.Limited? {
        return;
      }
      IndicesSorted(given, start, |given|, 0);
      IndicesSorted(given, start, |given|, 1);
      IndicesSorted(given, start, |given|, 2);
      Apply(counters, delta, now, start, given, {}, simple);
      Apply(counters, delta, now, start, given, Elements(simple), qualified);
      Apply(counters, delta, now, start, given, Elements(simple) + Elements(qualified), missing);
      forall t | 0 <= t < |given|
        ensures t in Elements(simple) + Elements(qualified) + Elements(missing)
      {
        IndicesComplete(given, start, |given|, t);
      }
      AllApplied(cells, start, given, Elements(simple) + Elements(qualified) + Elements(missing), delta, now);
    }

    /** One of the loops of the second pass: hit the counters listed in `order`. */
    method Apply(counters: array<Counter>, delta: u64, now: nat, ghost start: Cells, ghost given: seq<Counter>,
                 ghost done: set<nat>, order: seq<nat>)
      requires Distinct(given) && |given| == counters.Length
      requires forall i :: 0 <= i < |given| ==> counters[i] == Annotated(start, given[i], now)
      requires Applied(cells, start, given, done, delta, now)
      requires forall i :: 0 <= i < |order| ==> order[i] < |given| && order[i] !in done
      requires forall i, j :: 0 <= i < j < |order| ==> order[i] < order[j]
      modifies this
      ensures Applied(cells, start, given, done + Elements(order), delta, now)
    {
      for n := 0 to |order|
        invariant Applied(cells, start, given, done + Elements(order[..n]), delta, now)
      {
        ghost var soFar := done + Elements(order[..n]);
        assert order[n] !in soFar;
        HitStep(cells, start, given, soFar, delta, now, order[n]);
        UpdateCounter(counters[order[n]], delta, now);
        assert order[..n + 1] == order[..n] + [order[n]];
        assert soFar + {order[n]} == done + Elements(order[..n + 1]);
      }
      assert order[..|order|] == order;
    }
  }

  /** How the second pass reaches a counter's cell: simple and present, qualified, or simple and missing. */
  ghost function Kind(cs: seq<Counter>, start: Cells, i: nat): nat
    requires i < |cs|
  {
    if cs[i].key.IsQualified() then 1 else if cs[i].key in start then 0 else 2
  }

  ghost function Elements(order: seq<nat>): set<nat> {
    set i | 0 <= i < |order| :: order[i]
  }

  /** The indices of one kind below `n`, in increasing order. */
  ghost function Indices(cs: seq<Counter>, start: Cells, n: nat, kind: nat): seq<nat>
    requires n <= |cs|
  {
    if n == 0 then []
    else Indices(cs, start, n - 1, kind) + if Kind(cs, start, n - 1) == kind then [n - 1] else []
  }

  ghost predicate SortedOfKind(order: seq<nat>, cs: seq<Counter>, start: Cells, n: nat, kind: nat)
    requires n <= |cs|
  {
    && (forall i :: 0 <= i < |order| ==> order[i] < n && Kind(cs, start, order[i]) == kind)
    && (forall i, j :: 0 <= i < j < |order| ==> order[i] < order[j])
  }

  lemma {:induction false} IndicesSorted(cs: seq<Counter>, start: Cells, n: nat, kind: nat)
    requires n <= |cs|
    ensures SortedOfKind(Indices(cs, start, n, kind), cs, start, n, kind)
  {
    if n == 0 {
    } else {
      IndicesSorted(cs, start, n - 1, kind);
    }
  }

  lemma {:induction false} IndicesComplete(cs: seq<Counter>, start: Cells, n: nat, t: nat)
    requires t < n <= |cs|
    ensures t in Elements(Indices(cs, start, n, Kind(cs, start, t)))
  {
    var kind := Kind(cs, start, t);
    var order := Indices(cs, start, n, kind);
    if t == n - 1 {
      assert order[|order| - 1] == t;
    } else {
      IndicesComplete(cs, start, n - 1, t);
      var front := Indices(cs, start, n - 1, kind);
      var i :| 0 <= i < |front| && front[i] == t;
      assert order[i] == t;
    }
  }

  /** A counter is annotated alike before and after its window is opened. */
  lemma {:induction false} AnnotateOpened(start: Cells, cells: Cells, c: Counter, delta: u64, now: nat)
    requires SameAt(cells, start, c.key)
    ensures Annotated(cells, c, now) == Annotated(start, c, now)
    ensures Over(cells, c, delta, now) == Over(start, c, delta, now)
    ensures c.key !in cells ==>
              var opened_ := cells[c.key := Cell(0, now + c.window)];
              && Annotated(opened_, c, now) == Annotated(start, c, now)
              && Over(opened_, c, delta, now) == Over(start, c, delta, now)
  {
  }

  /** The counters in `done` have been hit; every other cell is as the first pass left it. */
  ghost predicate Applied(cells: Cells, start: Cells, cs: seq<Counter>, done: set<nat>, delta: u64, now: nat) {
    && (forall i :: i in done ==> i < |cs| && cs[i].key in cells && cells[cs[i].key] == Hit(start, cs[i], delta, now))
    && (forall k :: !Touched(cs, done, k) ==> SameAt(cells, Opened(start, cs, now), k))
  }

  ghost predicate Touched(cs: seq<Counter>, done: set<nat>, k: CounterKey) {
    exists i :: i in done && i < |cs| && cs[i].key == k
  }

  lemma {:induction false} HitStep(cells: Cells, start: Cells, cs: seq<Counter>, done: set<nat>, delta: u64, now: nat, t: nat)
    requires Distinct(cs) && t < |cs| && t !in done && Applied(cells, start, cs, done, delta, now)
    ensures Applied(Updated(cells, Annotated(start, cs[t], now), delta, now), start, cs, done + {t}, delta, now)
  {
    var r := Updated(cells, Annotated(start, cs[t], now), delta, now);
    HitOpened(start, cs, delta, now, t);
    assert !Touched(cs, done, cs[t].key);
    assert SameAt(cells, Opened(start, cs, now), cs[t].key);
    forall k | !Touched(cs, done + {t}, k)
      ensures SameAt(r, Opened(start, cs, now), k)
    {
      assert t in done + {t};
      assert !Touched(cs, done, k) by {
        forall i | i in done && i < |cs| ensures cs[i].key != k { assert i in done + {t}; }
      }
    }
  }

  lemma {:induction false} AllApplied(cells: Cells, start: Cells, cs: seq<Counter>, done: set<nat>, delta: u64, now: nat)
    requires Distinct(cs) && Applied(cells, start, cs, done, delta, now)
    requires forall i :: 0 <= i < |cs| ==> i in done
    ensures cells == UpdatedAll(start, cs, delta, now)
  {
    var r := UpdatedAll(start, cs, delta, now);
    forall k
      ensures SameAt(cells, r, k)
    {
      if Mentions(cs, k) {
        var i :| 0 <= i < |cs| && cs[i].key == k;
        UpdatedAllAt(start, cs, delta, now, i);
      } else {
        UpdatedAllElsewhere(start, cs, delta, now, k);
        OpenedElsewhere(start, cs, now, k);
        assert !Touched(cs, done, k);
      }
    }
    forall k
      ensures k in cells <==> k in r
      ensures k in cells ==> cells[k] == r[k]
    {
      assert SameAt(cells, r, k);
    }
    assert cells.Keys == r.Keys;
  }
}
