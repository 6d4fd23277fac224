/**
 The rate limiter's check-and-update entry point: it turns the pre-update
 `remaining` the storage reports into the post-update one.
 */
module RateLimiting {
  import opened Prelude
  import opened Counters
  import opened InMemory

  /** What the limiter reports for an admitted counter. */
  function Reported(cells: Cells, c: Counter, delta: u64, now: nat): Counter {
    var shown := Annotated(cells, c, now);
    shown.(remaining := Some(SaturatingSub(shown.remaining.value, delta)))
  }

  /**
   After an admitted call, the `remaining` reported for each counter is what the store
   then has left of it, exactly when the new value fits 64 bits. Only a limit of
   2^64 - 1, whose check saturates, can admit a hit for which it does not.
   */
  lemma {:induction false} ReportedIsWhatIsLeftIff(cells: Cells, cs: seq<Counter>, delta: u64, now: nat, i: nat)
    requires Distinct(cs) && Admits(cells, cs, delta, now) && i < |cs| && cs[i].window > 0
    ensures var left := SaturatingSub(cs[i].maxValue, ReadAt(Checked(cells, cs, delta, now), cs[i].key, now));
            Reported(cells, cs[i], delta, now).remaining == Some(left) <==> ReadAt(cells, cs[i].key, now) + delta < U64
    ensures cs[i].maxValue < U64 - 1 ==> ReadAt(cells, cs[i].key, now) + delta < U64
  {
    var v := ReadAt(cells, cs[i].key, now);
    var after := Hit(cells, cs[i], delta, now).ValueAt(now);
    UpdatedAllAt(cells, cs, delta, now, i);
    assert !Over(cells, cs[i], delta, now);
    if v + delta >= U64 {
      assert after == v + delta - U64;
    } else {
      assert after == v + delta;
    }
  }

  method CheckRateLimitedAndUpdate(storage: InMemoryStorage, counters: array<Counter>, delta: u64, now: nat)
    returns (limited: bool, name: Option<string>)
    requires Distinct(counters[..])
    modifies storage, counters
    ensures limited <==> !Admits(old(storage.cells), old(counters[..]), delta, now)
    ensures limited ==> exists i: nat ::
              FirstOver(old(storage.cells), old(counters[..]), delta, now, i) && name == old(counters[..])[i].name
    ensures !limited ==> name == None
    ensures storage.cells == Checked(old(storage.cells), old(counters[..]), delta, now)
    ensures forall i :: 0 <= i < counters.Length ==>
              counters[i] == if limited then Annotated(old(storage.cells), old(counters[..])[i], now)
                             else Reported(old(storage.cells), old(counters[..])[i], delta, now)
  {
    if counters.Length == 0 {
      return false, None;
    }
    ghost var given, start := counters[..], storage.cells;
    var auth := storage.CheckAndUpdate(counters, delta, now);
    if auth.Limited? {
      return true, auth.name;
    }
    for i := 0 to counters.Length
      invariant storage.cells == Checked(start, given, delta, now)
      invariant forall j :: 0 <= j < i ==> counters[j] == Reported(start, given[j], delta, now)
      invariant forall j :: i <= j < counters.Length ==> counters[j] == Annotated(start, given[j], now)
    {
      if counters[i].remaining.Some? {
        counters[i] := counters[i].(remaining := Some(SaturatingSub(counters[i].remaining.value, delta)));
      }
    }
    return false, None;
  }
}
