/**
 Reserving and committing over the in-memory storage, as the rate limiter
 drives them: clamp the hold, touch every counter, decide under the registry's
 lock; later apply the real usage and let the hold go.
 */
module ReservingStorage {
  import opened Prelude
  import opened Counters
  import opened InMemory
  import opened Reservations
  import opened HoldRetention

  /** What the registry is told about each counter, once every window has been started. */
  function ViewsOf(cells: Cells, cs: seq<Counter>, now: nat): (views: seq<View>)
    ensures |views| == |cs|
  {
    seq(|cs|, i requires 0 <= i < |cs| =>
      if cs[i].key in cells then View(cells[cs[i].key].value, cells[cs[i].key].Ttl(now)) else View(0, 0))
  }

  /** Touch every counter, then decide under the registry's lock. */
  method ReserveOn(storage: InMemoryStorage, registry: LocalReservationRegistry, counters: array<Counter>, req: Request)
    returns (auth: Authorization)
    requires Distinct(counters[..])
    modifies storage, registry, counters
    ensures storage.cells == UpdatedAll(old(storage.cells), old(counters[..]), 0, req.now)
    ensures var views := ViewsOf(storage.cells, old(counters[..]), req.now);
            && (auth.Ok? <==> FitsAll(old(registry.entries), old(counters[..]), views, req))
            && (auth.Limited? ==> exists i: nat ::
                  FirstMisfit(old(registry.entries), old(counters[..]), views, req, i) && auth.name == old(counters[..])[i].name)
            && registry.entries == Reserved(old(registry.entries), old(counters[..]), views, req)
            && forall i :: 0 <= i < counters.Length ==>
                 counters[i] == Shown(old(registry.entries), old(counters[..])[i], views[i], req, auth.Ok?)
  {
    ghost var given, start := counters[..], storage.cells;
    var views: seq<View> := [];
    for i := 0 to counters.Length
      invariant counters[..] == given && registry.entries == old(registry.entries)
      invariant UpdatedAll(storage.cells, given[i..], 0, req.now) == UpdatedAll(start, given, 0, req.now)
      invariant |views| == i
      invariant forall j :: 0 <= j < i ==>
                  given[j].key in storage.cells
                  && views[j] == View(storage.cells[given[j].key].value, storage.cells[given[j].key].Ttl(req.now))
    {
      assert given[i..][1..] == given[i + 1..];
      var value, ttl := storage.Touch(counters[i], req.now);
      views := views + [View(value, ttl)];
    }
    assert given[counters.Length..] == [];
    assert views == ViewsOf(storage.cells, given, req.now);
    auth := registry.Reserve(counters, views, req);
  }

  /** What a reserve keeps free on each counter is the hold amount if it is admitted, and nothing otherwise. */
  lemma {:induction false} GrowsByAmount(reg: Registry, cs: seq<Counter>, views: seq<View>, req: Request)
    requires |cs| == |views| && Distinct(cs)
    ensures HoldsWithin(reg) && WindowsCover(reg, cs, views, req) && req.ttl > 0 ==>
              forall i :: 0 <= i < |cs| && views[i].windowTtl > 0 ==>
                Outstanding(Reserved(reg, cs, views, req), cs[i].key, req.now) ==
                Outstanding(reg, cs[i].key, req.now) + if FitsAll(reg, cs, views, req) then req.holdAmount else 0
  {
    if HoldsWithin(reg) && WindowsCover(reg, cs, views, req) && FitsAll(reg, cs, views, req) && req.holdAmount > 0 {
      forall i | 0 <= i < |cs|
        ensures Outstanding(Reserved(reg, cs, views, req), cs[i].key, req.now) == Outstanding(reg, cs[i].key, req.now) +
                if req.now < req.now + req.ttl && req.now < req.now + views[i].windowTtl then req.holdAmount else 0
      {
        AdmittedReserveHoldsExactly(reg, cs, views, req, i, req.now);
      }
    }
  }

  /** What a reserve call hands back to its caller. */
  datatype ReserveResult = ReserveResult(limited: bool, reservation: Option<nat>, amount: nat, limitName: Option<string>)

  /**
   The limiter's reserve: `caps[i]` is the most one reservation may hold of
   counter `i`. Admission is decided on the full `amount`; what is held is clamped
   by every cap, and the hold's life by the policy's longest ttl. An id is handed
   back only for a hold that exists.
   */
  method ReserveWithin(storage: InMemoryStorage, registry: LocalReservationRegistry, counters: array<Counter>,
                       amount: nat, caps: seq<nat>, ttl: Option<nat>, maxTtl: nat, id: nat, now: nat)
    returns (res: ReserveResult, ghost req: Request)
    requires Distinct(counters[..]) && |caps| == counters.Length
    modifies storage, registry, counters
    ensures req.id == id && req.checkAmount == amount && req.now == now
    ensures req.holdAmount <= amount && req.ttl == if ttl.Some? then Min(ttl.value, maxTtl) else maxTtl
    ensures forall i :: 0 <= i < |caps| ==> req.holdAmount <= caps[i]
    ensures req.holdAmount == amount || req.holdAmount in caps
    ensures storage.cells == UpdatedAll(old(storage.cells), old(counters[..]), 0, now)
    ensures var views := ViewsOf(storage.cells, old(counters[..]), now);
            && (!res.limited <==> FitsAll(old(registry.entries), old(counters[..]), views, req))
            && (res.limited ==> exists i: nat ::
                  FirstMisfit(old(registry.entries), old(counters[..]), views, req, i) && res.limitName == old(counters[..])[i].name)
            && registry.entries == Reserved(old(registry.entries), old(counters[..]), views, req)
            && forall i :: 0 <= i < counters.Length ==>
                 counters[i] == Shown(old(registry.entries), old(counters[..])[i], views[i], req, !res.limited)
    ensures res.amount == if !res.limited && counters.Length > 0 then req.holdAmount else 0
    ensures res.reservation == if res.amount > 0 then Some(id) else None
    ensures var views := ViewsOf(storage.cells, old(counters[..]), now);
            HoldsWithin(old(registry.entries)) && WindowsCover(old(registry.entries), old(counters[..]), views, req) && req.ttl > 0 ==>
              forall i :: 0 <= i < counters.Length && views[i].windowTtl > 0 ==>
                Outstanding(registry.entries, old(counters[..])[i].key, now) ==
                Outstanding(old(registry.entries), old(counters[..])[i].key, now) + res.amount
  {
    var hold := amount;
    for i := 0 to |caps|
      invariant hold <= amount && (hold == amount || hold in caps)
      invariant forall j :: 0 <= j < i ==> hold <= caps[j]
    {
      if caps[i] < hold {
        hold := caps[i];
      }
    }
    var life := if ttl.Some? then Min(ttl.value, maxTtl) else maxTtl;
    var request := Request(id, amount, hold, life, now);
    if counters.Length == 0 {
      return ReserveResult(false, None, 0, None), request;
    }
    ghost var given, before := counters[..], registry.entries;
    var auth := ReserveOn(storage, registry, counters, request);
    GrowsByAmount(before, given, ViewsOf(storage.cells, given, now), request);
    if auth.Ok? {
      return ReserveResult(false, if hold > 0 then Some(id) else None, hold, None), request;
    }
    return ReserveResult(true, None, 0, auth.name), request;
  }

  /**
   The limiter's commit: apply the real usage to every counter whether or not the
   reservation is still live, then release it everywhere.
   */
  method Commit(storage: InMemoryStorage, registry: LocalReservationRegistry, counters: seq<Counter>,
                id: Option<nat>, actual: u64, now: nat)
    returns (released: bool)
    modifies storage, registry
    ensures storage.cells == UpdatedAll(old(storage.cells), counters, actual, now)
    ensures id.Some? ==> registry.entries == ReleasedAll(old(registry.entries), counters, id.value, now)
    ensures id.None? ==> registry.entries == old(registry.entries)
    ensures released <==> id.Some? && Found(old(registry.entries), counters, |counters|, id.value, now)
  {
    ghost var start := storage.cells;
    for i := 0 to |counters|
      invariant registry.entries == old(registry.entries)
      invariant UpdatedAll(storage.cells, counters[i..], actual, now) == UpdatedAll(start, counters, actual, now)
    {
      assert counters[i..][1..] == counters[i + 1..];
      storage.UpdateCounter(counters[i], actual, now);
    }
    assert counters[|counters|..] == [];
    released := false;
    if id.Some? && |counters| > 0 {
      released := registry.Release(counters, id.value, now);
    }
  }
}
