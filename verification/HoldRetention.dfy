/**
 No live hold is lost to its cache entry's expiry, as long as the windows the
 registry is told about never end earlier than before.
 */
module HoldRetention {
  import opened Prelude
  import opened Counters
  import opened Reservations

  ghost predicate Within(holds: seq<Hold>, end: nat) {
    forall i :: 0 <= i < |holds| ==> holds[i].expiresAt <= end
  }

  /** Every stored hold expires no later than the entry that stores it. */
  ghost predicate HoldsWithin(reg: Registry) {
    forall k :: k in reg ==> Within(reg[k].holds, reg[k].expiresAt)
  }

  /** The live holds on record, whether or not the cache still serves them. */
  function OnRecord(reg: Registry, k: CounterKey, when: nat): seq<Hold> {
    if k in reg then Live(reg[k].holds, when) else []
  }

  lemma {:induction false} LiveWithin(holds: seq<Hold>, end: nat, when: nat)
    requires Within(holds, end)
    ensures Within(Live(holds, when), end)
    ensures end <= when ==> Live(holds, when) == []
    decreases |holds|
  {
    if holds == [] {
    } else {
      LiveWithin(holds[..|holds| - 1], end, when);
    }
  }

  lemma {:induction false} LiveWithout(holds: seq<Hold>, id: nat, when: nat)
    ensures Live(Without(holds, id), when) == Without(Live(holds, when), id)
    decreases |holds|
  {
    if holds == [] {
    } else {
      var front, last := holds[..|holds| - 1], holds[|holds| - 1];
      LiveWithout(front, id, when);
      LiveSnoc(Without(front, id), last, when);
      WithoutSnoc(Live(front, when), last, id);
      assert Without(front, id) + [] == Without(front, id);
      assert Live(front, when) + [] == Live(front, when);
    }
  }

  lemma {:induction false} WithoutSnoc(holds: seq<Hold>, h: Hold, id: nat)
    ensures Without(holds + [h], id) == Without(holds, id) + if h.id != id then [h] else []
  {
    assert (holds + [h])[..|holds|] == holds;
  }

  lemma {:induction false} WithoutWithin(holds: seq<Hold>, id: nat, end: nat)
    requires Within(holds, end)
    ensures Within(Without(holds, id), end)
    decreases |holds|
  {
    if holds == [] {
    } else {
      WithoutWithin(holds[..|holds| - 1], id, end);
    }
  }

  /** Under the invariant the cache's own expiry is invisible: it serves every live hold. */
  lemma {:induction false} CacheServesEveryLiveHold(reg: Registry, k: CounterKey, when: nat)
    requires HoldsWithin(reg)
    ensures LiveHolds(reg, k, when) == OnRecord(reg, k, when)
  {
    if k in reg && reg[k].expiresAt <= when {
      LiveWithin(reg[k].holds, reg[k].expiresAt, when);
    }
  }

  /**
   Admitting a hold keeps the invariant exactly when the window now reported ends
   no earlier than any hold still live on that counter.
   */
  lemma {:induction false} PlacingKeepsHoldsWithinIff(reg: Registry, c: Counter, view: View, req: Request)
    requires HoldsWithin(reg)
    ensures HoldsWithin(Placed(reg, c, view, req)) <==>
            Within(LiveHolds(reg, c.key, req.now), req.now + view.windowTtl)
  {
    var r, live, end := Placed(reg, c, view, req), LiveHolds(reg, c.key, req.now), req.now + view.windowTtl;
    var stored := live + [NewHold(view, req)];
    assert r[c.key] == Entry(end, view.windowTtl, stored);
    if Within(stored, end) {
      forall i | 0 <= i < |live|
        ensures live[i].expiresAt <= end
      {
        assert live[i] == stored[i];
      }
    }
    assert HoldsWithin(r) ==> Within(r[c.key].holds, r[c.key].expiresAt);
  }

  /** A window that shrinks does lose a live hold: 5 held until 100, gone from the books at 20. */
  lemma {:induction false} ShrunkWindowLosesAHold(c: Counter)
    ensures var reg := map[c.key := Entry(100, 100, [Hold(1, 5, 100)])];
            var r := Placed(reg, c, View(0, 10), Request(2, 1, 1, 10, 10));
            && HoldsWithin(reg) && Outstanding(reg, c.key, 20) == 5
            && Hold(1, 5, 100) in r[c.key].holds && Outstanding(r, c.key, 20) == 0
  {
    var h := Hold(1, 5, 100);
    var reg := map[c.key := Entry(100, 100, [h])];
    var r := Placed(reg, c, View(0, 10), Request(2, 1, 1, 10, 10));
    OneHold(h, 20);
    OneHold(h, 10);
    assert r[c.key] == Entry(20, 10, [h] + [NewHold(View(0, 10), Request(2, 1, 1, 10, 10))]);
    assert r[c.key].holds[0] == h;
  }

  lemma {:induction false} OneHold(h: Hold, when: nat)
    requires h.LiveAt(when)
    ensures Live([h], when) == [h] && Total([h]) == h.amount
  {
    LiveSnoc([], h, when);
    TotalSnoc([], h);
    assert [] + [h] == [h];
  }

  /** The live holds of a counter just after a hold was placed on it, and at any later time. */
  lemma {:induction false} PlacedLive(reg: Registry, c: Counter, view: View, req: Request, t: nat)
    requires HoldsWithin(reg) && req.now <= t
    requires Within(LiveHolds(reg, c.key, req.now), req.now + view.windowTtl)
    ensures var h := NewHold(view, req);
            LiveHolds(Placed(reg, c, view, req), c.key, t) ==
            LiveHolds(reg, c.key, t) + if h.LiveAt(t) then [h] else []
  {
    var r, live, h := Placed(reg, c, view, req), LiveHolds(reg, c.key, req.now), NewHold(view, req);
    PlacingKeepsHoldsWithinIff(reg, c, view, req);
    CacheServesEveryLiveHold(r, c.key, t);
    CacheServesEveryLiveHold(reg, c.key, t);
    CacheServesEveryLiveHold(reg, c.key, req.now);
    LiveSnoc(live, h, t);
    if c.key in reg {
      LiveLater(reg[c.key].holds, req.now, t);
    }
  }

  lemma {:induction false} PlacedAllElsewhere(
    reg: Registry, cs: seq<Counter>, views: seq<View>, req: Request, k: CounterKey)
    requires |cs| == |views| && forall i :: 0 <= i < |cs| ==> cs[i].key != k
    ensures var r := PlacedAll(reg, cs, views, req);
            (k in r) == (k in reg) && (k in reg ==> r[k] == reg[k])
    decreases |cs|
  {
    if cs == [] {
    } else {
      PlacedAllElsewhere(Placed(reg, cs[0], views[0], req), cs[1..], views[1..], req, k);
    }
  }

  lemma {:induction false} PlacedAllAt(reg: Registry, cs: seq<Counter>, views: seq<View>, req: Request, i: nat)
    requires |cs| == |views| && Distinct(cs) && i < |cs|
    ensures var r := PlacedAll(reg, cs, views, req);
            cs[i].key in r && r[cs[i].key] == Placed(reg, cs[i], views[i], req)[cs[i].key]
    decreases |cs|
  {
    var next := Placed(reg, cs[0], views[0], req);
    if i == 0 {
      PlacedAllElsewhere(next, cs[1..], views[1..], req, cs[0].key);
    } else {
      assert cs[1..][i - 1] == cs[i] && views[1..][i - 1] == views[i];
      PlacedAllAt(next, cs[1..], views[1..], req, i - 1);
    }
  }

  /** The windows a request reports end no earlier than the holds still live on its counters. */
  ghost predicate WindowsCover(reg: Registry, cs: seq<Counter>, views: seq<View>, req: Request)
    requires |cs| == |views|
  {
    forall i :: 0 <= i < |cs| ==> Within(LiveHolds(reg, cs[i].key, req.now), req.now + views[i].windowTtl)
  }

  /** A reserve call, seen from one of its counters at any time from then on. */
  lemma {:induction false} PlacedAllLiveAt(reg: Registry, cs: seq<Counter>, views: seq<View>, req: Request, i: nat, t: nat)
    requires |cs| == |views| && Distinct(cs) && HoldsWithin(reg) && req.now <= t && i < |cs|
    requires Within(LiveHolds(reg, cs[i].key, req.now), req.now + views[i].windowTtl)
    ensures var h := NewHold(views[i], req);
            LiveHolds(PlacedAll(reg, cs, views, req), cs[i].key, t) ==
            LiveHolds(reg, cs[i].key, t) + if h.LiveAt(t) then [h] else []
  {
    PlacedAllAt(reg, cs, views, req, i);
    PlacedLive(reg, cs[i], views[i], req, t);
    var r, one, k := PlacedAll(reg, cs, views, req), Placed(reg, cs[i], views[i], req), cs[i].key;
    assert Entries(r, k, t) == Entries(one, k, t);
  }

  lemma {:induction false} TotalConcat(holds: seq<Hold>, added: seq<Hold>)
    requires |added| <= 1
    ensures Total(holds + added) == Total(holds) + Total(added)
  {
    if added == [] {
      assert holds + added == holds;
    } else {
      assert added == [added[0]] && added[..0] == [];
      TotalSnoc(holds, added[0]);
    }
  }

  /**
   An admitted reserve keeps exactly the hold amount free on each of its counters,
   from now until the ttl or the window runs out, whichever is first.
   */
  lemma {:induction false} AdmittedReserveHoldsExactly(
    reg: Registry, cs: seq<Counter>, views: seq<View>, req: Request, i: nat, t: nat)
    requires |cs| == |views| && Distinct(cs) && HoldsWithin(reg) && req.now <= t && i < |cs|
    requires FitsAll(reg, cs, views, req) && req.holdAmount > 0
    requires Within(LiveHolds(reg, cs[i].key, req.now), req.now + views[i].windowTtl)
    ensures Outstanding(Reserved(reg, cs, views, req), cs[i].key, t) == Outstanding(reg, cs[i].key, t) +
            if t < req.now + req.ttl && t < req.now + views[i].windowTtl then req.holdAmount else 0
  {
    var h := NewHold(views[i], req);
    PlacedAllLiveAt(reg, cs, views, req, i, t);
    TotalConcat(LiveHolds(reg, cs[i].key, t), if h.LiveAt(t) then [h] else []);
    if h.LiveAt(t) {
      OneHold(h, t);
    }
  }

  /** A reserve that is denied, or holds nothing, keeps nothing free, and neither does any on other counters. */
  lemma {:induction false} OtherReservesHoldNothing(
    reg: Registry, cs: seq<Counter>, views: seq<View>, req: Request, k: CounterKey, t: nat)
    requires |cs| == |views|
    requires !FitsAll(reg, cs, views, req) || req.holdAmount == 0 || !Mentions(cs, k)
    ensures Outstanding(Reserved(reg, cs, views, req), k, t) == Outstanding(reg, k, t)
  {
    if FitsAll(reg, cs, views, req) && req.holdAmount > 0 {
      PlacedAllElsewhere(reg, cs, views, req, k);
    }
  }

  /**
   What an admitted reserve reports as remaining is what is left beside the value and
   all that is held once it is done; the time left is that of the window.
   */
  lemma {:induction false} ReserveReportsWhatIsLeft(reg: Registry, cs: seq<Counter>, views: seq<View>, req: Request, i: nat)
    requires |cs| == |views| && Distinct(cs) && HoldsWithin(reg) && i < |cs|
    requires FitsAll(reg, cs, views, req) && req.holdAmount <= req.checkAmount && req.ttl > 0 && views[i].windowTtl > 0
    requires Within(LiveHolds(reg, cs[i].key, req.now), req.now + views[i].windowTtl)
    ensures var shown, held := Shown(reg, cs[i], views[i], req, true), Outstanding(Reserved(reg, cs, views, req), cs[i].key, req.now);
            && shown.remaining.Some? && shown.remaining.value + views[i].value + held == cs[i].maxValue
            && shown.expiresIn == Some(views[i].windowTtl)
  {
    assert Fits(reg, cs[i], views[i], req);
    if req.holdAmount > 0 {
      AdmittedReserveHoldsExactly(reg, cs, views, req, i, req.now);
    }
  }

  /** What a denied reserve reports is what was left before it. */
  lemma {:induction false} DenialReportsWhatIsLeft(reg: Registry, c: Counter, view: View, req: Request)
    ensures var shown, taken := Shown(reg, c, view, req, false), view.value + Outstanding(reg, c.key, req.now);
            && shown.remaining.Some? && shown.expiresIn == Some(view.windowTtl)
            && if taken <= c.maxValue then shown.remaining.value + taken == c.maxValue else shown.remaining.value == 0
  {
  }

  lemma {:induction false} PlacedAllWithin(reg: Registry, cs: seq<Counter>, views: seq<View>, req: Request)
    requires |cs| == |views| && Distinct(cs) && HoldsWithin(reg) && WindowsCover(reg, cs, views, req)
    ensures HoldsWithin(PlacedAll(reg, cs, views, req))
  {
    var r := PlacedAll(reg, cs, views, req);
    forall k | k in r
      ensures Within(r[k].holds, r[k].expiresAt)
    {
      if Mentions(cs, k) {
        var i :| 0 <= i < |cs| && cs[i].key == k;
        PlacedAllAt(reg, cs, views, req, i);
        PlacingKeepsHoldsWithinIff(reg, cs[i], views[i], req);
      } else {
        PlacedAllElsewhere(reg, cs, views, req, k);
      }
    }
  }

  lemma {:induction false} ReleasedWithin(reg: Registry, cs: seq<Counter>, id: nat, now: nat)
    requires HoldsWithin(reg)
    ensures HoldsWithin(ReleasedAll(reg, cs, id, now))
    decreases |cs|
  {
    if cs == [] {
    } else {
      ReleasedWithin(reg, cs[..|cs| - 1], id, now);
      var r, k := ReleasedAll(reg, cs[..|cs| - 1], id, now), cs[|cs| - 1].key;
      if k in r {
        WithoutWithin(r[k].holds, id, r[k].expiresAt);
      }
    }
  }

  lemma {:induction false} ReleasedOneLive(reg: Registry, key: CounterKey, id: nat, now: nat, k: CounterKey, t: nat)
    requires now <= t
    ensures LiveHolds(ReleasedOne(reg, key, id, now), k, t) ==
            if key == k then Without(LiveHolds(reg, k, t), id) else LiveHolds(reg, k, t)
  {
    if key == k {
      var r := ReleasedOne(reg, k, id, now);
      assert Entries(r, k, t) == Without(Entries(reg, k, t), id);
      LiveWithout(Entries(reg, k, t), id, t);
    }
  }

  /** A release, seen from any counter at any time from then on. */
  lemma {:induction false} ReleasedLive(reg: Registry, cs: seq<Counter>, id: nat, now: nat, k: CounterKey, t: nat)
    requires now <= t
    ensures LiveHolds(ReleasedAll(reg, cs, id, now), k, t) ==
            if Mentions(cs, k) then Without(LiveHolds(reg, k, t), id) else LiveHolds(reg, k, t)
    decreases |cs|
  {
    if cs == [] {
    } else {
      var front := cs[..|cs| - 1];
      ReleasedLive(reg, front, id, now, k, t);
      MentionsSnoc(cs, k);
      ReleasedOneLive(ReleasedAll(reg, front, id, now), cs[|cs| - 1].key, id, now, k, t);
      WithoutTwice(LiveHolds(reg, k, t), id);
      WithoutShorter(Without(LiveHolds(reg, k, t), id), id);
    }
  }

  datatype CacheOp =
    | Place(cs: seq<Counter>, views: seq<View>, req: Request)
    | Drop(cs: seq<Counter>, id: nat, now: nat)

  ghost predicate WellFormed(op: CacheOp) {
    op.Place? ==> |op.cs| == |op.views| && Distinct(op.cs)
  }

  ghost function AfterCacheOp(reg: Registry, op: CacheOp): Registry
    requires WellFormed(op)
  {
    match op
    case Place(cs, views, req) => Reserved(reg, cs, views, req)
    case Drop(cs, id, now) => ReleasedAll(reg, cs, id, now)
  }

  /** Each counter's reported window ends no earlier than the one its running entry was given. */
  ghost predicate WindowsNeverShrink(reg: Registry, op: CacheOp) {
    op.Place? && |op.cs| == |op.views| ==>
      forall i :: 0 <= i < |op.cs| && op.cs[i].key in reg && op.req.now < reg[op.cs[i].key].expiresAt ==>
        reg[op.cs[i].key].expiresAt <= op.req.now + op.views[i].windowTtl
  }

  ghost predicate LegalCacheOps(reg: Registry, ops: seq<CacheOp>)
    decreases |ops|
  {
    ops == [] || (WellFormed(ops[0]) && WindowsNeverShrink(reg, ops[0]) && LegalCacheOps(AfterCacheOp(reg, ops[0]), ops[1..]))
  }

  ghost function AfterCacheOps(reg: Registry, ops: seq<CacheOp>): Registry
    requires LegalCacheOps(reg, ops)
    decreases |ops|
  {
    if ops == [] then reg else AfterCacheOps(AfterCacheOp(reg, ops[0]), ops[1..])
  }

  lemma {:induction false} LiveHoldsCovered(reg: Registry, op: CacheOp, i: nat)
    requires HoldsWithin(reg) && WellFormed(op) && op.Place? && WindowsNeverShrink(reg, op) && i < |op.cs|
    ensures Within(LiveHolds(reg, op.cs[i].key, op.req.now), op.req.now + op.views[i].windowTtl)
  {
    var k := op.cs[i].key;
    if k in reg && op.req.now < reg[k].expiresAt {
      LiveWithin(reg[k].holds, reg[k].expiresAt, op.req.now);
    }
  }

  lemma {:induction false} StepKeepsHoldsWithin(reg: Registry, op: CacheOp)
    requires HoldsWithin(reg) && WellFormed(op) && WindowsNeverShrink(reg, op)
    ensures HoldsWithin(AfterCacheOp(reg, op))
  {
    match op
    case Place(cs, views, req) =>
      forall i | 0 <= i < |cs|
        ensures Within(LiveHolds(reg, cs[i].key, req.now), req.now + views[i].windowTtl)
      {
        LiveHoldsCovered(reg, op, i);
      }
      PlacedAllWithin(reg, cs, views, req);
    case Drop(cs, id, now) =>
      ReleasedWithin(reg, cs, id, now);
  }

  // ---- Against a ledger that knows nothing of caches ----

  ghost function Time(op: CacheOp): nat {
    if op.Place? then op.req.now else op.now
  }

  ghost predicate DoneBy(ops: seq<CacheOp>, t: nat) {
    forall i :: 0 <= i < |ops| ==> Time(ops[i]) <= t
  }

  /** What an operation grants on `k`, if it grants anything: the view it was granted on. */
  ghost function GrantView(reg: Registry, op: CacheOp, k: CounterKey): (view: Option<View>)
    requires WellFormed(op)
    ensures view.Some? ==> op.Place?
  {
    if op.Place? && FitsAll(reg, op.cs, op.views, op.req) && op.req.holdAmount > 0 && Mentions(op.cs, k) then
      var i :| 0 <= i < |op.cs| && op.cs[i].key == k;
      Some(op.views[i])
    else None
  }

  ghost function GrantedOn(reg: Registry, op: CacheOp, k: CounterKey): Option<Hold>
    requires WellFormed(op)
  {
    var view := GrantView(reg, op, k);
    if view.Some? then Some(NewHold(view.value, op.req)) else None
  }

  /** Enter what is granted, strike what is released. */
  ghost function Booked(reg: Registry, op: CacheOp, k: CounterKey, book: seq<Hold>): seq<Hold>
    requires WellFormed(op)
  {
    if GrantedOn(reg, op, k).Some? then book + [GrantedOn(reg, op, k).value]
    else if op.Drop? && Mentions(op.cs, k) then Without(book, op.id)
    else book
  }

  ghost function BookedAll(reg: Registry, ops: seq<CacheOp>, k: CounterKey, book: seq<Hold>): seq<Hold>
    requires LegalCacheOps(reg, ops)
    decreases |ops|
  {
    if ops == [] then book
    else BookedAll(AfterCacheOp(reg, ops[0]), ops[1..], k, Booked(reg, ops[0], k, book))
  }

  lemma {:induction false} PlaceKeepsBooks(reg: Registry, op: CacheOp, k: CounterKey, book: seq<Hold>, t: nat)
    requires HoldsWithin(reg) && WellFormed(op) && WindowsNeverShrink(reg, op) && Time(op) <= t && op.Place?
    requires LiveHolds(reg, k, t) == Live(book, t)
    ensures LiveHolds(AfterCacheOp(reg, op), k, t) == Live(Booked(reg, op, k, book), t)
  {
    if FitsAll(reg, op.cs, op.views, op.req) && op.req.holdAmount > 0 {
      if Mentions(op.cs, k) {
        var i :| 0 <= i < |op.cs| && op.cs[i].key == k && GrantView(reg, op, k) == Some(op.views[i]);
        LiveHoldsCovered(reg, op, i);
        PlacedAllLiveAt(reg, op.cs, op.views, op.req, i, t);
        LiveSnoc(book, NewHold(op.views[i], op.req), t);
      } else {
        PlacedAllElsewhere(reg, op.cs, op.views, op.req, k);
      }
    }
  }

  lemma {:induction false} StepKeepsBooks(reg: Registry, op: CacheOp, k: CounterKey, book: seq<Hold>, t: nat)
    requires HoldsWithin(reg) && WellFormed(op) && WindowsNeverShrink(reg, op) && Time(op) <= t
    requires LiveHolds(reg, k, t) == Live(book, t)
    ensures LiveHolds(AfterCacheOp(reg, op), k, t) == Live(Booked(reg, op, k, book), t)
  {
    match op
    case Place(cs, views, req) => PlaceKeepsBooks(reg, op, k, book, t);
    case Drop(cs, id, now) =>
      ReleasedLive(reg, cs, id, now, k, t);
      LiveWithout(book, id, t);
  }

  /**
   Through every run of reserves, rollovers and releases in which windows never
   shrink: each hold on record expires by its entry's expiry, and the cache serves,
   on every counter and from the last operation on, exactly the live holds of a
   ledger that enters every hold granted and strikes every hold released. None is
   lost with its cache entry, and none comes back.
   */
  lemma {:induction false} LiveHoldsAreNeverLost(reg: Registry, ops: seq<CacheOp>, k: CounterKey, book: seq<Hold>, t: nat)
    requires HoldsWithin(reg) && LegalCacheOps(reg, ops) && DoneBy(ops, t)
    requires LiveHolds(reg, k, t) == Live(book, t)
    ensures HoldsWithin(AfterCacheOps(reg, ops))
    ensures LiveHolds(AfterCacheOps(reg, ops), k, t) == Live(BookedAll(reg, ops, k, book), t)
    decreases |ops|
  {
    if ops == [] {
    } else {
      StepKeepsHoldsWithin(reg, ops[0]);
      StepKeepsBooks(reg, ops[0], k, book, t);
      LiveHoldsAreNeverLost(AfterCacheOp(reg, ops[0]), ops[1..], k, Booked(reg, ops[0], k, book), t);
    }
  }

  /** No operation of `ops` releases `id` on `k`. */
  ghost predicate NeverReleased(ops: seq<CacheOp>, k: CounterKey, id: nat) {
    forall i :: 0 <= i < |ops| && ops[i].Drop? && ops[i].id == id ==> !Mentions(ops[i].cs, k)
  }

  lemma {:induction false} WithoutKeeps(holds: seq<Hold>, id: nat, h: Hold)
    requires h in holds && h.id != id
    ensures h in Without(holds, id)
    decreases |holds|
  {
    var front, last := holds[..|holds| - 1], holds[|holds| - 1];
    assert holds == front + [last];
    if h == last {
    } else {
      WithoutKeeps(front, id, h);
    }
  }

  lemma {:induction false} BookKeeps(reg: Registry, ops: seq<CacheOp>, k: CounterKey, book: seq<Hold>, h: Hold)
    requires LegalCacheOps(reg, ops) && h in book && NeverReleased(ops, k, h.id)
    ensures h in BookedAll(reg, ops, k, book)
    decreases |ops|
  {
    if ops == [] {
    } else {
      var op := ops[0];
      if op.Drop? && Mentions(op.cs, k) {
        WithoutKeeps(book, op.id, h);
      }
      assert NeverReleased(ops[1..], k, h.id) by {
        assert forall i :: 0 <= i < |ops[1..]| ==> ops[1..][i] == ops[i + 1];
      }
      BookKeeps(AfterCacheOp(reg, op), ops[1..], k, Booked(reg, op, k, book), h);
    }
  }

  /** A hold once granted and not released since is served until it expires. */
  lemma {:induction false} GrantedHoldIsServed(reg: Registry, ops: seq<CacheOp>, k: CounterKey, h: Hold, t: nat)
    requires HoldsWithin(reg) && LegalCacheOps(reg, ops) && DoneBy(ops, t) && ops != []
    requires GrantedOn(reg, ops[0], k) == Some(h) && NeverReleased(ops[1..], k, h.id) && h.LiveAt(t)
    ensures h in LiveHolds(AfterCacheOps(reg, ops), k, t)
  {
    var book := LiveHolds(reg, k, t);
    LiveLater(Entries(reg, k, t), t, t);
    LiveHoldsAreNeverLost(reg, ops, k, book, t);
    BookKeeps(AfterCacheOp(reg, ops[0]), ops[1..], k, Booked(reg, ops[0], k, book), h);
    LiveContains(BookedAll(reg, ops, k, book), t, h);
  }

  // ---- What a release reports ----

  /** Some listed counter holds `id` live. */
  ghost predicate FoundLive(reg: Registry, cs: seq<Counter>, id: nat, now: nat) {
    exists j :: 0 <= j < |cs| && Holds(LiveHolds(reg, cs[j].key, now), id)
  }

  lemma {:induction false} HoldsSnoc(holds: seq<Hold>, h: Hold, id: nat)
    ensures Holds(holds + [h], id) <==> Holds(holds, id) || h.id == id
  {
    if Holds(holds, id) {
      var i :| 0 <= i < |holds| && holds[i].id == id;
      assert (holds + [h])[i].id == id;
    }
    assert (holds + [h])[|holds|] == h;
  }

  lemma {:induction false} LiveStaysUnknown(holds: seq<Hold>, id: nat, t: nat)
    requires !Holds(holds, id)
    ensures !Holds(Live(holds, t), id)
  {
    forall i | 0 <= i < |Live(holds, t)|
      ensures Live(holds, t)[i].id != id
    {
      LiveContains(holds, t, Live(holds, t)[i]);
    }
  }

  lemma {:induction false} LiveSnocHolds(holds: seq<Hold>, h: Hold, t: nat)
    requires !Holds(holds, h.id)
    ensures Holds(holds + [h], h.id)
    ensures Holds(Live(holds + [h], t), h.id) <==> h.LiveAt(t)
  {
    HoldsSnoc(holds, h, h.id);
    LiveSnoc(holds, h, t);
    LiveStaysUnknown(holds, h.id, t);
    if h.LiveAt(t) {
      HoldsSnoc(Live(holds, t), h, h.id);
    } else {
      assert Live(holds, t) + [] == Live(holds, t);
    }
  }

  /** On one counter: the hold is on record while the window runs, and live while the ttl does too. */
  lemma {:induction false} PlacedHoldOnRecord(reg: Registry, cs: seq<Counter>, views: seq<View>, req: Request, t: nat, j: nat)
    requires |cs| == |views| && Distinct(cs) && j < |cs| && !Holds(LiveHolds(reg, cs[j].key, req.now), req.id)
    ensures var r, k := PlacedAll(reg, cs, views, req), cs[j].key;
            && (Holds(Entries(r, k, t), req.id) <==> t < req.now + views[j].windowTtl)
            && (Holds(LiveHolds(r, k, t), req.id) <==> t < req.now + views[j].windowTtl && t < req.now + req.ttl)
  {
    var k, h, before := cs[j].key, NewHold(views[j], req), LiveHolds(reg, cs[j].key, req.now);
    var r := PlacedAll(reg, cs, views, req);
    assert k in r && r[k] == Entry(req.now + views[j].windowTtl, views[j].windowTtl, before + [h]) by {
      PlacedAllAt(reg, cs, views, req, j);
    }
    LiveSnocHolds(before, h, t);
    assert Live([], t) == [];
  }

  /**
   A release at time `t` of what a reserve placed, on any list of counters: it says
   it removed a live reservation although none was left, if and only if the hold's
   time is up and the window of some listed counter still runs.
   */
  lemma {:induction false} ReleaseReportsLiveIff(reg: Registry, cs: seq<Counter>, views: seq<View>, req: Request, t: nat)
    requires |cs| == |views| && Distinct(cs) && !FoundLive(reg, cs, req.id, req.now)
    ensures var r := PlacedAll(reg, cs, views, req);
            (Found(r, cs, |cs|, req.id, t) <==> FoundLive(r, cs, req.id, t)) <==>
            !(req.now + req.ttl <= t && exists j :: 0 <= j < |cs| && t < req.now + views[j].windowTtl)
    ensures FoundLive(PlacedAll(reg, cs, views, req), cs, req.id, t) ==> Found(PlacedAll(reg, cs, views, req), cs, |cs|, req.id, t)
  {
    var r := PlacedAll(reg, cs, views, req);
    forall j | 0 <= j < |cs|
      ensures Holds(Entries(r, cs[j].key, t), req.id) <==> t < req.now + views[j].windowTtl
      ensures Holds(LiveHolds(r, cs[j].key, t), req.id) <==> t < req.now + views[j].windowTtl && t < req.now + req.ttl
    {
      PlacedHoldOnRecord(reg, cs, views, req, t, j);
    }
  }

  // ---- What a release reports after further operations ----

  /** Whether a hold is still on record, and when the entry that keeps it ends. */
  datatype Trace = Trace(kept: bool, end: nat)

  /** A grant rewrites the counter's entry: it drops what has expired and sets a new end. */
  ghost function Traced(reg: Registry, op: CacheOp, k: CounterKey, h: Hold, tr: Trace): Trace
    requires WellFormed(op)
  {
    var view := GrantView(reg, op, k);
    if view.Some? then Trace(tr.kept && h.LiveAt(op.req.now), op.req.now + view.value.windowTtl) else tr
  }

  ghost function TracedAll(reg: Registry, ops: seq<CacheOp>, k: CounterKey, h: Hold, tr: Trace): Trace
    requires LegalCacheOps(reg, ops)
    decreases |ops|
  {
    if ops == [] then tr
    else TracedAll(AfterCacheOp(reg, ops[0]), ops[1..], k, h, Traced(reg, ops[0], k, h, tr))
  }

  /** Every hold on record under the id is `h`, and it is there just if the trace says so. */
  ghost predicate Follows(reg: Registry, k: CounterKey, h: Hold, tr: Trace) {
    && (k in reg ==> forall g :: g in reg[k].holds && g.id == h.id ==> g == h)
    && (tr.kept <==> k in reg && h in reg[k].holds)
    && (tr.kept ==> reg[k].expiresAt == tr.end)
  }

  /** No operation reserves under the id again. */
  ghost predicate NeverReused(ops: seq<CacheOp>, id: nat) {
    forall i :: 0 <= i < |ops| && ops[i].Place? ==> ops[i].req.id != id
  }

  lemma {:induction false} WithoutContains(holds: seq<Hold>, id: nat, h: Hold)
    ensures h in Without(holds, id) <==> h in holds && h.id != id
    decreases |holds|
  {
    if holds == [] {
    } else {
      var front, last := holds[..|holds| - 1], holds[|holds| - 1];
      WithoutContains(front, id, h);
      assert holds == front + [last];
    }
  }

  lemma {:induction false} LiveOnRecord(reg: Registry, k: CounterKey, now: nat, g: Hold)
    requires HoldsWithin(reg)
    ensures g in LiveHolds(reg, k, now) <==> k in reg && g in reg[k].holds && g.LiveAt(now)
  {
    CacheServesEveryLiveHold(reg, k, now);
    if k in reg {
      LiveContains(reg[k].holds, now, g);
    }
  }

  lemma {:induction false} RewrittenFollows(reg: Registry, k: CounterKey, entry: Entry, added: Hold, now: nat, h: Hold, tr: Trace)
    requires HoldsWithin(reg) && Follows(reg, k, h, tr) && added.id != h.id
    requires entry.holds == LiveHolds(reg, k, now) + [added]
    ensures Follows(reg[k := entry], k, h, Trace(tr.kept && h.LiveAt(now), entry.expiresAt))
  {
    forall g
      ensures g in entry.holds <==> g == added || (k in reg && g in reg[k].holds && g.LiveAt(now))
    {
      LiveOnRecord(reg, k, now, g);
    }
  }

  lemma {:induction false} PlaceFollows(reg: Registry, op: CacheOp, k: CounterKey, h: Hold, tr: Trace)
    requires HoldsWithin(reg) && WellFormed(op) && op.Place? && op.req.id != h.id && Follows(reg, k, h, tr)
    ensures Follows(AfterCacheOp(reg, op), k, h, Traced(reg, op, k, h, tr))
  {
    if FitsAll(reg, op.cs, op.views, op.req) && op.req.holdAmount > 0 {
      if Mentions(op.cs, k) {
        var i :| 0 <= i < |op.cs| && op.cs[i].key == k && GrantView(reg, op, k) == Some(op.views[i]);
        PlacedAllAt(reg, op.cs, op.views, op.req, i);
        var entry := PlacedAll(reg, op.cs, op.views, op.req)[k];
        RewrittenFollows(reg, k, entry, NewHold(op.views[i], op.req), op.req.now, h, tr);
      } else {
        PlacedAllElsewhere(reg, op.cs, op.views, op.req, k);
      }
    }
  }

  lemma {:induction false} ReleasedOneFollows(reg: Registry, key: CounterKey, id: nat, now: nat, k: CounterKey, h: Hold, tr: Trace)
    requires Follows(reg, k, h, tr) && (key == k ==> id != h.id)
    ensures Follows(ReleasedOne(reg, key, id, now), k, h, tr)
  {
    if key == k && k in reg {
      forall g
        ensures g in Without(reg[k].holds, id) <==> g in reg[k].holds && g.id != id
      {
        WithoutContains(reg[k].holds, id, g);
      }
    }
  }

  lemma {:induction false} DropFollows(reg: Registry, cs: seq<Counter>, id: nat, now: nat, k: CounterKey, h: Hold, tr: Trace)
    requires Follows(reg, k, h, tr) && (id == h.id ==> !Mentions(cs, k))
    ensures Follows(ReleasedAll(reg, cs, id, now), k, h, tr)
    decreases |cs|
  {
    if cs == [] {
    } else {
      var n := |cs| - 1;
      MentionsSnoc(cs, k);
      DropFollows(reg, cs[..n], id, now, k, h, tr);
      ReleasedOneFollows(ReleasedAll(reg, cs[..n], id, now), cs[n].key, id, now, k, h, tr);
    }
  }

  lemma {:induction false} RunFollows(reg: Registry, ops: seq<CacheOp>, k: CounterKey, h: Hold, tr: Trace)
    requires HoldsWithin(reg) && LegalCacheOps(reg, ops) && Follows(reg, k, h, tr)
    requires NeverReleased(ops, k, h.id) && NeverReused(ops, h.id)
    ensures HoldsWithin(AfterCacheOps(reg, ops))
    ensures Follows(AfterCacheOps(reg, ops), k, h, TracedAll(reg, ops, k, h, tr))
    decreases |ops|
  {
    if ops == [] {
    } else {
      var op := ops[0];
      StepKeepsHoldsWithin(reg, op);
      match op {
        case Place(_, _, _) => PlaceFollows(reg, op, k, h, tr);
        case Drop(cs, id, now) => DropFollows(reg, cs, id, now, k, h, tr);
      }
      assert forall i :: 0 <= i < |ops[1..]| ==> ops[1..][i] == ops[i + 1];
      RunFollows(AfterCacheOp(reg, op), ops[1..], k, h, Traced(reg, op, k, h, tr));
    }
  }

  lemma {:induction false} FollowsShows(reg: Registry, k: CounterKey, h: Hold, tr: Trace, t: nat)
    requires HoldsWithin(reg) && Follows(reg, k, h, tr)
    ensures Holds(Entries(reg, k, t), h.id) <==> tr.kept && t < tr.end
    ensures Holds(LiveHolds(reg, k, t), h.id) <==> tr.kept && h.LiveAt(t)
    ensures tr.kept && h.LiveAt(t) ==> t < tr.end
  {
    var stored, live := Entries(reg, k, t), LiveHolds(reg, k, t);
    CacheServesEveryLiveHold(reg, k, t);
    HoldsIffContains(stored, h);
    LiveContains(if k in reg then reg[k].holds else [], t, h);
    forall g | g in live && g.id == h.id
      ensures g == h
    {
      LiveContains(reg[k].holds, t, g);
    }
    HoldsIffContains(live, h);
  }

  lemma {:induction false} HoldsIffContains(holds: seq<Hold>, h: Hold)
    requires forall g :: g in holds && g.id == h.id ==> g == h
    ensures Holds(holds, h.id) <==> h in holds
  {
    if Holds(holds, h.id) {
      var i :| 0 <= i < |holds| && holds[i].id == h.id;
      assert holds[i] in holds;
    }
  }

  /** A freshly placed hold is on record in an entry that ends with the window. */
  lemma {:induction false} PlacedFollows(reg: Registry, cs: seq<Counter>, views: seq<View>, req: Request, j: nat)
    requires |cs| == |views| && Distinct(cs) && j < |cs| && !Holds(LiveHolds(reg, cs[j].key, req.now), req.id)
    ensures Follows(PlacedAll(reg, cs, views, req), cs[j].key, NewHold(views[j], req), Trace(true, req.now + views[j].windowTtl))
  {
    var before := LiveHolds(reg, cs[j].key, req.now);
    PlacedAllAt(reg, cs, views, req, j);
    assert forall i :: 0 <= i < |before| ==> before[i].id != req.id;
  }

  /** The trace of counter `j`'s hold, from the reserve that placed it to the end of `ops`. */
  ghost function TraceOf(reg: Registry, cs: seq<Counter>, views: seq<View>, req: Request, ops: seq<CacheOp>, j: nat): Trace
    requires j < |cs| == |views| && LegalCacheOps(reg, ops)
  {
    TracedAll(reg, ops, cs[j].key, NewHold(views[j], req), Trace(true, req.now + views[j].windowTtl))
  }

  /** Operations that neither release the id on a listed counter nor reserve under it again. */
  ghost predicate LeavesAlone(ops: seq<CacheOp>, cs: seq<Counter>, id: nat) {
    NeverReused(ops, id) && forall j :: 0 <= j < |cs| ==> NeverReleased(ops, cs[j].key, id)
  }

  /**
   However many reserves and releases of others come in between: a release at time `t`
   says it removed a live reservation although none was left, if and only if the hold
   is live on no listed counter, and on some listed counter it is still on record: no
   reserve was granted there since it expired, and the window the last one reported
   still runs.
   */
  lemma {:induction false} ReleaseAfterRunReportsLiveIff(
    reg: Registry, cs: seq<Counter>, views: seq<View>, req: Request, ops: seq<CacheOp>, t: nat)
    requires |cs| == |views| && Distinct(cs) && !FoundLive(reg, cs, req.id, req.now)
    requires HoldsWithin(reg) && WindowsCover(reg, cs, views, req)
    requires LegalCacheOps(PlacedAll(reg, cs, views, req), ops) && LeavesAlone(ops, cs, req.id) && DoneBy(ops, t)
    ensures var placed := PlacedAll(reg, cs, views, req);
            var r := AfterCacheOps(placed, ops);
            (Found(r, cs, |cs|, req.id, t) <==> FoundLive(r, cs, req.id, t)) <==>
            !(&& (forall j :: 0 <= j < |cs| ==> !NewHold(views[j], req).LiveAt(t))
              && exists j :: 0 <= j < |cs| && TraceOf(placed, cs, views, req, ops, j).kept
                             && t < TraceOf(placed, cs, views, req, ops, j).end)
  {
    var placed := PlacedAll(reg, cs, views, req);
    var r := AfterCacheOps(placed, ops);
    PlacedAllWithin(reg, cs, views, req);
    forall j | 0 <= j < |cs|
      ensures Shows(r, cs[j].key, NewHold(views[j], req), TraceOf(placed, cs, views, req, ops, j), t)
    {
      PlacedFollows(reg, cs, views, req, j);
      RunShows(placed, ops, cs[j].key, NewHold(views[j], req), Trace(true, req.now + views[j].windowTtl), t);
    }
  }

  lemma {:induction false} LiveIsKept(reg: Registry, ops: seq<CacheOp>, k: CounterKey, h: Hold, tr: Trace, t: nat)
    requires LegalCacheOps(reg, ops) && DoneBy(ops, t) && h.LiveAt(t) && tr.kept
    ensures TracedAll(reg, ops, k, h, tr).kept
    decreases |ops|
  {
    if ops == [] {
    } else {
      assert Time(ops[0]) <= t;
      assert forall i :: 0 <= i < |ops[1..]| ==> ops[1..][i] == ops[i + 1];
      LiveIsKept(AfterCacheOp(reg, ops[0]), ops[1..], k, h, Traced(reg, ops[0], k, h, tr), t);
    }
  }

  /** On `k` the registry serves `h` while it is live, and has it on record as the trace says. */
  ghost predicate Shows(reg: Registry, k: CounterKey, h: Hold, tr: Trace, t: nat) {
    && (Holds(Entries(reg, k, t), h.id) <==> tr.kept && t < tr.end)
    && (Holds(LiveHolds(reg, k, t), h.id) <==> h.LiveAt(t))
    && (h.LiveAt(t) ==> tr.kept && t < tr.end)
  }

  lemma {:induction false} RunShows(reg: Registry, ops: seq<CacheOp>, k: CounterKey, h: Hold, tr: Trace, t: nat)
    requires HoldsWithin(reg) && LegalCacheOps(reg, ops) && DoneBy(ops, t) && Follows(reg, k, h, tr) && tr.kept
    requires NeverReleased(ops, k, h.id) && NeverReused(ops, h.id)
    ensures Shows(AfterCacheOps(reg, ops), k, h, TracedAll(reg, ops, k, h, tr), t)
  {
    RunFollows(reg, ops, k, h, tr);
    FollowsShows(AfterCacheOps(reg, ops), k, h, TracedAll(reg, ops, k, h, tr), t);
    if h.LiveAt(t) {
      LiveIsKept(reg, ops, k, h, tr, t);
    }
  }
}
