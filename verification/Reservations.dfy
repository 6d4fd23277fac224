/**
 The in-process reservation registry: capacity held against counters until it
 is committed or expires. A cache entry per counter carries its own expiry,
 set from the counter's window each time a reservation is admitted.
 */
module Reservations {
  import opened Prelude
  import opened Counters

  datatype Hold = Hold(id: nat, amount: nat, expiresAt: nat) {
    predicate LiveAt(when: nat) {
      expiresAt > when
    }
  }

  /** A counter's cache entry; the cache drops it at `expiresAt`. */
  datatype Entry = Entry(expiresAt: nat, windowTtl: nat, holds: seq<Hold>)

  type Registry = map<CounterKey, Entry>

  /** `checkAmount` decides admission; `holdAmount`, possibly less, is what is held. */
  datatype Request = Request(id: nat, checkAmount: nat, holdAmount: nat, ttl: nat, now: nat)

  /** A counter's value and what is left of its window, read beforehand. */
  datatype View = View(value: nat, windowTtl: nat)

  function Live(holds: seq<Hold>, when: nat): seq<Hold> {
    if holds == [] then []
    else
      var last := holds[|holds| - 1];
      Live(holds[..|holds| - 1], when) + if last.LiveAt(when) then [last] else []
  }

  function Without(holds: seq<Hold>, id: nat): seq<Hold> {
    if holds == [] then []
    else
      var last := holds[|holds| - 1];
      Without(holds[..|holds| - 1], id) + if last.id != id then [last] else []
  }

  function Total(holds: seq<Hold>): nat {
    if holds == [] then 0 else Total(holds[..|holds| - 1]) + holds[|holds| - 1].amount
  }

  /** The holds the cache still serves for `k`. */
  function Entries(reg: Registry, k: CounterKey, now: nat): seq<Hold> {
    if k in reg && now < reg[k].expiresAt then reg[k].holds else []
  }

  function LiveHolds(reg: Registry, k: CounterKey, now: nat): seq<Hold> {
    Live(Entries(reg, k, now), now)
  }

  function Outstanding(reg: Registry, k: CounterKey, now: nat): nat {
    Total(LiveHolds(reg, k, now))
  }

  predicate Fits(reg: Registry, c: Counter, view: View, req: Request) {
    view.value + Outstanding(reg, c.key, req.now) + req.checkAmount <= c.maxValue
  }

  ghost predicate FitsAll(reg: Registry, cs: seq<Counter>, views: seq<View>, req: Request)
    requires |cs| == |views|
  {
    forall i :: 0 <= i < |cs| ==> Fits(reg, cs[i], views[i], req)
  }

  /** `i` is the first counter without room. */
  ghost predicate FirstMisfit(reg: Registry, cs: seq<Counter>, views: seq<View>, req: Request, i: nat)
    requires |cs| == |views|
  {
    && i < |cs| && !Fits(reg, cs[i], views[i], req)
    && forall j :: 0 <= j < i ==> Fits(reg, cs[j], views[j], req)
  }

  /** A denial names the counter at which the list stops fitting. */
  lemma {:induction false} NamesWhereFittingStops(reg: Registry, cs: seq<Counter>, views: seq<View>, req: Request, i: nat)
    requires |cs| == |views| && i < |cs|
    ensures FirstMisfit(reg, cs, views, req, i) <==>
            FitsAll(reg, cs[..i], views[..i], req) && !FitsAll(reg, cs[..i + 1], views[..i + 1], req)
  {
    assert cs[..i + 1] == cs[..i] + [cs[i]] && views[..i + 1] == views[..i] + [views[i]];
    forall j | 0 <= j < i
      ensures cs[..i][j] == cs[j] && cs[..i + 1][j] == cs[j] && views[..i][j] == views[j] && views[..i + 1][j] == views[j]
    {
    }
  }

  /** The hold a counter gets: never beyond the end of its window. */
  function NewHold(view: View, req: Request): (h: Hold)
    ensures h.expiresAt <= req.now + view.windowTtl
  {
    Hold(req.id, req.holdAmount, Min(req.now + req.ttl, req.now + view.windowTtl))
  }

  function Placed(reg: Registry, c: Counter, view: View, req: Request): Registry {
    reg[c.key := Entry(req.now + view.windowTtl, view.windowTtl,
                       LiveHolds(reg, c.key, req.now) + [NewHold(view, req)])]
  }

  function PlacedAll(reg: Registry, cs: seq<Counter>, views: seq<View>, req: Request): Registry
    requires |cs| == |views|
    decreases |cs|
  {
    if cs == [] then reg
    else PlacedAll(Placed(reg, cs[0], views[0], req), cs[1..], views[1..], req)
  }

  /** The registry after one whole reserve: all counters get the hold, or none does. */
  ghost function Reserved(reg: Registry, cs: seq<Counter>, views: seq<View>, req: Request): Registry
    requires |cs| == |views|
  {
    if FitsAll(reg, cs, views, req) && req.holdAmount > 0 then PlacedAll(reg, cs, views, req) else reg
  }

  function Granted(admitted: bool, req: Request): nat {
    if admitted then req.holdAmount else 0
  }

  /** A counter as reported back: what is left beside its value, the live holds and the new one. */
  function Shown(reg: Registry, c: Counter, view: View, req: Request, admitted: bool): Counter {
    c.(remaining := Some(SaturatingSub(c.maxValue, view.value + Outstanding(reg, c.key, req.now) + Granted(admitted, req))),
       expiresIn := Some(view.windowTtl))
  }

  function ReleasedOne(reg: Registry, k: CounterKey, id: nat, now: nat): Registry {
    if k in reg && now < reg[k].expiresAt then
      var left := Without(reg[k].holds, id);
      if left == [] then reg - {k} else reg[k := reg[k].(holds := left)]
    else reg
  }

  function ReleasedAll(reg: Registry, cs: seq<Counter>, id: nat, now: nat): Registry {
    if cs == [] then reg
    else ReleasedOne(ReleasedAll(reg, cs[..|cs| - 1], id, now), cs[|cs| - 1].key, id, now)
  }

  ghost predicate Holds(holds: seq<Hold>, id: nat) {
    exists i :: 0 <= i < |holds| && holds[i].id == id
  }

  class LocalReservationRegistry {
    var entries: Registry

    constructor ()
      ensures entries == map[]
    {
      entries := map[];
    }

    /** The sum of the live holds of one counter. */
    method OutstandingOf(k: CounterKey, now: nat) returns (sum: nat)
      ensures sum == Outstanding(entries, k, now)
    {
      var stored := if k in entries && now < entries[k].expiresAt then entries[k].holds else [];
      sum := 0;
      for i := 0 to |stored|
        invariant sum == Total(Live(stored[..i], now))
      {
        assert stored[..i + 1][..i] == stored[..i];
        TotalSnoc(Live(stored[..i], now), stored[i]);
        assert Live(stored[..i], now) + [] == Live(stored[..i], now);
        if stored[i].LiveAt(now) {
          sum := sum + stored[i].amount;
        }
      }
      assert stored[..|stored|] == stored;
    }

    /** The admission loop: first counter that does not fit, and what each has outstanding. */
    method Admit(counters: array<Counter>, views: seq<View>, req: Request)
      returns (auth: Authorization, outstanding: seq<nat>)
      requires |views| == counters.Length
      ensures auth.Ok? <==> FitsAll(entries, counters[..], views, req)
      ensures auth.Limited? ==> exists i: nat :: FirstMisfit(entries, counters[..], views, req, i) && auth.name == counters[i].name
      ensures |outstanding| == counters.Length
      ensures forall i :: 0 <= i < counters.Length ==> outstanding[i] == Outstanding(entries, counters[i].key, req.now)
    {
      auth, outstanding := Ok, [];
      for i := 0 to counters.Length
        invariant |outstanding| == i
        invariant forall j :: 0 <= j < i ==> outstanding[j] == Outstanding(entries, counters[j].key, req.now)
        invariant auth.Ok? ==> forall j :: 0 <= j < i ==> Fits(entries, counters[j], views[j], req)
        invariant auth.Limited? ==> exists f: nat :: FirstMisfit(entries, counters[..], views, req, f) && auth.name == counters[f].name
      {
        var sum := OutstandingOf(counters[i].key, req.now);
        outstanding := outstanding + [sum];
        if auth.Ok? && views[i].value + sum + req.checkAmount > counters[i].maxValue {
          auth := Limited(counters[i].name);
          assert FirstMisfit(entries, counters[..], views, req, i);
        }
      }
    }

    /** The annotation loop: a hold that was not granted must not show in `remaining`. */
    method Annotate(counters: array<Counter>, views: seq<View>, req: Request, outstanding: seq<nat>, admitted: bool)
      requires |views| == |outstanding| == counters.Length
      requires forall i :: 0 <= i < counters.Length ==> outstanding[i] == Outstanding(entries, counters[i].key, req.now)
      modifies counters
      ensures forall i :: 0 <= i < counters.Length ==>
                counters[i] == Shown(entries, old(counters[..])[i], views[i], req, admitted)
    {
      ghost var given := counters[..];
      var granted := if admitted then req.holdAmount else 0;
      for i := 0 to counters.Length
        invariant forall j :: 0 <= j < i ==> counters[j] == Shown(entries, given[j], views[j], req, admitted)
        invariant forall j :: i <= j < counters.Length ==> counters[j] == given[j]
      {
        var c := counters[i];
        counters[i] := c.(remaining := Some(SaturatingSub(c.maxValue, views[i].value + outstanding[i] + granted)),
                          expiresIn := Some(views[i].windowTtl));
      }
    }

    /**
     All or nothing over the listed counters: admits when each has room for
     `checkAmount` beside its value and its live holds, and then holds
     `holdAmount` on every one of them.
     */
    method Reserve(counters: array<Counter>, views: seq<View>, req: Request) returns (auth: Authorization)
      requires |views| == counters.Length
      modifies this, counters
      ensures auth.Ok? <==> FitsAll(old(entries), old(counters[..]), views, req)
      ensures auth.Limited? ==> exists i: nat ::
                FirstMisfit(old(entries), old(counters[..]), views, req, i) && auth.name == old(counters[..])[i].name
      ensures entries == Reserved(old(entries), old(counters[..]), views, req)
      ensures forall i :: 0 <= i < counters.Length ==>
                counters[i] == Shown(old(entries), old(counters[..])[i], views[i], req, auth.Ok?)
    {
      ghost var given, start := counters[..], entries;
      var outstanding;
      auth, outstanding := Admit(counters, views, req);
      Annotate(counters, views, req, outstanding, auth.Ok?);
      if auth.Limited? || req.holdAmount == 0 {
        return;
      }
      ghost var shown := counters[..];
      for i := 0 to counters.Length
        invariant counters[..] == shown
        invariant PlacedAll(entries, given[i..], views[i..], req) == PlacedAll(start, given, views, req)
      {
        assert given[i..][1..] == given[i + 1..] && views[i..][1..] == views[i + 1..];
        Push(counters[i].key, views[i], req);
      }
    }

    /** Drop what has expired, add the new hold, and let the cache re-read the entry's expiry. */
    method Push(k: CounterKey, view: View, req: Request)
      modifies this
      ensures forall c: Counter :: c.key == k ==> entries == Placed(old(entries), c, view, req)
    {
      var stored := if k in entries && req.now < entries[k].expiresAt then entries[k].holds else [];
      var kept := [];
      for i := 0 to |stored|
        invariant kept == Live(stored[..i], req.now)
      {
        assert stored[..i + 1][..i] == stored[..i];
        if stored[i].LiveAt(req.now) {
          kept := kept + [stored[i]];
        }
      }
      assert stored[..|stored|] == stored;
      entries := entries[k := Entry(req.now + view.windowTtl, view.windowTtl, kept + [NewHold(view, req)])];
    }

    /** The holds other than `id`. */
    static method Strip(stored: seq<Hold>, id: nat) returns (kept: seq<Hold>)
      ensures kept == Without(stored, id)
    {
      kept := [];
      for j := 0 to |stored|
        invariant kept == Without(stored[..j], id)
      {
        assert stored[..j + 1][..j] == stored[..j];
        if stored[j].id != id {
          kept := kept + [stored[j]];
        }
      }
      assert stored[..|stored|] == stored;
    }

    method ReleaseFrom(k: CounterKey, id: nat, now: nat) returns (removed: bool)
      modifies this
      ensures entries == ReleasedOne(old(entries), k, id, now)
      ensures removed <==> Holds(Entries(old(entries), k, now), id)
    {
      if k in entries && now < entries[k].expiresAt {
        var stored := entries[k].holds;
        var kept := Strip(stored, id);
        WithoutShorter(stored, id);
        removed := |kept| != |stored|;
        entries := if kept == [] then entries - {k} else entries[k := entries[k].(holds := kept)];
      } else {
        removed := false;
      }
    }

    /**
     Removes the hold from every listed counter and drops entries left empty.
     Reports whether anything was removed, live or not.
     */
    method Release(counters: seq<Counter>, id: nat, now: nat) returns (released: bool)
      modifies this
      ensures entries == ReleasedAll(old(entries), counters, id, now)
      ensures released <==> Found(old(entries), counters, |counters|, id, now)
    {
      ghost var start := entries;
      released := false;
      for i := 0 to |counters|
        invariant entries == ReleasedAll(start, counters[..i], id, now)
        invariant released <==> Found(start, counters, i, id, now)
      {
        assert counters[..i + 1][..i] == counters[..i];
        FoundStep(start, counters, id, now, i);
        var removed := ReleaseFrom(counters[i].key, id, now);
        released := released || removed;
      }
      assert counters[..|counters|] == counters;
    }
  }

  lemma {:induction false} TotalSnoc(holds: seq<Hold>, h: Hold)
    ensures Total(holds + [h]) == Total(holds) + h.amount
  {
    assert (holds + [h])[..|holds|] == holds;
  }

  /** One of the first `n` counters has the hold in its entry. */
  ghost predicate Found(reg: Registry, cs: seq<Counter>, n: nat, id: nat, now: nat)
    requires n <= |cs|
  {
    exists j :: 0 <= j < n && Holds(Entries(reg, cs[j].key, now), id)
  }

  lemma {:induction false} FoundStep(reg: Registry, cs: seq<Counter>, id: nat, now: nat, i: nat)
    requires i < |cs|
    ensures Found(reg, cs, i + 1, id, now) <==>
            Found(reg, cs, i, id, now) || Holds(Entries(ReleasedAll(reg, cs[..i], id, now), cs[i].key, now), id)
  {
    var k := cs[i].key;
    ReleasedEntries(reg, cs[..i], id, now, k);
    WithoutTwice(Entries(reg, k, now), id);
    if Mentions(cs[..i], k) {
      var j :| 0 <= j < i && cs[..i][j].key == k;
      assert cs[j].key == k;
    }
  }

  lemma {:induction false} WithoutShorter(holds: seq<Hold>, id: nat)
    ensures |Without(holds, id)| <= |holds|
    ensures |Without(holds, id)| == |holds| <==> !Holds(holds, id)
    ensures !Holds(holds, id) ==> Without(holds, id) == holds
    decreases |holds|
  {
    if holds == [] {
    } else {
      var front := holds[..|holds| - 1];
      WithoutShorter(front, id);
      assert holds == front + [holds[|holds| - 1]];
      if Holds(front, id) {
        var i :| 0 <= i < |front| && front[i].id == id;
        assert holds[i].id == id;
      }
    }
  }

  /**
   `reservation_released` is documented as "a live reservation was found and
   removed". A hold that has expired but not yet been dropped is reported too.
   */
  lemma {:induction false} ReleaseReportsStaleHolds(c: Counter)
    ensures var reg := map[c.key := Entry(100, 100, [Hold(7, 5, 50)])];
            Found(reg, [c], 1, 7, 60) && LiveHolds(reg, c.key, 60) == []
  {
    var reg := map[c.key := Entry(100, 100, [Hold(7, 5, 50)])];
    assert Entries(reg, [c][0].key, 60)[0].id == 7;
    assert [Hold(7, 5, 50)][..0] == [];
  }

  lemma {:induction false} LiveContains(holds: seq<Hold>, now: nat, h: Hold)
    ensures h in Live(holds, now) <==> h in holds && h.LiveAt(now)
    decreases |holds|
  {
    if holds == [] {
    } else {
      var front, last := holds[..|holds| - 1], holds[|holds| - 1];
      LiveContains(front, now, h);
      assert holds == front + [last];
    }
  }

  lemma {:induction false} LiveSnoc(holds: seq<Hold>, h: Hold, when: nat)
    ensures Live(holds + [h], when) == Live(holds, when) + if h.LiveAt(when) then [h] else []
  {
    assert (holds + [h])[..|holds|] == holds;
  }

  lemma {:induction false} LiveLater(holds: seq<Hold>, s: nat, t: nat)
    requires s <= t
    ensures Live(Live(holds, s), t) == Live(holds, t)
    decreases |holds|
  {
    if holds == [] {
    } else {
      var front, last := holds[..|holds| - 1], holds[|holds| - 1];
      LiveLater(front, s, t);
      if last.LiveAt(s) {
        LiveSnoc(Live(front, s), last, t);
      } else {
        assert Live(holds, s) == Live(front, s) && Live(holds, t) == Live(front, t);
      }
    }
  }

  lemma {:induction false} WithoutTwice(holds: seq<Hold>, id: nat)
    ensures !Holds(Without(holds, id), id)
    decreases |holds|
  {
    if holds == [] {
    } else {
      WithoutTwice(holds[..|holds| - 1], id);
    }
  }

  /** After releasing some counters, an entry is either untouched or rid of the id. */
  lemma {:induction false} ReleasedEntries(reg: Registry, cs: seq<Counter>, id: nat, now: nat, k: CounterKey)
    ensures Entries(ReleasedAll(reg, cs, id, now), k, now) ==
            if Mentions(cs, k) then Without(Entries(reg, k, now), id) else Entries(reg, k, now)
    decreases |cs|
  {
    if cs == [] {
    } else {
      var front, last := cs[..|cs| - 1], cs[|cs| - 1].key;
      ReleasedEntries(reg, front, id, now, k);
      MentionsSnoc(cs, k);
      if last == k {
        var hs := Entries(reg, k, now);
        WithoutTwice(hs, id);
        WithoutShorter(Without(hs, id), id);
      }
    }
  }

  lemma {:induction false} MentionsSnoc(cs: seq<Counter>, k: CounterKey)
    requires cs != []
    ensures Mentions(cs, k) <==> Mentions(cs[..|cs| - 1], k) || cs[|cs| - 1].key == k
  {
    var front := cs[..|cs| - 1];
    if Mentions(front, k) {
      var i :| 0 <= i < |front| && front[i].key == k;
      assert cs[i].key == k;
    }
    if Mentions(cs, k) && cs[|cs| - 1].key != k {
      var i :| 0 <= i < |cs| && cs[i].key == k;
      assert front[i].key == k;
    }
  }
}
