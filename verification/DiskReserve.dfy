/**
 Reservations on the disk storage. A reserve touches its counters by a write of no
 hits and is told the window the write handed back; the disk keeps that window's
 end cut to whole seconds, and so tells the next reserve.
 */
module DiskReserve {
  import opened Prelude
  import opened Counters
  import opened Reservations
  import opened HoldRetention
  import opened DiskValues
  import opened DiskMerge

  /** What the registry is told of a value handed back. */
  function ViewOf(v: ExpiringValue, now: nat): View {
    View(v.ValueAt(now), SaturatingSub(v.expiry, now))
  }

  /** No system time involved is out of range. */
  ghost predicate InRange(c: Counter, now: nat) {
    (now + c.window) / SECOND < TIME_LIMIT
  }

  /** A reserve is told the value read and the window it falls in: the running one, or the one it opens. */
  lemma {:induction false} ToldWhatIsRead(before: ExpiringValue, c: Counter, now: nat)
    requires InRange(c, now)
    ensures Inserted(before, c, 0, now).Some?
    ensures var view := ViewOf(Inserted(before, c, 0, now).value, now);
            && view.value == (if now < before.expiry then before.value else 0)
            && now + view.windowTtl == (if now < before.expiry then before.expiry else now + c.window)
  {
  }

  /** After one touch of `before` and another one later in the window the disk kept. */
  ghost predicate TouchedTwice(before: ExpiringValue, c: Counter, now: nat, later: nat) {
    && Whole(before) && HasRoom(before, c, 0, now) && InRange(c, now) && InRange(c, later)
    && now <= later < before.Update(0, c.window, now).Truncated().expiry
  }

  /**
   The second touch reports a window that ends before the one the first reported, if
   and only if the first one opened it and not on a whole second.
   */
  lemma {:induction false} SecondTouchShrinksIff(before: ExpiringValue, c: Counter, now: nat, later: nat)
    requires TouchedTwice(before, c, now, later)
    ensures Inserted(before, c, 0, now).Some? && Inserted(Inserted(before, c, 0, now).value.Truncated(), c, 0, later).Some?
    ensures var first := Inserted(before, c, 0, now).value;
            var second := Inserted(first.Truncated(), c, 0, later).value;
            && second.expiry == first.Truncated().expiry <= first.expiry
            && (second.expiry < first.expiry <==> !before.LiveAt(now) && (now + c.window) % SECOND != 0)
  {
  }

  /** What the disk holds for a counter it does not know. */
  const UNKNOWN: DiskMerge.Entry := DiskMerge.Entry.Entry(None, [])

  /** What the disk tells of a counter it holds one operand of, at any time. */
  lemma {:induction false} OneOperandRead(op: ExpiringValue, t: nat)
    requires op.expiry / SECOND < TIME_LIMIT
    ensures UNKNOWN.Valid() && UNKNOWN.With(op).Valid()
    ensures UNKNOWN.With(op).ReadAt(t) == op.Truncated()
  {
    PendingSnoc(UNKNOWN, op, t);
  }

  /** The end of a window that starts at `now`, as the disk keeps it. */
  function CutEnd(c: Counter, now: nat): nat {
    (now + c.window) / SECOND * SECOND
  }

  /** What the disk hands back to two reserves of a counter it does not know, at `now` and at `later`. */
  ghost predicate HandedBack(c: Counter, now: nat, later: nat, one: ExpiringValue, two: ExpiringValue) {
    && UNKNOWN.Valid() && Inserted(UNKNOWN.ReadAt(now), c, 0, now) == Some(one)
    && var entry := UNKNOWN.With(ExpiringValue(0, now + c.window));
       entry.Valid() && Inserted(entry.ReadAt(later), c, 0, later) == Some(two)
  }

  /** The first is told the whole window, the second the cut one. */
  lemma {:induction false} EndsHandedBack(c: Counter, now: nat, later: nat, one: ExpiringValue, two: ExpiringValue)
    requires HandedBack(c, now, later, one, two) && InRange(c, now) && now <= later < CutEnd(c, now)
    ensures one == ExpiringValue(0, now + c.window) && two == ExpiringValue(0, CutEnd(c, now))
  {
    assert one == ExpiringValue(0, now + c.window);
    OneOperandRead(one, later);
  }

  ghost function TwoReserves(c: Counter, first: Request, one: View, second: Request, two: View): Registry {
    Placed(Placed(map[], c, one, first), c, two, second)
  }

  lemma {:induction false} FirstHold(c: Counter, view: View, req: Request, t: nat)
    requires NewHold(view, req).LiveAt(t)
    ensures HoldsWithin(Placed(map[], c, view, req)) && LiveHolds(Placed(map[], c, view, req), c.key, t) == [NewHold(view, req)]
  {
    var h := NewHold(view, req);
    assert LiveHolds(map[], c.key, req.now) + [h] == [h];
    OneHold(h, t);
  }

  lemma {:induction false} SecondKeepsFirstIff(c: Counter, first: Request, one: View, second: Request, two: View)
    requires NewHold(one, first).LiveAt(second.now)
    ensures HoldsWithin(TwoReserves(c, first, one, second, two)) <==> NewHold(one, first).expiresAt <= second.now + two.windowTtl
    ensures TwoReserves(c, first, one, second, two)[c.key].expiresAt == second.now + two.windowTtl
    ensures TwoReserves(c, first, one, second, two)[c.key].holds == [NewHold(one, first)] + [NewHold(two, second)]
  {
    var h := NewHold(one, first);
    FirstHold(c, one, first, second.now);
    PlacingKeepsHoldsWithinIff(Placed(map[], c, one, first), c, two, second);
    assert Within([h], second.now + two.windowTtl) <==> [h][0].expiresAt <= second.now + two.windowTtl;
  }

  /**
   On a counter the disk does not know, the second reserve leaves the first one's hold
   to its full time, if and only if that time ends by the whole second the window is
   cut to.
   */
  lemma {:induction false} SecondReserveKeepsHoldIff(
    c: Counter, first: Request, one: ExpiringValue, second: Request, two: ExpiringValue)
    requires HandedBack(c, first.now, second.now, one, two) && InRange(c, first.now)
    requires first.now <= second.now < CutEnd(c, first.now) && second.now < first.now + first.ttl
    ensures HoldsWithin(TwoReserves(c, first, ViewOf(one, first.now), second, ViewOf(two, second.now))) <==>
            Min(first.now + first.ttl, first.now + c.window) <= CutEnd(c, first.now)
  {
    EndsHandedBack(c, first.now, second.now, one, two);
    SecondKeepsFirstIff(c, first, ViewOf(one, first.now), second, ViewOf(two, second.now));
  }

  /** From the end of the second window on, the first hold is on record and not served. */
  lemma {:induction false} OffTheBooks(c: Counter, first: Request, one: View, second: Request, two: View, t: nat)
    requires NewHold(one, first).LiveAt(second.now) && second.now + two.windowTtl <= t
    ensures var r := TwoReserves(c, first, one, second, two);
            c.key in r && r[c.key].holds[0] == NewHold(one, first) && LiveHolds(r, c.key, t) == []
  {
    SecondKeepsFirstIff(c, first, one, second, two);
  }

  /**
   Five held at half past second 0 for a hundred seconds, one more at second 1: from
   second 60 on the five are off the books, half a second before their window ends.
   */
  lemma {:induction false} SecondReserveLosesHold(c: Counter) returns (one: ExpiringValue, two: ExpiringValue)
    requires c.window == 60 * SECOND
    ensures HandedBack(c, SECOND / 2, SECOND, one, two)
    ensures var first, second := Request(1, 5, 5, 100 * SECOND, SECOND / 2), Request(2, 1, 1, 100 * SECOND, SECOND);
            var r := TwoReserves(c, first, ViewOf(one, first.now), second, ViewOf(two, second.now));
            && c.key in r && r[c.key].holds[0] == Hold(1, 5, 60 * SECOND + SECOND / 2)
            && LiveHolds(r, c.key, 60 * SECOND) == []
  {
    one, two := ExpiringValue(0, 60 * SECOND + SECOND / 2), ExpiringValue(0, 60 * SECOND);
    HandsBack(c);
    var first, second := Request(1, 5, 5, 100 * SECOND, SECOND / 2), Request(2, 1, 1, 100 * SECOND, SECOND);
    OffTheBooks(c, first, ViewOf(one, SECOND / 2), second, ViewOf(two, SECOND), 60 * SECOND);
  }

  lemma {:induction false} HandsBack(c: Counter)
    requires c.window == 60 * SECOND
    ensures HandedBack(c, SECOND / 2, SECOND, ExpiringValue(0, 60 * SECOND + SECOND / 2), ExpiringValue(0, 60 * SECOND))
  {
    assert UNKNOWN.ReadAt(SECOND / 2) == DEFAULT_VALUE;
    OneOperandRead(ExpiringValue(0, 60 * SECOND + SECOND / 2), SECOND);
  }
}
