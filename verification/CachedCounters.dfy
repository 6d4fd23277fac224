/**
 A counter cached in front of Redis. `initial` is the value the next flush
 counts from: what lies above it has not been sent yet.
 */
module CachedCounters {
  import opened Prelude
  import opened ExpiringCells

  datatype Cached = Cached(cell: Cell, initial: u64, fromAuthority: bool) {

    /** Record `delta` local hits; the first hits of a new window count from zero. */
    function Delta(delta: u64, window: nat, now: nat): Cached {
      var next := cell.Update(delta, window, now);
      this.(cell := next, initial := if next.value == delta then 0 else initial)
    }

    /** Hits the next flush will send. */
    function Pending(now: nat): u64 {
      var value := cell.ValueAt(now);
      if initial == 0 || value < initial then value else value - initial
    }

    /** Take the pending hits for a flush. */
    function Taken(now: nat): Cached {
      this.(initial := cell.ValueAt(now))
    }

    /** Give hits back after a flush that failed. */
    function Reverted(writes: u64): Cached {
      if initial > writes then this.(initial := initial - writes) else this
    }

    /** Fold in what Redis counted beyond what this instance knew of. */
    function AddedFromAuthority(delta: u64, until: nat): Cached {
      Cached(cell.AddAndSetExpiry(delta, until), Wrap(initial + delta), true)
    }

    predicate NoPendingWrites(now: nat) {
      Pending(now) == 0
    }

    predicate IsLimited(delta: u64, max: u64, now: nat) {
      cell.ValueAt(now) + delta > max
    }

    predicate RequiresFastFlush(within: nat, now: nat) {
      !fromAuthority || cell.Ttl(now) <= within
    }
  }

  function Authoritative(value: u64, window: nat, now: nat): Cached {
    Cached(Cell(value, now + window), value, true)
  }

  function Provisional(temp: u64, window: nat, now: nat): Cached {
    Cached(Cell(temp, now + window), 0, false)
  }

  /** The cached value as the source keeps it: atomics, changed in place. */
  class CachedCounterValue {
    var value: u64
    var expiry: nat
    var initialValue: u64
    var fromAuthority: bool

    function Contents(): Cached
      reads this
    {
      Cached(Cell(value, expiry), initialValue, fromAuthority)
    }

    constructor FromAuthority(v: u64, window: nat, now: nat)
      ensures Contents() == Authoritative(v, window, now)
    {
      value, expiry, initialValue, fromAuthority := v, now + window, v, true;
    }

    constructor LoadFromAuthorityAsap(temp: u64, window: nat, now: nat)
      ensures Contents() == Provisional(temp, window, now)
    {
      value, expiry, initialValue, fromAuthority := temp, now + window, 0, false;
    }

    method AddFromAuthority(delta: u64, until: nat)
      modifies this
      ensures Contents() == old(Contents()).AddedFromAuthority(delta, until)
    {
      expiry := until;
      value := Wrap(value + delta);
      initialValue := Wrap(initialValue + delta);
      fromAuthority := true;
    }

    method Delta(delta: u64, window: nat, now: nat) returns (v: u64)
      modifies this
      ensures Contents() == old(Contents()).Delta(delta, window, now)
      ensures v == value
    {
      if expiry <= now {
        expiry := now + window;
        value := delta;
      } else {
        value := Wrap(value + delta);
      }
      if value == delta {
        initialValue := 0;
      }
      return value;
    }

    /** The pending hits and the value they bring the counter to, taken in one step. */
    method PendingWritesAndValue(now: nat) returns (offset: u64, v: u64)
      modifies this
      ensures offset == old(Contents()).Pending(now) && v == old(Contents()).cell.ValueAt(now)
      ensures Contents() == old(Contents()).Taken(now)
    {
      var start := initialValue;
      v := if expiry <= now then 0 else value;
      if start == 0 {
        offset := v;
      } else if v >= start {
        offset := v - start;
      } else {
        offset := v;
      }
      initialValue := v;
    }

    method RevertWrites(writes: u64)
      modifies this
      ensures Contents() == old(Contents()).Reverted(writes)
    {
      var newer := initialValue;
      if newer > writes {
        initialValue := newer - writes;
      }
    }
  }

  /** In a running window, what lies above `initial`. */
  ghost predicate InWindow(c: Cached, now: nat) {
    !c.cell.ExpiredAt(now) && c.initial <= c.cell.value
  }

  /** Taking sends exactly what was pending and leaves nothing pending. */
  lemma {:induction false} TakeSendsWhatIsPending(c: Cached, now: nat)
    requires InWindow(c, now)
    ensures c.Pending(now) == c.cell.value - c.initial
    ensures c.Taken(now).NoPendingWrites(now) && c.Taken(now).initial == c.initial + c.Pending(now)
  {
  }

  /**
   Hits recorded between a take and its failure stay pending, and the revert puts
   the taken ones back exactly when the take did not start from zero.
   */
  lemma {:induction false} RevertUndoesTakeIff(c: Cached, now: nat, since: u64, window: nat, later: nat)
    requires InWindow(c, now) && now <= later && !c.cell.ExpiredAt(later)
    requires c.Pending(now) > 0 && c.cell.value + since < U64
    ensures var taken := c.Taken(now).Delta(since, window, later);
            taken.Pending(later) == since
    ensures var back := c.Taken(now).Delta(since, window, later).Reverted(c.Pending(now));
            back.Pending(later) == c.Pending(now) + since <==> c.initial > 0
    ensures var back := c.Taken(now).Delta(since, window, later).Reverted(c.Pending(now));
            c.initial > 0 ==> back == c.Delta(since, window, later)
  {
  }

  /** A first flush that fails is never retried: five hits recorded, none pending. */
  lemma {:induction false} FirstFailedFlushLosesHits()
    ensures var c := Provisional(0, 60, 0).Delta(5, 60, 1);
            && c.Pending(2) == 5
            && c.Taken(2).Reverted(c.Pending(2)).Pending(2) == 0
            && c.Taken(2).Reverted(c.Pending(2)).cell.ValueAt(2) == 5
  {
  }

  /**
   A counter need not be flushed at once exactly when Redis has confirmed it and its
   window runs throughout the coming interval.
   */
  lemma {:induction false} FlushCanWaitIff(c: Cached, within: nat, now: nat)
    ensures !c.RequiresFastFlush(within, now) <==>
            c.fromAuthority && forall t :: now <= t <= now + within ==> !c.cell.ExpiredAt(t)
  {
    assert c.cell.ExpiredAt(now + within) <==> c.cell.expiry <= now + within;
  }

  /**
   A value loaded from Redis is read for one window, has nothing to send, and may wait
   for as long as that window lasts; one loaded ahead of Redis is read for one window,
   has everything to send, and may not wait.
   */
  lemma {:induction false} NewValuesRunOneWindow(value: u64, window: nat, now: nat, t: nat)
    requires now <= t
    ensures var loaded, ahead := Authoritative(value, window, now), Provisional(value, window, now);
            && loaded.cell.ValueAt(t) == ahead.cell.ValueAt(t) == (if t < now + window then value else 0)
            && loaded.Pending(t) == 0 && ahead.Pending(t) == ahead.cell.ValueAt(t)
            && (loaded.RequiresFastFlush(t - now, now) <==> now + window <= t) && ahead.RequiresFastFlush(t - now, now)
  {
  }

  /** Once a window is over nothing is sent of it, and hits of the next one are sent from the first. */
  lemma {:induction false} TakePastTheWindowSendsNothing(c: Cached, now: nat)
    requires c.cell.ExpiredAt(now)
    ensures c.Pending(now) == 0 && c.Taken(now).initial == 0 && c.Taken(now).cell == c.cell
  {
  }
}
