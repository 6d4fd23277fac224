/**
 The queue of counters waiting to be flushed. A semaphore bounds how many
 counters wait; each flush picks a batch, urgent counters first, and drops from
 the queue those that came out of it with nothing left to send.
 */
module Batching {
  import opened Prelude
  import opened Counters
  import opened CachedCounters

  /** An order in which the queue may be iterated. */
  ghost predicate OrderOf(order: seq<CounterKey>, keys: set<CounterKey>) {
    && (forall i, j :: 0 <= i < j < |order| ==> order[i] != order[j])
    && (forall k :: k in order <==> k in keys)
  }

  ghost function Elements(s: seq<CounterKey>): set<CounterKey> {
    set k | k in s
  }

  lemma {:induction false} DistinctElements(s: seq<CounterKey>)
    requires forall i, j :: 0 <= i < j < |s| ==> s[i] != s[j]
    ensures |Elements(s)| == |s|
  {
    if s == [] {
    } else {
      var front := s[..|s| - 1];
      DistinctElements(front);
      assert Elements(s) == Elements(front) + {s[|s| - 1]};
    }
  }

  lemma {:induction false} SubsetSize(a: set<CounterKey>, b: set<CounterKey>)
    requires a <= b
    ensures |a| <= |b|
  {
    if a == {} {
    } else {
      var k :| k in a;
      SubsetSize(a - {k}, b - {k});
    }
  }

  class Batcher {
    var updates: map<CounterKey, CachedCounterValue>
    var permits: nat
    var priorityFlush: bool
    const interval: nat
    ghost const capacity: nat

    /** Every queued counter holds one permit. */
    ghost predicate Valid()
      reads this
    {
      permits + |updates| == capacity
    }

    constructor (period: nat, maxCachedCounters: nat)
      ensures Valid() && updates == map[] && capacity == maxCachedCounters
    {
      updates, permits, priorityFlush := map[], maxCachedCounters, false;
      interval, capacity := period, maxCachedCounters;
    }

    predicate Urgent(k: CounterKey, now: nat)
      requires k in updates
      reads this, updates[k]
    {
      updates[k].Contents().RequiresFastFlush(interval, now)
    }

    /**
     Queue a counter, or merge its hits into the value already queued for it. A new
     counter has to wait when every permit is taken.
     */
    method Add(c: Counter, value: CachedCounterValue, now: nat) returns (queued: bool)
      requires Valid()
      modifies this, value, if c.key in updates then {updates[c.key]} else {}
      ensures Valid()
      ensures queued <==> old(c.key in updates || permits > 0)
      ensures updates == if queued && c.key !in old(updates) then old(updates)[c.key := value] else old(updates)
      ensures old(c.key in updates) && old(updates)[c.key] != value ==>
                && old(updates)[c.key].Contents() ==
                   old(updates[c.key].Contents()).Delta(old(value.Contents()).Pending(now), c.window, now)
                && value.Contents() == old(value.Contents()).Taken(now)
      ensures !(old(c.key in updates) && old(updates)[c.key] != value) ==> value.Contents() == old(value.Contents())
      ensures priorityFlush <==> old(priorityFlush) || (queued && old(value.Contents()).RequiresFastFlush(interval, now))
    {
      var priority := value.Contents().RequiresFastFlush(interval, now);
      queued := true;
      if c.key in updates {
        var queuedValue := updates[c.key];
        if queuedValue != value {
          var writes, _ := value.PendingWritesAndValue(now);
          var _ := queuedValue.Delta(writes, c.window, now);
        }
      } else if permits > 0 {
        permits := permits - 1;
        updates := updates[c.key := value];
      } else {
        queued := false;
      }
      if queued && priority {
        priorityFlush := true;
      }
    }

    /** A full batch is waiting, or an urgent counter asked for a flush. */
    method BatchReady(size: nat) returns (ready: bool)
      modifies this`priorityFlush
      ensures ready <==> |updates| >= size || old(priorityFlush)
      ensures priorityFlush <==> old(priorityFlush) && |updates| >= size
    {
      if |updates| >= size {
        return true;
      }
      ready := priorityFlush;
      priorityFlush := false;
    }

    /** Urgent counters in iteration order, up to `max`. */
    method TakeUrgent(max: nat, order: seq<CounterKey>, now: nat) returns (batch: seq<CounterKey>)
      requires OrderOf(order, updates.Keys)
      ensures |batch| <= max && forall i, j :: 0 <= i < j < |batch| ==> batch[i] != batch[j]
      ensures forall k :: k in batch ==> k in updates && Urgent(k, now)
      ensures |batch| < max ==> forall k :: k in updates && Urgent(k, now) ==> k in batch
    {
      batch := [];
      for i := 0 to |order|
        invariant |batch| <= max && forall i, j :: 0 <= i < j < |batch| ==> batch[i] != batch[j]
        invariant forall k :: k in batch ==> k in order[..i] && k in updates && Urgent(k, now)
        invariant |batch| < max ==> forall k :: k in order[..i] && k in updates && Urgent(k, now) ==> k in batch
      {
        var k := order[i];
        assert k in order && k !in order[..i];
        assert order[..i + 1] == order[..i] + [k];
        if |batch| < max && Urgent(k, now) {
          batch := batch + [k];
        }
      }
      assert order[..|order|] == order;
    }

    /**
     The counters of the next flush. It never holds more than `max` of them, leaves
     an urgent one out only for `max` other urgent ones, and covers at least half of
     what it could: a counter picked as urgent may be picked again.
     */
    method SelectBatch(max: nat, urgentOrder: seq<CounterKey>, order: seq<CounterKey>, now: nat) returns (batch: seq<CounterKey>)
      requires OrderOf(urgentOrder, updates.Keys) && OrderOf(order, updates.Keys)
      ensures |batch| <= max && forall k :: k in batch ==> k in updates
      ensures (forall k :: k in updates && Urgent(k, now) ==> k in batch) ||
              (|Elements(batch)| == max && forall k :: k in batch ==> k in updates && Urgent(k, now))
      ensures 2 * |Elements(batch)| >= Min(max, |updates|)
    {
      var urgent := TakeUrgent(max, urgentOrder, now);
      var remaining := Min(max - |urgent|, |order|);
      batch := urgent + order[..remaining];
      DistinctElements(urgent);
      DistinctElements(order);
      DistinctElements(order[..remaining]);
      assert Elements(order) == updates.Keys;
      SubsetSize(Elements(urgent), Elements(batch));
      SubsetSize(Elements(order[..remaining]), Elements(batch));
      assert |urgent| == max ==> batch == urgent;
      assert forall k :: k in order[..remaining] ==> k in order;
    }

    /**
     After the flush: when it succeeded, the counters of the batch with nothing left
     to send leave the queue, each giving its permit back once.
     */
    method Finish(batch: seq<CounterKey>, ok: bool, now: nat)
      requires Valid()
      modifies this`updates, this`permits
      ensures Valid()
      ensures forall k :: k in updates <==>
                k in old(updates) && !(ok && k in batch && old(updates)[k].Contents().NoPendingWrites(now))
      ensures forall k :: k in updates ==> updates[k] == old(updates)[k]
    {
      if ok {
        ghost var start := updates;
        for i := 0 to |batch|
          invariant Valid()
          invariant forall k :: k in updates <==> k in start && !(k in batch[..i] && start[k].Contents().NoPendingWrites(now))
          invariant forall k :: k in updates ==> updates[k] == start[k]
        {
          assert batch[..i + 1] == batch[..i] + [batch[i]];
          if batch[i] in updates && updates[batch[i]].Contents().NoPendingWrites(now) {
            assert |updates - {batch[i]}| == |updates| - 1 by {
              assert (updates - {batch[i]}).Keys == updates.Keys - {batch[i]};
            }
            updates := updates - {batch[i]};
            permits := permits + 1;
          }
        }
        assert batch[..|batch|] == batch;
      }
    }
  }

  /**
   Merging a second value for a queued counter moves its pending hits over: none
   lost, none counted twice, in whichever window the queued value stands.
   */
  lemma {:induction false} MergeConservesPending(queued: Cached, value: Cached, window: nat, now: nat)
    requires window > 0 && queued.cell.ValueAt(now) + value.Pending(now) < U64
    requires queued.cell.ExpiredAt(now) || queued.initial <= queued.cell.value
    requires value.cell.ExpiredAt(now) || value.initial <= value.cell.value
    ensures queued.Delta(value.Pending(now), window, now).Pending(now) == queued.Pending(now) + value.Pending(now)
    ensures value.Taken(now).Pending(now) == 0
  {
  }
}
