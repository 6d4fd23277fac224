/**
 The distributed storage: a map of replicated counters that this node
 increments, merges updates from its peers into, and tells a peer about that
 asks to catch up.
 */
module CrStorage {
  import opened Prelude
  import opened Counters
  import opened CrCounter
  import opened Replication

  type Replicas = map<CounterKey, Cr>

  ghost function Value(replicas: Replicas, k: CounterKey, now: nat): nat {
    if k in replicas then replicas[k].ReadAt(now) else 0
  }

  ghost predicate Over(replicas: Replicas, c: Counter, delta: u64, now: nat) {
    Value(replicas, c.key, now) + delta > c.maxValue
  }

  ghost predicate Admits(replicas: Replicas, cs: seq<Counter>, delta: u64, now: nat) {
    forall i :: 0 <= i < |cs| ==> !Over(replicas, cs[i], delta, now)
  }

  /** A counter reads the sum of every node's count while its window runs, and zero when it is unknown or over. */
  lemma {:induction false} ValueIsTheSum(replicas: Replicas, k: CounterKey, now: nat)
    requires k in replicas ==> replicas[k].Valid()
    ensures Value(replicas, k, now) == if k in replicas && now < replicas[k].expiry then Sum(replicas[k].All()) else 0
  {
    if k in replicas {
      ReadIsTheSum(replicas[k], now);
    }
  }

  /** `i` is the first counter over its limit. */
  ghost predicate FirstOver(replicas: Replicas, cs: seq<Counter>, delta: u64, now: nat, i: nat) {
    i < |cs| && Over(replicas, cs[i], delta, now) && forall j :: 0 <= j < i ==> !Over(replicas, cs[j], delta, now)
  }

  /** A denial names the counter at which the list stops being admitted. */
  lemma {:induction false} NamesWhereAdmissionStops(replicas: Replicas, cs: seq<Counter>, delta: u64, now: nat, i: nat)
    requires i < |cs|
    ensures FirstOver(replicas, cs, delta, now, i) <==>
            Admits(replicas, cs[..i], delta, now) && !Admits(replicas, cs[..i + 1], delta, now)
  {
    assert cs[..i + 1] == cs[..i] + [cs[i]];
    forall j | 0 <= j < i
      ensures cs[..i][j] == cs[j] && cs[..i + 1][j] == cs[j]
    {
    }
  }

  /** A counter as reported: what is left, and when its window ends, a fresh one if it is over. */
  ghost function Annotated(replicas: Replicas, c: Counter, now: nat): Counter {
    c.(remaining := Some(SaturatingSub(c.maxValue, Value(replicas, c.key, now))),
       expiresIn := Some(if c.key in replicas && replicas[c.key].expiry > now then replicas[c.key].expiry - now else c.window))
  }

  /** A counter that is not known starts a window of its own. */
  function Incremented(replicas: Replicas, self: Actor, c: Counter, delta: u64, now: nat): Replicas {
    var replica := if c.key in replicas then replicas[c.key] else Cr(self, 0, map[], now + c.window);
    replicas[c.key := replica.IncAt(delta, c.window, now)]
  }

  /** What a peer that asks to catch up is told, key by key. */
  function CatchUp(replicas: Replicas, keys: seq<CounterKey>, now: nat): seq<(CounterKey, Msg)> {
    if keys == [] then []
    else
      var front, k := CatchUp(replicas, keys[..|keys| - 1], now), keys[|keys| - 1];
      if k in replicas && OwnCount(replicas[k], now) != [] then front + [(k, OwnCount(replicas[k], now)[0])] else front
  }

  class CrInMemoryStorage {
    const identifier: Actor
    var limits: map<CounterKey, CrCounterValue>

    /** Every counter has its own value. */
    ghost predicate Valid()
      reads this
    {
      forall j, k :: j in limits && k in limits && j != k ==> limits[j] != limits[k]
    }

    ghost function Contents(): Replicas
      reads this, limits.Values
    {
      map k | k in limits :: limits[k].Contents()
    }

    constructor (id: Actor)
      ensures Valid() && Contents() == map[] && identifier == id
    {
      identifier, limits := id, map[];
    }

    method UpdateCounter(c: Counter, delta: u64, now: nat)
      requires Valid()
      modifies this, limits.Values
      ensures Valid() && fresh(limits.Values - old(limits.Values))
      ensures Contents() == Incremented(old(Contents()), identifier, c, delta, now)
    {
      MakeKnown(c, now);
      assert c.key in limits.Keys && limits[c.key] in limits.Values;
      limits[c.key].IncAt(delta, c.window, now);
    }

    /** Create the counter if this node has none. */
    method MakeKnown(c: Counter, now: nat)
      requires Valid()
      modifies this
      ensures Valid() && c.key in limits && fresh(limits.Values - old(limits.Values))
      ensures Contents() == if c.key in old(Contents()) then old(Contents())
                            else old(Contents())[c.key := Cr(identifier, 0, map[], now + c.window)]
    {
      if c.key !in limits {
        var value := new CrCounterValue(identifier, c.window, now);
        limits := limits[c.key := value];
      }
    }

    /**
     Merge a peer's update. The source panics on a counter this node does not know,
     and on an expiry beyond what a system time can hold.
     */
    method OnCounterUpdate(k: CounterKey, msg: Msg, now: nat) returns (merged: bool)
      requires Valid()
      modifies if k in limits then {limits[k]} else {}
      ensures Valid() && (merged <==> k in old(Contents()) && msg.expiresAt < TIME_LIMIT)
      ensures Contents() == if merged then old(Contents())[k := Received(old(Contents())[k], msg, now)] else old(Contents())
    {
      merged := k in limits && msg.expiresAt < TIME_LIMIT;
      if merged {
        var other := new CrCounterValue.From(EndOf(msg), msg.values);
        limits[k].MergeAt(other, now);
      }
    }

    method ProcessReSync(keys: seq<CounterKey>, now: nat) returns (sent: seq<(CounterKey, Msg)>)
      ensures sent == CatchUp(Contents(), keys, now)
    {
      sent := [];
      for i := 0 to |keys|
        invariant sent == CatchUp(Contents(), keys[..i], now)
      {
        assert keys[..i + 1][..i] == keys[..i];
        var k := keys[i];
        if k in limits {
          var replica := limits[k];
          if replica.value != 0 && replica.expiry > now {
            sent := sent + [(k, Msg(replica.expiry / SECOND, map[replica.ourselves := replica.value]))];
          }
        }
      }
      assert keys[..|keys|] == keys;
    }

    method Evaluate(counters: array<Counter>, delta: u64, now: nat) returns (auth: Authorization)
      modifies counters
      ensures auth.Ok? <==> Admits(Contents(), old(counters[..]), delta, now)
      ensures auth.Limited? ==> exists i: nat ::
                FirstOver(Contents(), old(counters[..]), delta, now, i) && auth.name == old(counters[..])[i].name
      ensures forall i :: 0 <= i < counters.Length ==> counters[i] == Annotated(Contents(), old(counters[..])[i], now)
    {
      ghost var given, replicas, first: nat := counters[..], Contents(), 0;
      auth := Ok;
      for i := 0 to counters.Length
        invariant Contents() == replicas
        invariant auth.Ok? <==> forall j :: 0 <= j < i ==> !Over(replicas, given[j], delta, now)
        invariant auth.Limited? ==> FirstOver(replicas, given, delta, now, first) && auth.name == given[first].name
        invariant forall j :: 0 <= j < i ==> counters[j] == Annotated(replicas, given[j], now)
        invariant forall j :: i <= j < counters.Length ==> counters[j] == given[j]
      {
        var shown, over := Record(counters[i], delta, now);
        counters[i] := shown;
        if auth.Ok? && over {
          auth := Limited(shown.name);
          first := i;
        }
      }
    }

    /** One counter of a check. */
    method Record(c: Counter, delta: u64, now: nat) returns (shown: Counter, over: bool)
      ensures shown == Annotated(Contents(), c, now) && over == Over(Contents(), c, delta, now)
    {
      var value, ttl := 0, c.window;
      if c.key in limits {
        value := limits[c.key].ReadAt(now);
        ttl := if limits[c.key].expiry > now then limits[c.key].expiry - now else c.window;
      }
      shown := c.(remaining := Some(SaturatingSub(c.maxValue, value)), expiresIn := Some(ttl));
      over := value + delta > c.maxValue;
    }
  }

  /** What a catching-up peer is told about a counter is our own count, if there is any to tell. */
  lemma {:induction false} CatchUpTellsOwnCount(replicas: Replicas, keys: seq<CounterKey>, now: nat, i: nat)
    requires i < |keys| && keys[i] in replicas && replicas[keys[i]].value > 0 && replicas[keys[i]].expiry > now
    ensures exists j :: 0 <= j < |CatchUp(replicas, keys, now)| &&
              CatchUp(replicas, keys, now)[j] ==
              (keys[i], Msg(replicas[keys[i]].expiry / SECOND, map[replicas[keys[i]].ourselves := replicas[keys[i]].value]))
    decreases |keys|
  {
    var n := |keys| - 1;
    var front := CatchUp(replicas, keys[..n], now);
    if i < n {
      CatchUpTellsOwnCount(replicas, keys[..n], now, i);
      var j :| 0 <= j < |front| && front[j].0 == keys[i] &&
               front[j].1 == Msg(replicas[keys[i]].expiry / SECOND, map[replicas[keys[i]].ourselves := replicas[keys[i]].value]);
      assert CatchUp(replicas, keys, now)[j] == front[j];
    } else {
      assert CatchUp(replicas, keys, now)[|front|].0 == keys[i];
    }
  }

  /** Other counters than the one incremented are left alone. */
  lemma {:induction false} IncrementLeavesOthers(replicas: Replicas, self: Actor, c: Counter, delta: u64, now: nat, k: CounterKey)
    requires k != c.key
    ensures var r := Incremented(replicas, self, c, delta, now);
            (k in r <==> k in replicas) && (k in r ==> r[k] == replicas[k])
  {
  }

  /**
   An increment of a counter that runs, or was not known, raises what it reads by
   exactly its hits; of one that is over, it reads those hits and the counts of the
   other actors that were left over.
   */
  lemma {:induction false} IncrementCounts(replicas: Replicas, self: Actor, c: Counter, delta: u64, now: nat)
    requires c.window > 0
    ensures Value(Incremented(replicas, self, c, delta, now), c.key, now) ==
            if c.key in replicas && replicas[c.key].expiry <= now then Sum(replicas[c.key].others) + delta
            else Value(replicas, c.key, now) + delta
  {
  }

  /** The increment is the network's own step at this node, so what is proved of runs is proved of it. */
  lemma {:induction false} IncrementIsTheIncStep(
    replicas: Replicas, self: Actor, c: Counter, delta: u64, now: nat, net: Net, n: nat)
    requires n < |net.nodes| == |net.issued|
    requires net.nodes[n] == if c.key in replicas then replicas[c.key] else Cr(self, 0, map[], now + c.window)
    ensures var after := After(net, Inc(n, delta, c.window, now));
            && Incremented(replicas, self, c, delta, now)[c.key] == after.nodes[n]
            && after.issued[n] == net.issued[n] + delta
  {
  }

  /** The check admits exactly the calls whose hits all counters have room for. */
  lemma {:induction false} AdmitsIff(replicas: Replicas, cs: seq<Counter>, delta: u64, now: nat)
    ensures Admits(replicas, cs, delta, now) <==>
            forall i :: 0 <= i < |cs| ==> Value(replicas, cs[i].key, now) + delta <= cs[i].maxValue
  {
    forall i | 0 <= i < |cs|
      ensures Over(replicas, cs[i], delta, now) <==> Value(replicas, cs[i].key, now) + delta > cs[i].maxValue
    {
    }
  }

  /** What a check reports, as for the other storages. */
  lemma {:induction false} AnnotatedIsWhatIsRead(replicas: Replicas, c: Counter, now: nat)
    ensures var shown, value := Annotated(replicas, c, now), Value(replicas, c.key, now);
            && shown.remaining.Some? && shown.expiresIn.Some?
            && (if value <= c.maxValue then shown.remaining.value + value == c.maxValue else shown.remaining.value == 0)
            && (if c.key in replicas && now < replicas[c.key].expiry
                then now + shown.expiresIn.value == replicas[c.key].expiry
                else shown.expiresIn.value == c.window)
  {
  }
}
