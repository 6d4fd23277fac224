/**
 Nodes replicating one counter inside one window. Messages are snapshots: they
 stay around once sent, so that they may arrive late, out of order, many times
 or never.
 */
module Replication {
  import opened Prelude
  import opened CrCounter
  import opened CrLattice

  /** Clocks count microseconds; a message carries whole seconds. */
  const SECOND: nat := 1_000_000

  datatype Msg = Msg(expiresAt: nat, values: map<Actor, nat>)

  /** `issued[i]` counts the hits recorded at node `i`. */
  datatype Net = Net(nodes: seq<Cr>, msgs: seq<Msg>, issued: seq<nat>)

  datatype Step =
    | Inc(n: nat, delta: nat, window: nat, when: nat)
    | Publish(n: nat, when: nat)
    | Resync(n: nat, when: nat)
    | Receive(n: nat, m: nat, when: nat)

  /** What an increment broadcasts: every count known here, unless the window is over. */
  function Snapshot(c: Cr, when: nat): seq<Msg> {
    if c.expiry > when then [Msg(c.expiry / SECOND, c.All())] else []
  }

  /** What a peer that asks to catch up is sent: our own count, unless there is nothing to tell. */
  function OwnCount(c: Cr, when: nat): seq<Msg> {
    if c.value == 0 || c.expiry <= when then [] else [Msg(c.expiry / SECOND, map[c.ourselves := c.value])]
  }

  /** A counter keeps its expiry in 64 bits of microseconds, and so the end a message gives it. */
  function EndOf(msg: Msg): nat {
    Wrap(msg.expiresAt * SECOND)
  }

  /** A message ends when it says exactly when that many microseconds fit 64 bits. */
  lemma {:induction false} MessageEndIsExactIff(msg: Msg)
    ensures EndOf(msg) == msg.expiresAt * SECOND <==> msg.expiresAt * SECOND < U64
  {
  }

  /** A message of the far future, some 584 thousand years on, is taken to have expired within a second of the epoch. */
  lemma {:induction false} FarFutureEndsAtOnce(values: map<Actor, nat>)
    ensures EndOf(Msg(18_446_744_073_710, values)) == 448_384
  {
  }

  function Received(c: Cr, msg: Msg, when: nat): Cr {
    c.MergeAt(FromMessage(EndOf(msg), msg.values), when)
  }

  function After(net: Net, step: Step): Net
    requires step.n < |net.nodes| == |net.issued|
  {
    var c := net.nodes[step.n];
    match step
    case Inc(n, delta, window, when) =>
      net.(nodes := net.nodes[n := c.IncAt(delta, window, when)], issued := net.issued[n := net.issued[n] + delta])
    case Publish(n, when) => net.(msgs := net.msgs + Snapshot(c, when))
    case Resync(n, when) => net.(msgs := net.msgs + OwnCount(c, when))
    case Receive(n, m, when) =>
      if m < |net.msgs| then net.(nodes := net.nodes[n := Received(c, net.msgs[m], when)]) else net
  }

  /** Steps of nodes that exist, all before the window ends. */
  ghost predicate Timely(steps: seq<Step>, nodes: nat, end: nat) {
    forall i :: 0 <= i < |steps| ==> steps[i].n < nodes && steps[i].when < end
  }

  function AfterAll(net: Net, steps: seq<Step>): (r: Net)
    requires |net.nodes| == |net.issued| && forall i :: 0 <= i < |steps| ==> steps[i].n < |net.nodes|
    ensures |r.nodes| == |r.issued| == |net.nodes|
    decreases |steps|
  {
    if steps == [] then net else After(AfterAll(net, steps[..|steps| - 1]), steps[|steps| - 1])
  }

  // ---- The invariant ----

  function Count(c: Cr, a: Actor): nat {
    Get(c.All(), a)
  }

  /** Different nodes are different actors, and none is the default one. */
  ghost predicate Names(names: seq<Actor>) {
    && (forall i, j :: 0 <= i < j < |names| ==> names[i] != names[j])
    && (forall i :: 0 <= i < |names| ==> names[i] != DEFAULT_ACTOR)
  }

  /** No count is above what its actor issued, and no stranger is counted. */
  ghost predicate Within(values: map<Actor, nat>, names: seq<Actor>, issued: seq<nat>)
    requires |names| == |issued|
  {
    && (forall i :: 0 <= i < |names| ==> Get(values, names[i]) <= issued[i])
    && (forall a :: a in values ==> a in names)
  }

  ghost predicate NodeOk(c: Cr, names: seq<Actor>, issued: seq<nat>, end: nat, i: nat)
    requires i < |names| == |issued|
  {
    c.Valid() && c.ourselves == names[i] && end <= c.expiry < U64 && c.value == issued[i] && Within(c.All(), names, issued)
  }

  ghost predicate MsgOk(msg: Msg, names: seq<Actor>, issued: seq<nat>, end: nat)
    requires |names| == |issued|
  {
    EndOf(msg) >= end && Within(msg.values, names, issued)
  }

  ghost predicate Inv(net: Net, names: seq<Actor>, end: nat) {
    && Names(names) && |names| == |net.nodes| == |net.issued| && end % SECOND == 0
    && (forall i :: 0 <= i < |names| ==> NodeOk(net.nodes[i], names, net.issued, end, i))
    && (forall m :: 0 <= m < |net.msgs| ==> MsgOk(net.msgs[m], names, net.issued, end))
  }

  /** A window that outlasts a whole-second bound still does once cut to whole seconds. */
  lemma {:induction false} FloorKeepsBound(expiry: nat, end: nat)
    requires end % SECOND == 0 && end <= expiry < U64
    ensures Wrap(expiry / SECOND * SECOND) >= end
  {
  }

  lemma {:induction false} WithinGrows(values: map<Actor, nat>, names: seq<Actor>, issued: seq<nat>, n: nat, delta: nat)
    requires |names| == |issued| && n < |issued| && Within(values, names, issued)
    ensures Within(values, names, issued[n := issued[n] + delta])
  {
  }

  lemma {:induction false} IncKeeps(net: Net, names: seq<Actor>, end: nat, step: Step)
    requires Inv(net, names, end) && step.Inc? && step.n < |names| && step.when < end
    ensures Inv(After(net, step), names, end)
  {
    var net', n := After(net, step), step.n;
    forall i | 0 <= i < |names|
      ensures NodeOk(net'.nodes[i], names, net'.issued, end, i)
    {
      assert NodeOk(net.nodes[i], names, net.issued, end, i);
      WithinGrows(net.nodes[i].All(), names, net.issued, n, step.delta);
      if i == n {
        assert net'.nodes[n].All() == net.nodes[n].All()[names[n] := net'.issued[n]];
      }
    }
    forall m | 0 <= m < |net.msgs|
      ensures MsgOk(net.msgs[m], names, net'.issued, end)
    {
      assert MsgOk(net.msgs[m], names, net.issued, end);
      WithinGrows(net.msgs[m].values, names, net.issued, n, step.delta);
    }
  }

  lemma {:induction false} SendKeeps(net: Net, names: seq<Actor>, end: nat, step: Step)
    requires Inv(net, names, end) && (step.Publish? || step.Resync?) && step.n < |names| && step.when < end
    ensures Inv(After(net, step), names, end)
  {
    var c := net.nodes[step.n];
    assert NodeOk(c, names, net.issued, end, step.n);
    FloorKeepsBound(c.expiry, end);
    assert Get(c.All(), c.ourselves) == c.value && c.ourselves in c.All();
  }

  lemma {:induction false} ReceivedCount(c: Cr, msg: Msg, when: nat, a: Actor)
    requires c.Valid() && c.expiry > when && EndOf(msg) > when
    ensures Received(c, msg, when).Valid()
    ensures Count(Received(c, msg, when), a) == Max(Count(c, a), if a == DEFAULT_ACTOR then 0 else Get(msg.values, a))
  {
    RaisedCount(c.Based(EndOf(msg), when), FromMessage(EndOf(msg), msg.values).All(), a);
  }

  lemma {:induction false} ReceivedOk(c: Cr, msg: Msg, names: seq<Actor>, issued: seq<nat>, end: nat, when: nat, i: nat)
    requires Names(names) && i < |names| == |issued| && when < end
    requires NodeOk(c, names, issued, end, i) && MsgOk(msg, names, issued, end)
    ensures NodeOk(Received(c, msg, when), names, issued, end, i)
  {
    forall j | 0 <= j < |names|
      ensures Count(Received(c, msg, when), names[j]) <= issued[j]
    {
      ReceivedCount(c, msg, when, names[j]);
    }
    ReceivedCount(c, msg, when, names[i]);
    assert Count(c, names[i]) == issued[i];
    forall a | a in Received(c, msg, when).All()
      ensures a in names
    {
      assert a in c.All() || a in msg.values;
    }
  }

  lemma {:induction false} StepKeepsInv(net: Net, names: seq<Actor>, end: nat, step: Step)
    requires Inv(net, names, end) && step.n < |names| && step.when < end
    ensures Inv(After(net, step), names, end)
  {
    match step
    case Inc(_, _, _, _) => IncKeeps(net, names, end, step);
    case Publish(_, _) => SendKeeps(net, names, end, step);
    case Resync(_, _) => SendKeeps(net, names, end, step);
    case Receive(n, m, when) =>
      if m < |net.msgs| {
        ReceivedOk(net.nodes[n], net.msgs[m], names, net.issued, end, when, n);
      }
  }

  lemma {:induction false} RunKeepsInv(net: Net, names: seq<Actor>, end: nat, steps: seq<Step>)
    requires Inv(net, names, end) && Timely(steps, |names|, end)
    ensures Inv(AfterAll(net, steps), names, end)
    decreases |steps|
  {
    if steps == [] {
    } else {
      RunKeepsInv(net, names, end, steps[..|steps| - 1]);
      StepKeepsInv(AfterAll(net, steps[..|steps| - 1]), names, end, steps[|steps| - 1]);
    }
  }

  // ---- Reads ----

  ghost function Total(issued: seq<nat>): nat {
    SumTo(|issued|, (i: nat) => if i < |issued| then issued[i] else 0)
  }

  ghost function CountsOf(values: map<Actor, nat>, names: seq<Actor>): nat -> nat {
    (i: nat) => if i < |names| then Get(values, names[i]) else 0
  }

  /** Summing a map of counts is summing over the actors. */
  lemma {:induction false} SumByNames(values: map<Actor, nat>, names: seq<Actor>, k: nat)
    requires Names(names) && k <= |names| && forall a :: a in values ==> a in names[..k]
    ensures Sum(values) == SumTo(k, CountsOf(values, names))
    decreases k
  {
    if k == 0 {
      assert values == map[];
    } else {
      var a := names[k - 1];
      var rest := values - {a};
      assert names[..k] == names[..k - 1] + [a];
      SumByNames(rest, names, k - 1);
      SumToAgree(k - 1, CountsOf(values, names), CountsOf(rest, names));
      if a in values {
        SumWithout(values, a);
      } else {
        assert rest == values;
      }
    }
  }

  lemma {:induction false} ReadIs(net: Net, names: seq<Actor>, end: nat, i: nat, when: nat)
    requires Inv(net, names, end) && i < |names| && when < end
    ensures net.nodes[i].ReadAt(when) == SumTo(|names|, CountsOf(net.nodes[i].All(), names))
  {
    assert NodeOk(net.nodes[i], names, net.issued, end, i);
    ReadIsTheSum(net.nodes[i], when);
    assert names[..|names|] == names;
    SumByNames(net.nodes[i].All(), names, |names|);
  }

  lemma {:induction false} StepGrows(net: Net, names: seq<Actor>, end: nat, step: Step, i: nat, a: Actor)
    requires Inv(net, names, end) && step.n < |names| && step.when < end && i < |names|
    ensures Count(After(net, step).nodes[i], a) >= Count(net.nodes[i], a)
  {
    assert NodeOk(net.nodes[i], names, net.issued, end, i);
    if step.Receive? && step.m < |net.msgs| && step.n == i {
      assert MsgOk(net.msgs[step.m], names, net.issued, end);
      ReceivedCount(net.nodes[i], net.msgs[step.m], step.when, a);
    }
  }

  lemma {:induction false} RunGrows(net: Net, names: seq<Actor>, end: nat, steps: seq<Step>, p: nat, i: nat, a: Actor)
    requires Inv(net, names, end) && Timely(steps, |names|, end) && p <= |steps| && i < |names|
    ensures Count(AfterAll(net, steps[..p]).nodes[i], a) <= Count(AfterAll(net, steps).nodes[i], a)
    decreases |steps|
  {
    if p < |steps| {
      var front, last := steps[..|steps| - 1], steps[|steps| - 1];
      assert front[..p] == steps[..p];
      RunGrows(net, names, end, front, p, i, a);
      RunKeepsInv(net, names, end, front);
      var mid := AfterAll(net, front);
      StepGrows(mid, names, end, last, i, a);
      assert AfterAll(net, steps) == After(mid, last);
    } else {
      assert steps[..p] == steps;
    }
  }

  /** Messages stay where they were sent. */
  lemma {:induction false} MessagesStay(net: Net, steps: seq<Step>, p: nat, m: nat)
    requires |net.nodes| == |net.issued| && forall i :: 0 <= i < |steps| ==> steps[i].n < |net.nodes|
    requires p <= |steps| && m < |AfterAll(net, steps[..p]).msgs|
    ensures m < |AfterAll(net, steps).msgs| && AfterAll(net, steps).msgs[m] == AfterAll(net, steps[..p]).msgs[m]
    decreases |steps|
  {
    if p < |steps| {
      var front := steps[..|steps| - 1];
      assert front[..p] == steps[..p];
      MessagesStay(net, front, p, m);
    } else {
      assert steps[..p] == steps;
    }
  }

  /**
   Whatever messages are delayed, reordered, repeated or lost: no node ever counts
   more for an actor than the actor issued, a node's read never goes down, and it
   never exceeds what all nodes issued together.
   */
  lemma {:induction false} ReadsGrowUpToTheTotal(net: Net, names: seq<Actor>, end: nat, steps: seq<Step>, p: nat, i: nat, earlier: nat, later: nat)
    requires Inv(net, names, end) && Timely(steps, |names|, end) && p <= |steps| && i < |names|
    requires earlier < end && later < end
    ensures var before, after := AfterAll(net, steps[..p]), AfterAll(net, steps);
            && (forall j :: 0 <= j < |names| ==> Count(after.nodes[i], names[j]) <= after.issued[j])
            && before.nodes[i].ReadAt(earlier) <= after.nodes[i].ReadAt(later) <= Total(after.issued)
  {
    RunKeepsInv(net, names, end, steps);
    ReadsNeverGoDown(net, names, end, steps, p, i, earlier, later);
    ReadWithinTotal(AfterAll(net, steps), names, end, i, later);
  }

  lemma {:induction false} ReadsNeverGoDown(net: Net, names: seq<Actor>, end: nat, steps: seq<Step>, p: nat, i: nat, earlier: nat, later: nat)
    requires Inv(net, names, end) && Timely(steps, |names|, end) && p <= |steps| && i < |names|
    requires earlier < end && later < end
    ensures AfterAll(net, steps[..p]).nodes[i].ReadAt(earlier) <= AfterAll(net, steps).nodes[i].ReadAt(later)
  {
    var before, after := AfterAll(net, steps[..p]), AfterAll(net, steps);
    RunKeepsInv(net, names, end, steps);
    RunKeepsInv(net, names, end, steps[..p]);
    ReadIs(before, names, end, i, earlier);
    ReadIs(after, names, end, i, later);
    forall j | 0 <= j < |names|
      ensures Count(before.nodes[i], names[j]) <= Count(after.nodes[i], names[j])
    {
      RunGrows(net, names, end, steps, p, i, names[j]);
    }
    SumToMonotone(|names|, CountsOf(before.nodes[i].All(), names), CountsOf(after.nodes[i].All(), names));
  }

  lemma {:induction false} ReadWithinTotal(net: Net, names: seq<Actor>, end: nat, i: nat, when: nat)
    requires Inv(net, names, end) && i < |names| && when < end
    ensures forall j :: 0 <= j < |names| ==> Count(net.nodes[i], names[j]) <= net.issued[j]
    ensures net.nodes[i].ReadAt(when) <= Total(net.issued)
  {
    assert NodeOk(net.nodes[i], names, net.issued, end, i);
    ReadIs(net, names, end, i, when);
    SumToMonotone(|names|, CountsOf(net.nodes[i].All(), names), (j: nat) => if j < |net.issued| then net.issued[j] else 0);
  }

  // ---- Convergence ----

  /** Node `a` records nothing after step `j`. */
  ghost predicate LastIncBefore(steps: seq<Step>, a: nat, j: nat) {
    forall i :: j <= i < |steps| && steps[i].Inc? ==> steps[i].n != a
  }

  /** At step `j` node `a` sent a snapshot, its last increment behind it, and at step `l` node `b` received it. */
  ghost predicate HeardAt(net: Net, steps: seq<Step>, b: nat, a: nat, j: nat, l: nat)
    requires |net.nodes| == |net.issued| && forall i :: 0 <= i < |steps| ==> steps[i].n < |net.nodes|
  {
    && j < l < |steps| && LastIncBefore(steps, a, j)
    && (steps[j].Publish? || steps[j].Resync?) && steps[j].n == a
    && |AfterAll(net, steps[..j + 1]).msgs| == |AfterAll(net, steps[..j]).msgs| + 1
    && steps[l].Receive? && steps[l].n == b && steps[l].m == |AfterAll(net, steps[..j]).msgs|
  }

  ghost predicate Heard(net: Net, steps: seq<Step>, b: nat, a: nat)
    requires |net.nodes| == |net.issued| && forall i :: 0 <= i < |steps| ==> steps[i].n < |net.nodes|
  {
    exists j: nat, l: nat :: HeardAt(net, steps, b, a, j, l)
  }

  lemma {:induction false} IssuedStays(net: Net, steps: seq<Step>, a: nat, j: nat)
    requires |net.nodes| == |net.issued| && a < |net.nodes| && j <= |steps| && LastIncBefore(steps, a, j)
    requires forall i :: 0 <= i < |steps| ==> steps[i].n < |net.nodes|
    ensures AfterAll(net, steps).issued[a] == AfterAll(net, steps[..j]).issued[a]
    decreases |steps|
  {
    if j < |steps| {
      var front := steps[..|steps| - 1];
      assert front[..j] == steps[..j];
      IssuedStays(net, front, a, j);
    } else {
      assert steps[..j] == steps;
    }
  }

  /** A snapshot carries its sender's own count in full. */
  lemma {:induction false} SnapshotTellsOwn(net: Net, names: seq<Actor>, end: nat, steps: seq<Step>, b: nat, a: nat, j: nat, l: nat)
    requires Inv(net, names, end) && Timely(steps, |names|, end) && a < |names| && b < |names|
    requires HeardAt(net, steps, b, a, j, l)
    ensures steps[l].m < |AfterAll(net, steps[..l]).msgs|
    ensures Get(AfterAll(net, steps[..l]).msgs[steps[l].m].values, names[a]) == AfterAll(net, steps).issued[a]
  {
    var at := AfterAll(net, steps[..j]);
    RunKeepsInv(net, names, end, steps[..j]);
    assert NodeOk(at.nodes[a], names, at.issued, end, a);
    assert steps[..j + 1][..j] == steps[..j];
    assert AfterAll(net, steps[..j + 1]) == After(at, steps[j]);
    IssuedStays(net, steps, a, j);
    assert steps[..l][..j + 1] == steps[..j + 1];
    MessagesStay(net, steps[..l], j + 1, |at.msgs|);
  }

  lemma {:induction false} ReceiveCounts(net: Net, names: seq<Actor>, end: nat, step: Step, a: nat)
    requires Inv(net, names, end) && step.Receive? && step.n < |names| && step.when < end
    requires a < |names| && step.m < |net.msgs|
    ensures Count(After(net, step).nodes[step.n], names[a]) >= Get(net.msgs[step.m].values, names[a])
  {
    assert NodeOk(net.nodes[step.n], names, net.issued, end, step.n) && MsgOk(net.msgs[step.m], names, net.issued, end);
    ReceivedCount(net.nodes[step.n], net.msgs[step.m], step.when, names[a]);
  }

  lemma {:induction false} AfterSnoc(net: Net, steps: seq<Step>, l: nat)
    requires |net.nodes| == |net.issued| && l < |steps| && forall i :: 0 <= i < |steps| ==> steps[i].n < |net.nodes|
    ensures AfterAll(net, steps[..l + 1]) == After(AfterAll(net, steps[..l]), steps[l])
  {
    assert steps[..l + 1][..l] == steps[..l];
  }

  /** What a node has received it never forgets. */
  lemma {:induction false} ReceivedStays(net: Net, names: seq<Actor>, end: nat, steps: seq<Step>, a: nat, l: nat, count: nat)
    requires Inv(net, names, end) && Timely(steps, |names|, end) && a < |names| && l < |steps| && steps[l].Receive?
    requires steps[l].m < |AfterAll(net, steps[..l]).msgs|
    requires Get(AfterAll(net, steps[..l]).msgs[steps[l].m].values, names[a]) == count
    ensures Count(AfterAll(net, steps).nodes[steps[l].n], names[a]) >= count
  {
    RunKeepsInv(net, names, end, steps[..l]);
    ReceiveCounts(AfterAll(net, steps[..l]), names, end, steps[l], a);
    AfterSnoc(net, steps, l);
    RunGrows(net, names, end, steps, l + 1, steps[l].n, names[a]);
  }

  lemma {:induction false} HeardIsCounted(net: Net, names: seq<Actor>, end: nat, steps: seq<Step>, b: nat, a: nat, j: nat, l: nat)
    requires Inv(net, names, end) && Timely(steps, |names|, end) && a < |names| && b < |names|
    requires HeardAt(net, steps, b, a, j, l)
    ensures Count(AfterAll(net, steps).nodes[b], names[a]) >= AfterAll(net, steps).issued[a]
  {
    SnapshotTellsOwn(net, names, end, steps, b, a, j, l);
    ReceivedStays(net, names, end, steps, a, l, AfterAll(net, steps).issued[a]);
  }

  /**
   Once every node has received from every other one a snapshot taken after that
   one's last increment, all nodes read the same: exactly what was issued in total.
   A node that issued nothing need not be heard from.
   */
  lemma {:induction false} NodesConverge(net: Net, names: seq<Actor>, end: nat, steps: seq<Step>, when: nat)
    requires Inv(net, names, end) && Timely(steps, |names|, end) && when < end
    requires forall a, b :: 0 <= a < |names| && 0 <= b < |names| && a != b ==>
               AfterAll(net, steps).issued[a] == 0 || Heard(net, steps, b, a)
    ensures forall b :: 0 <= b < |names| ==> AfterAll(net, steps).nodes[b].ReadAt(when) == Total(AfterAll(net, steps).issued)
  {
    var after := AfterAll(net, steps);
    RunKeepsInv(net, names, end, steps);
    forall b | 0 <= b < |names|
      ensures after.nodes[b].ReadAt(when) == Total(after.issued)
    {
      assert NodeOk(after.nodes[b], names, after.issued, end, b);
      forall a | 0 <= a < |names|
        ensures Count(after.nodes[b], names[a]) == after.issued[a]
      {
        if a != b && after.issued[a] > 0 {
          assert Heard(net, steps, b, a);
          var j: nat, l: nat :| HeardAt(net, steps, b, a, j, l);
          HeardIsCounted(net, names, end, steps, b, a, j, l);
        }
      }
      ReadIs(after, names, end, b, when);
      SumToAgree(|names|, CountsOf(after.nodes[b].All(), names), (j: nat) => if j < |after.issued| then after.issued[j] else 0);
    }
  }

  /** Fresh counters in a window that runs to `end` and beyond satisfy what every run keeps. */
  lemma {:induction false} FreshNodes(net: Net, names: seq<Actor>, end: nat)
    requires Names(names) && |names| == |net.nodes| == |net.issued| && end % SECOND == 0 && net.msgs == []
    requires forall i :: 0 <= i < |names| ==>
               net.issued[i] == 0 && net.nodes[i].value == 0 && net.nodes[i].others == map[] &&
               net.nodes[i].ourselves == names[i] && end <= net.nodes[i].expiry < U64
    ensures Inv(net, names, end)
  {
    forall i | 0 <= i < |names|
      ensures NodeOk(net.nodes[i], names, net.issued, end, i)
    {
      assert net.nodes[i].All() == map[names[i] := 0];
    }
  }

  // ---- What is sent and taken in ----

  /** A broadcast goes out exactly while the window runs, with every count as known here and an end cut by less than a second. */
  lemma {:induction false} PublishTellsAll(net: Net, n: nat, when: nat)
    requires n < |net.nodes| == |net.issued|
    ensures var c, msgs := net.nodes[n], After(net, Publish(n, when)).msgs;
            if c.expiry <= when then msgs == net.msgs
            else
              && |msgs| == |net.msgs| + 1 && msgs[..|net.msgs|] == net.msgs
              && (forall a :: Get(msgs[|net.msgs|].values, a) == Count(c, a))
              && msgs[|net.msgs|].expiresAt * SECOND <= c.expiry < (msgs[|net.msgs|].expiresAt + 1) * SECOND
  {
  }

  /** A catch-up message goes out exactly while the window runs and there is a count of our own, and tells nothing else. */
  lemma {:induction false} ResyncTellsOwn(net: Net, n: nat, when: nat)
    requires n < |net.nodes| == |net.issued|
    ensures var c, msgs := net.nodes[n], After(net, Resync(n, when)).msgs;
            if c.expiry <= when || c.value == 0 then msgs == net.msgs
            else
              && |msgs| == |net.msgs| + 1 && msgs[..|net.msgs|] == net.msgs
              && (forall a :: Get(msgs[|net.msgs|].values, a) == if a == c.ourselves then c.value else 0)
              && msgs[|net.msgs|].expiresAt * SECOND <= c.expiry < (msgs[|net.msgs|].expiresAt + 1) * SECOND
  {
  }

  /** Taking a message in joins what is seen with what it says, as of that moment; one whose end has passed says nothing. */
  lemma {:induction false} ReceiveIsJoin(net: Net, n: nat, m: nat, when: nat)
    requires n < |net.nodes| == |net.issued| && m < |net.msgs| && net.nodes[n].Valid()
    ensures var told := FromMessage(EndOf(net.msgs[m]), net.msgs[m].values);
            Seen(After(net, Receive(n, m, when)).nodes[n], when) == Join(Seen(net.nodes[n], when), Seen(told, when))
    ensures EndOf(net.msgs[m]) <= when ==> After(net, Receive(n, m, when)) == net
  {
    MergeIsJoin(net.nodes[n], FromMessage(EndOf(net.msgs[m]), net.msgs[m].values), when);
    assert net.nodes[n := net.nodes[n]] == net.nodes;
  }
}
