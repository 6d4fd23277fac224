/**
 The replicated counter: every actor's own count, merged by taking the larger
 of two views, in a window that ends at the earliest expiry seen.
 */
module CrCounter {
  import opened Prelude

  type Actor = string

  /** The actor of a counter built from a message. */
  const DEFAULT_ACTOR: Actor := ""

  datatype Cr = Cr(ourselves: Actor, value: nat, others: map<Actor, nat>, expiry: nat) {

    /** Our own count is kept apart from the others'. */
    ghost predicate Valid() {
      ourselves !in others
    }

    /** Every count known here, as `into_inner` hands it over. */
    function All(): map<Actor, nat> {
      others[ourselves := value]
    }

    ghost function ReadAt(when: nat): nat {
      if expiry <= when then 0 else Sum(others) + value
    }

    function IncAt(increment: nat, window: nat, when: nat): Cr {
      if expiry <= when then this.(expiry := when + window, value := increment) else this.(value := value + increment)
    }

    function IncActorAt(actor: Actor, increment: nat, window: nat, when: nat): Cr {
      if actor == ourselves then IncAt(increment, window, when)
      else if expiry <= when then this.(expiry := when + window, others := others[actor := increment])
      else this.(others := others[actor := Get(others, actor) + increment])
    }

    /** What is left to merge into once `theirs`, still running at `when`, is known. */
    function Based(theirs: nat, when: nat): Cr {
      if expiry <= when then Cr(ourselves, 0, map[], theirs) else this.(expiry := Min(expiry, theirs))
    }

    /** Take the larger count of every actor; an unknown actor comes in only with a count. */
    function Raised(values: map<Actor, nat>): Cr {
      this.(value := Max(value, Get(values, ourselves)), others := RaisedOver(others, values, ourselves, values.Keys))
    }

    function MergedWith(theirs: nat, values: map<Actor, nat>, when: nat): Cr {
      if theirs > when then Based(theirs, when).Raised(values) else this
    }

    function MergeAt(other: Cr, when: nat): Cr {
      MergedWith(other.expiry, other.All(), when)
    }
  }

  function Get(m: map<Actor, nat>, a: Actor): nat {
    if a in m then m[a] else 0
  }

  /** A counter built from a message belongs to the default actor. */
  function FromMessage(expiry: nat, values: map<Actor, nat>): Cr {
    Cr(DEFAULT_ACTOR, 0, values, expiry)
  }

  // ---- Sums over maps ----

  ghost function Sum(m: map<Actor, nat>): nat
    decreases |m|
  {
    if m == map[] then 0
    else
      var a :| a in m;
      m[a] + Sum(m - {a})
  }

  lemma {:induction false} SumWithout(m: map<Actor, nat>, a: Actor)
    requires a in m
    ensures Sum(m) == m[a] + Sum(m - {a})
    decreases |m|
  {
    var b :| b in m && Sum(m) == m[b] + Sum(m - {b});
    if a != b {
      SumWithout(m - {b}, a);
      SumWithout(m - {a}, b);
      assert m - {a} - {b} == m - {b} - {a};
    }
  }

  lemma {:induction false} SumWith(m: map<Actor, nat>, a: Actor, n: nat)
    requires a !in m
    ensures Sum(m[a := n]) == Sum(m) + n
  {
    SumWithout(m[a := n], a);
    assert m[a := n] - {a} == m;
  }

  /** While a window runs, a read is the sum of every actor's count. */
  lemma {:induction false} ReadIsTheSum(c: Cr, when: nat)
    requires c.Valid()
    ensures c.ReadAt(when) == if c.expiry <= when then 0 else Sum(c.All())
  {
    SumWith(c.others, c.ourselves, c.value);
  }

  // ---- The class ----

  class CrCounterValue {
    const ourselves: Actor
    var value: nat
    var others: map<Actor, nat>
    var expiry: nat

    ghost function Contents(): Cr
      reads this
    {
      Cr(ourselves, value, others, expiry)
    }

    constructor (actor: Actor, window: nat, now: nat)
      ensures Contents() == Cr(actor, 0, map[], now + window)
    {
      ourselves, value, others, expiry := actor, 0, map[], now + window;
    }

    constructor From(theirs: nat, values: map<Actor, nat>)
      ensures Contents() == FromMessage(theirs, values)
    {
      ourselves, value, others, expiry := DEFAULT_ACTOR, 0, values, theirs;
    }

    method ReadAt(when: nat) returns (n: nat)
      ensures n == Contents().ReadAt(when)
    {
      if expiry <= when {
        return 0;
      }
      var total, rest := 0, others;
      while rest != map[]
        invariant total + Sum(rest) == Sum(others)
        decreases |rest|
      {
        var a :| a in rest;
        SumWithout(rest, a);
        total, rest := total + rest[a], rest - {a};
      }
      return total + value;
    }

    method UpdateIfExpired(window: nat, when: nat) returns (renewed: bool)
      modifies this`expiry
      ensures renewed <==> old(expiry) <= when
      ensures expiry == if renewed then when + window else old(expiry)
    {
      renewed := expiry <= when;
      if renewed {
        expiry := when + window;
      }
    }

    method IncAt(increment: nat, window: nat, when: nat)
      modifies this
      ensures Contents() == old(Contents()).IncAt(increment, window, when)
    {
      var renewed := UpdateIfExpired(window, when);
      if renewed {
        value := increment;
      } else {
        value := value + increment;
      }
    }

    method IncActorAt(actor: Actor, increment: nat, window: nat, when: nat)
      modifies this
      ensures Contents() == old(Contents()).IncActorAt(actor, increment, window, when)
    {
      if actor == ourselves {
        IncAt(increment, window, when);
      } else {
        var renewed := UpdateIfExpired(window, when);
        if renewed {
          others := others[actor := increment];
        } else {
          var known := if actor in others then others[actor] else 0;
          others := others[actor := known + increment];
        }
      }
    }

    method IntoInner() returns (theirs: nat, values: map<Actor, nat>)
      ensures theirs == expiry && values == Contents().All()
    {
      theirs, values := expiry, others[ourselves := value];
    }

    method Reset(until: nat)
      modifies this
      ensures Contents() == Cr(ourselves, 0, map[], until)
    {
      expiry, value, others := until, 0, map[];
    }

    /** Shorten our window to theirs, or start theirs if ours is over. */
    method JoinWindow(theirs: nat, when: nat)
      requires theirs > when
      modifies this
      ensures Contents() == old(Contents()).Based(theirs, when)
    {
      if theirs < expiry {
        expiry := theirs;
      }
      if expiry <= when {
        Reset(theirs);
      }
    }

    method MergeAt(other: CrCounterValue, when: nat)
      modifies this
      ensures Contents() == old(Contents()).MergeAt(old(other.Contents()), when)
    {
      var theirs, values := other.IntoInner();
      if theirs > when {
        JoinWindow(theirs, when);
        RaiseAll(values);
      }
    }

    method RaiseAll(values: map<Actor, nat>)
      modifies this
      ensures Contents() == old(Contents()).Raised(values)
    {
      var ours, rest := value, values.Keys;
      ghost var done: seq<Actor> := [];
      while rest != {}
        invariant expiry == old(expiry) && rest <= values.Keys
        invariant forall a :: a in done <==> a in values && a !in rest
        invariant value == if ourselves in done then Max(ours, values[ourselves]) else ours
        invariant others == RaisedInTurn(old(others), values, ourselves, done)
        decreases |rest|
      {
        var a :| a in rest;
        RaiseOne(a, values[a], ours);
        rest, done := rest - {a}, done + [a];
      }
      RaisedInAnyOrder(old(others), values, ourselves, done, values.Keys);
    }

    /** One actor's count; `ours` is our own count as it was when the merge began. */
    method RaiseOne(a: Actor, count: nat, ours: nat)
      modifies this`value, this`others
      ensures value == if a == ourselves && count > ours then old(value) + (count - ours) else old(value)
      ensures others == RaisedBy(old(others), ourselves, a, count)
    {
      if a == ourselves {
        if count > ours {
          value := value + (count - ours);
        }
      } else if a in others {
        if count > others[a] {
          others := others[a := count];
        }
      } else if count > 0 {
        others := others[a := count];
      }
    }
  }

  function RaisedBy(others: map<Actor, nat>, ourselves: Actor, a: Actor, count: nat): map<Actor, nat> {
    if a == ourselves || (a !in others && count == 0) then others else others[a := Max(Get(others, a), count)]
  }

  /** The other actors' counts once those in `done` have been merged. */
  function RaisedOver(others: map<Actor, nat>, values: map<Actor, nat>, ourselves: Actor, done: set<Actor>): map<Actor, nat>
    requires done <= values.Keys
  {
    map a | a in others.Keys + done && (a in others || (a != ourselves && values[a] > 0)) ::
      if a in done && a != ourselves then Max(Get(others, a), values[a]) else Get(others, a)
  }

  /** The same counts, merged one after the other. */
  function RaisedInTurn(others: map<Actor, nat>, values: map<Actor, nat>, ourselves: Actor, done: seq<Actor>): map<Actor, nat> {
    if done == [] then others
    else
      var a := done[|done| - 1];
      RaisedBy(RaisedInTurn(others, values, ourselves, done[..|done| - 1]), ourselves, a, Get(values, a))
  }

  /** The order in which a message's counts are merged does not matter. */
  lemma {:induction false} RaisedInAnyOrder(
    others: map<Actor, nat>, values: map<Actor, nat>, ourselves: Actor, done: seq<Actor>, actors: set<Actor>)
    requires actors <= values.Keys && forall a :: a in done <==> a in actors
    ensures RaisedInTurn(others, values, ourselves, done) == RaisedOver(others, values, ourselves, actors)
    decreases |done|
  {
    if done == [] {
    } else {
      var front, a := done[..|done| - 1], done[|done| - 1];
      var before := set b | b in front;
      assert done == front + [a] && actors == before + {a};
      RaisedInAnyOrder(others, values, ourselves, front, before);
      RaisedOverNext(others, values, ourselves, before, a);
    }
  }

  lemma {:induction false} RaisedOverNext(others: map<Actor, nat>, values: map<Actor, nat>, ourselves: Actor, done: set<Actor>, a: Actor)
    requires done <= values.Keys && a in values
    ensures RaisedOver(others, values, ourselves, done + {a}) ==
            RaisedBy(RaisedOver(others, values, ourselves, done), ourselves, a, values[a])
  {
  }
}
