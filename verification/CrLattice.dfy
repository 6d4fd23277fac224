/**
 Merging replicated counters at one moment is a lattice join: an expired
 counter is the bottom, and of two running ones the earlier expiry and every
 actor's larger count are kept.
 */
module CrLattice {
  import opened Prelude
  import opened CrCounter

  /** What a counter tells at some moment. Actors without hits are not listed. */
  datatype Replica = Bottom | Running(expiry: nat, counts: map<Actor, nat>)

  function Positive(m: map<Actor, nat>): map<Actor, nat> {
    map a | a in m && m[a] > 0 :: m[a]
  }

  function Seen(c: Cr, when: nat): Replica {
    if c.expiry <= when then Bottom else Running(c.expiry, Positive(c.All()))
  }

  function Larger(x: map<Actor, nat>, y: map<Actor, nat>): map<Actor, nat> {
    map a | a in x.Keys + y.Keys :: Max(Get(x, a), Get(y, a))
  }

  function Join(x: Replica, y: Replica): Replica {
    match (x, y)
    case (Bottom, _) => y
    case (_, Bottom) => x
    case (Running(e, m), Running(f, n)) => Running(Min(e, f), Larger(m, n))
  }

  lemma {:induction false} LargerLaws(x: map<Actor, nat>, y: map<Actor, nat>)
    ensures Larger(x, x) == x && Larger(x, y) == Larger(y, x)
  {
  }

  lemma {:induction false} LargerAt(x: map<Actor, nat>, y: map<Actor, nat>, a: Actor)
    ensures a in Larger(x, y) <==> a in x || a in y
    ensures Get(Larger(x, y), a) == Max(Get(x, a), Get(y, a))
  {
  }

  lemma {:induction false} LargerAssociates(x: map<Actor, nat>, y: map<Actor, nat>, z: map<Actor, nat>)
    ensures Larger(x, Larger(y, z)) == Larger(Larger(x, y), z)
  {
    var yz, xy := Larger(y, z), Larger(x, y);
    var l, r := Larger(x, yz), Larger(xy, z);
    forall a
      ensures (a in l <==> a in r) && Get(l, a) == Get(r, a)
    {
      LargerAt(y, z, a);
      LargerAt(x, y, a);
      LargerAt(x, yz, a);
      LargerAt(xy, z, a);
    }
    SameCounts(l, r);
  }

  lemma {:induction false} SameCounts(l: map<Actor, nat>, r: map<Actor, nat>)
    requires forall a :: (a in l <==> a in r) && Get(l, a) == Get(r, a)
    ensures l == r
  {
    forall a | a in l
      ensures a in r && l[a] == r[a]
    {
      assert Get(l, a) == Get(r, a);
    }
  }

  lemma {:induction false} JoinLaws(x: Replica, y: Replica)
    ensures Join(x, x) == x && Join(x, y) == Join(y, x)
  {
    if x.Running? && y.Running? {
      LargerLaws(x.counts, y.counts);
    } else if x.Running? {
      LargerLaws(x.counts, x.counts);
    }
  }

  lemma {:induction false} JoinAssociates(x: Replica, y: Replica, z: Replica)
    ensures Join(x, Join(y, z)) == Join(Join(x, y), z)
  {
    if x.Running? && y.Running? && z.Running? {
      LargerAssociates(x.counts, y.counts, z.counts);
    }
  }

  /** Merging raises every actor's count to the larger of the two. */
  lemma {:induction false} RaisedCount(c: Cr, values: map<Actor, nat>, a: Actor)
    requires c.Valid()
    ensures c.Raised(values).Valid()
    ensures Get(c.Raised(values).All(), a) == Max(Get(c.All(), a), Get(values, a))
  {
  }

  lemma {:induction false} SamePositive(m: map<Actor, nat>, n: map<Actor, nat>)
    requires forall a :: Get(m, a) == Get(n, a)
    ensures Positive(m) == Positive(n)
  {
    forall a
      ensures a in Positive(m) <==> a in Positive(n)
      ensures a in Positive(m) ==> Positive(m)[a] == Positive(n)[a]
    {
      assert Get(m, a) == Get(n, a);
    }
  }

  lemma {:induction false} PositiveLarger(x: map<Actor, nat>, y: map<Actor, nat>)
    ensures Positive(Larger(x, y)) == Larger(Positive(x), Positive(y))
  {
  }

  lemma {:induction false} RaisedIsLarger(c: Cr, values: map<Actor, nat>)
    requires c.Valid()
    ensures c.Raised(values).Valid()
    ensures Positive(c.Raised(values).All()) == Larger(Positive(c.All()), Positive(values))
  {
    RaisedCount(c, values, c.ourselves);
    forall a
      ensures Get(c.Raised(values).All(), a) == Get(Larger(c.All(), values), a)
    {
      RaisedCount(c, values, a);
    }
    SamePositive(c.Raised(values).All(), Larger(c.All(), values));
    PositiveLarger(c.All(), values);
  }

  lemma {:induction false} NothingYet(actor: Actor, expiry: nat, counts: map<Actor, nat>)
    ensures Larger(Positive(Cr(actor, 0, map[], expiry).All()), counts) == counts
  {
  }

  /** `merge_at` computes the join, and keeps our own count apart from the others'. */
  lemma {:induction false} MergeIsJoin(c: Cr, other: Cr, when: nat)
    requires c.Valid()
    ensures c.MergeAt(other, when).Valid()
    ensures Seen(c.MergeAt(other, when), when) == Join(Seen(c, when), Seen(other, when))
  {
    if other.expiry > when {
      RaisedIsLarger(c.Based(other.expiry, when), other.All());
      if c.expiry <= when {
        NothingYet(c.ourselves, other.expiry, Positive(other.All()));
      }
    }
  }

  /** Merging the same state again changes nothing. */
  lemma {:induction false} MergeIsIdempotent(c: Cr, other: Cr, when: nat)
    requires c.Valid()
    ensures Seen(c.MergeAt(other, when).MergeAt(other, when), when) == Seen(c.MergeAt(other, when), when)
  {
    MergeIsJoin(c, other, when);
    MergeIsJoin(c.MergeAt(other, when), other, when);
    JoinAssociates(Seen(c, when), Seen(other, when), Seen(other, when));
    JoinLaws(Seen(other, when), Seen(other, when));
  }

  /** Two nodes that merge each other's state see the same afterwards. */
  lemma {:induction false} MergeIsCommutative(c: Cr, d: Cr, when: nat)
    requires c.Valid() && d.Valid()
    ensures Seen(c.MergeAt(d, when), when) == Seen(d.MergeAt(c, when), when)
  {
    MergeIsJoin(c, d, when);
    MergeIsJoin(d, c, when);
    JoinLaws(Seen(c, when), Seen(d, when));
  }

  /** Merging what a third node has already merged is merging both. */
  lemma {:induction false} MergeIsAssociative(c: Cr, d: Cr, e: Cr, when: nat)
    requires c.Valid() && d.Valid()
    ensures Seen(c.MergeAt(d.MergeAt(e, when), when), when) == Seen(c.MergeAt(d, when).MergeAt(e, when), when)
  {
    MergeIsJoin(d, e, when);
    MergeIsJoin(c, d, when);
    MergeIsJoin(c.MergeAt(d, when), e, when);
    MergeIsJoin(c, d.MergeAt(e, when), when);
    JoinAssociates(Seen(c, when), Seen(d, when), Seen(e, when));
  }

  /** A read depends on nothing but what the counter tells at that moment. */
  lemma {:induction false} ReadsWhatIsSeen(c: Cr, when: nat)
    requires c.Valid()
    ensures c.ReadAt(when) == if Seen(c, when).Bottom? then 0 else Sum(Seen(c, when).counts)
  {
    ReadIsTheSum(c, when);
    SumOfPositive(c.All());
  }

  lemma {:induction false} PositiveWithout(m: map<Actor, nat>, a: Actor)
    requires a in m
    ensures Positive(m - {a}) == if m[a] > 0 then Positive(m) - {a} else Positive(m)
  {
  }

  lemma {:induction false} SumOfPositive(m: map<Actor, nat>)
    ensures Sum(Positive(m)) == Sum(m)
    decreases |m|
  {
    if m == map[] {
    } else {
      var a :| a in m;
      SumWithout(m, a);
      SumOfPositive(m - {a});
      PositiveWithout(m, a);
      if m[a] > 0 {
        SumWithout(Positive(m), a);
      }
    }
  }

  // ---- Where the code falls short ----

  /**
   The first hit of a new window resets our own count but not the others': a read
   right after it is the hit alone exactly when no other count was left over.
   */
  lemma {:induction false} IncAfterExpiryStartsOverIff(c: Cr, increment: nat, window: nat, when: nat)
    requires c.expiry <= when && window > 0
    ensures c.IncAt(increment, window, when).ReadAt(when) == increment <==> Sum(c.others) == 0
  {
  }

  lemma {:induction false} IncAfterExpiryKeepsStaleCounts()
    ensures var c := Cr("A", 5, map["B" := 7], 10);
            c.ReadAt(10) == 0 && c.IncAt(1, 10, 10).ReadAt(10) == 8
  {
    SumWith(map[], "B", 7);
    assert map["B" := 7] == map[]["B" := 7];
  }

  /**
   A hit recorded on behalf of an actor raises that actor's count alone while the window
   runs; the first one after it starts a window and that actor's count anew.
   */
  lemma {:induction false} IncActorCountsForThatActor(c: Cr, actor: Actor, increment: nat, window: nat, when: nat)
    requires c.Valid()
    ensures var r, running := c.IncActorAt(actor, increment, window, when), when < c.expiry;
            && r.Valid() && r.expiry == (if running then c.expiry else when + window)
            && Get(r.All(), actor) == (if running then Get(c.All(), actor) else 0) + increment
            && (running ==> r.ReadAt(when) == c.ReadAt(when) + increment)
            && forall a :: a != actor ==> Get(r.All(), a) == Get(c.All(), a)
  {
    var grown := c.others[actor := Get(c.others, actor) + increment];
    SumWithout(grown, actor);
    if actor in c.others {
      SumWithout(c.others, actor);
      assert grown - {actor} == c.others - {actor};
    } else {
      assert grown - {actor} == c.others;
    }
  }

  /** Likewise for a hit recorded on behalf of another actor: it resets that actor's count only. */
  lemma {:induction false} IncActorAfterExpiryStartsOverIff(c: Cr, actor: Actor, increment: nat, window: nat, when: nat)
    requires c.expiry <= when && window > 0 && actor != c.ourselves
    ensures c.IncActorAt(actor, increment, window, when).ReadAt(when) == increment <==>
            Sum(c.others - {actor}) == 0 && c.value == 0
  {
    var left := c.others - {actor};
    SumWith(left, actor, increment);
    assert left[actor := increment] == c.others[actor := increment];
  }

  /**
   A message turned into a counter keeps every count except one filed under the
   default actor, which reads as zero.
   */
  lemma {:induction false} MessageKeepsCountsIff(expiry: nat, values: map<Actor, nat>, when: nat)
    requires expiry > when
    ensures Seen(FromMessage(expiry, values), when) == Running(expiry, Positive(values)) <==> Get(values, DEFAULT_ACTOR) == 0
  {
    var kept := FromMessage(expiry, values).All();
    if Get(values, DEFAULT_ACTOR) == 0 {
      SamePositive(kept, values);
    } else {
      assert DEFAULT_ACTOR in Positive(values) && DEFAULT_ACTOR !in Positive(kept);
    }
  }

  /** Four hits filed under the empty name are gone from the message's counts. */
  lemma {:induction false} MessageLosesDefaultActor()
    ensures Seen(FromMessage(10, map["" := 4]), 5) == Running(10, map[])
  {
    assert FromMessage(10, map["" := 4]).All() == map["" := 0];
  }
}
