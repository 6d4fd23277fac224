/**
 From a counter to the record its key is made of. Conditions and variables are
 kept unordered; the record lists them in ascending order, so that a counter has
 one key and no two counters share it.
 */
module KeyRecords {
  import opened Prelude
  import opened Postcard
  import opened Keys

  /** Strings are ordered byte by byte. */
  predicate Less(a: Text, b: Text) {
    if b == [] then false
    else if a == [] then true
    else a[0] < b[0] || (a[0] == b[0] && Less(a[1..], b[1..]))
  }

  lemma {:induction false} LessIsTotal(a: Text, b: Text)
    ensures a == b || Less(a, b) || Less(b, a)
    decreases |a|
  {
    if a == [] || b == [] || a[0] != b[0] {
    } else {
      LessIsTotal(a[1..], b[1..]);
      assert a == [a[0]] + a[1..] && b == [b[0]] + b[1..];
    }
  }

  lemma {:induction false} LessIsTransitive(a: Text, b: Text, c: Text)
    requires Less(a, b) && Less(b, c)
    ensures Less(a, c)
    decreases |a|
  {
    if a == [] || a[0] < c[0] {
    } else {
      LessIsTransitive(a[1..], b[1..], c[1..]);
    }
  }

  lemma {:induction false} LessIsStrict(a: Text)
    ensures !Less(a, a)
    decreases |a|
  {
    if a == [] {
    } else {
      LessIsStrict(a[1..]);
    }
  }

  ghost predicate Ascending(ts: seq<Text>) {
    forall i, j :: 0 <= i < j < |ts| ==> Less(ts[i], ts[j])
  }

  /** `ts` lists a set in ascending order. */
  ghost predicate Lists(ts: seq<Text>, of: set<Text>) {
    Ascending(ts) && forall t :: t in ts <==> t in of
  }

  /** The first of two listings of the same set is the same string: the least one. */
  lemma {:induction false} SameFirst(ts: seq<Text>, us: seq<Text>, of: set<Text>)
    requires Lists(ts, of) && Lists(us, of) && ts != [] && us != []
    ensures ts[0] == us[0]
  {
    assert ts[0] in us && us[0] in ts;
    LessIsTotal(ts[0], us[0]);
    if Less(ts[0], us[0]) {
      NothingBelowFirst(us, ts[0]);
    } else if Less(us[0], ts[0]) {
      NothingBelowFirst(ts, us[0]);
    }
  }

  lemma {:induction false} NothingBelowFirst(ts: seq<Text>, t: Text)
    requires Ascending(ts) && ts != [] && t in ts
    ensures !Less(t, ts[0])
  {
    var i :| 0 <= i < |ts| && ts[i] == t;
    LessIsStrict(t);
    if i > 0 && Less(t, ts[0]) {
      LessIsTransitive(t, ts[0], t);
    }
  }

  lemma {:induction false} RestLists(ts: seq<Text>, of: set<Text>)
    requires Lists(ts, of) && ts != []
    ensures Lists(ts[1..], of - {ts[0]})
  {
    forall t
      ensures t in ts[1..] <==> t in of - {ts[0]}
    {
      LessIsStrict(ts[0]);
      assert ts == [ts[0]] + ts[1..];
      assert ts[0] !in ts[1..];
    }
  }

  lemma {:induction false} EmptyListing(ts: seq<Text>, of: set<Text>)
    requires Lists(ts, of)
    ensures ts == [] <==> of == {}
  {
    assert ts != [] ==> ts[0] in of;
  }

  lemma {:induction false} ListingIsUnique(ts: seq<Text>, us: seq<Text>, of: set<Text>)
    requires Lists(ts, of) && Lists(us, of)
    ensures ts == us
    decreases |ts|
  {
    EmptyListing(ts, of);
    EmptyListing(us, of);
    if ts == [] {
    } else {
      SameFirst(ts, us, of);
      RestLists(ts, of);
      RestLists(us, of);
      ListingIsUnique(ts[1..], us[1..], of - {ts[0]});
      assert ts == [ts[0]] + ts[1..] && us == [us[0]] + us[1..];
    }
  }

  function Insert(ts: seq<Text>, t: Text): seq<Text> {
    if ts == [] || Less(t, ts[0]) then [t] + ts else [ts[0]] + Insert(ts[1..], t)
  }

  lemma {:induction false} InsertContents(ts: seq<Text>, t: Text, u: Text)
    ensures u in Insert(ts, t) <==> u == t || u in ts
    decreases |ts|
  {
    if ts == [] || Less(t, ts[0]) {
    } else {
      InsertContents(ts[1..], t, u);
      assert ts == [ts[0]] + ts[1..];
    }
  }

  lemma {:induction false} InsertKeepsAscending(ts: seq<Text>, t: Text)
    requires Ascending(ts) && t !in ts
    ensures Ascending(Insert(ts, t))
    decreases |ts|
  {
    if ts == [] {
    } else if Less(t, ts[0]) {
      forall j | 0 < j < |ts|
        ensures Less(t, ts[j])
      {
        LessIsTransitive(t, ts[0], ts[j]);
      }
    } else {
      LessIsTotal(t, ts[0]);
      var tail := Insert(ts[1..], t);
      InsertKeepsAscending(ts[1..], t);
      forall j | 0 <= j < |tail|
        ensures Less(ts[0], tail[j])
      {
        InsertContents(ts[1..], t, tail[j]);
      }
    }
  }

  /** Sort a set of strings. */
  method Sorted(of: set<Text>) returns (ts: seq<Text>)
    ensures Lists(ts, of)
  {
    ts := [];
    var rest := of;
    while rest != {}
      invariant rest <= of && Lists(ts, of - rest)
      decreases |rest|
    {
      var t :| t in rest;
      InsertKeepsAscending(ts, t);
      forall u
        ensures u in Insert(ts, t) <==> u in of - (rest - {t})
      {
        InsertContents(ts, t, u);
      }
      ts, rest := Insert(ts, t), rest - {t};
    }
    assert of - rest == of;
  }

  // ---- Records ----

  /** What a counter is, for its key: its limit's id or definition, and its variables' values. */
  datatype Identity = Identity(id: Option<Text>, ns: Text, seconds: u64, conditions: set<Text>, variables: map<Text, Text>)

  function Names(ps: seq<(Text, Text)>): (ts: seq<Text>)
    ensures |ts| == |ps|
  {
    seq(|ps|, i requires 0 <= i < |ps| => ps[i].0)
  }

  /** `ps` lists the variables and their values, by name. */
  ghost predicate ListsVariables(ps: seq<(Text, Text)>, variables: map<Text, Text>) {
    && Lists(Names(ps), variables.Keys)
    && forall i :: 0 <= i < |ps| ==> ps[i].0 in variables && ps[i].1 == variables[ps[i].0]
  }

  ghost predicate RecordOf(c: Identity, r: Record) {
    match r
    case ById(id, variables) => c.id == Some(id) && ListsVariables(variables, c.variables)
    case ByDefinition(ns, seconds, conditions, variables) =>
      && c.id == None && ns == c.ns && seconds == c.seconds
      && Lists(conditions, c.conditions) && ListsVariables(variables, c.variables)
  }

  method SortedVariables(variables: map<Text, Text>) returns (ps: seq<(Text, Text)>)
    ensures ListsVariables(ps, variables)
  {
    var names := Sorted(variables.Keys);
    assert forall i :: 0 <= i < |names| ==> names[i] in variables;
    ps := seq(|names|, i requires 0 <= i < |names| => (names[i], variables[names[i]]));
    assert Names(ps) == names;
  }

  method MakeRecord(c: Identity) returns (r: Record)
    ensures RecordOf(c, r)
  {
    var variables := SortedVariables(c.variables);
    if c.id.Some? {
      r := ById(c.id.value, variables);
    } else {
      var conditions := Sorted(c.conditions);
      r := ByDefinition(c.ns, c.seconds, conditions, variables);
    }
  }

  /** A limit with an id is known by that id alone. */
  ghost predicate SameIdentity(c: Identity, d: Identity) {
    && c.id == d.id && c.variables == d.variables
    && (c.id == None ==> c.ns == d.ns && c.seconds == d.seconds && c.conditions == d.conditions)
  }

  lemma {:induction false} VariablesAreUnique(ps: seq<(Text, Text)>, qs: seq<(Text, Text)>, variables: map<Text, Text>)
    requires ListsVariables(ps, variables) && ListsVariables(qs, variables)
    ensures ps == qs
  {
    ListingIsUnique(Names(ps), Names(qs), variables.Keys);
    forall i | 0 <= i < |ps|
      ensures ps[i] == qs[i]
    {
      assert Names(ps)[i] == Names(qs)[i];
    }
  }

  lemma {:induction false} VariablesAreRecovered(ps: seq<(Text, Text)>, variables: map<Text, Text>, others: map<Text, Text>)
    requires ListsVariables(ps, variables) && ListsVariables(ps, others)
    ensures variables == others
  {
    forall k
      ensures k in variables <==> k in others
      ensures k in variables ==> variables[k] == others[k]
    {
      assert k in Names(ps) <==> k in variables.Keys;
      assert k in Names(ps) <==> k in others.Keys;
      if k in variables {
        var i :| 0 <= i < |ps| && Names(ps)[i] == k;
      }
    }
  }

  lemma {:induction false} ConditionsAreRecovered(ts: seq<Text>, conditions: set<Text>, others: set<Text>)
    requires Lists(ts, conditions) && Lists(ts, others)
    ensures conditions == others
  {
    forall t
      ensures t in conditions <==> t in others
    {
      assert t in ts <==> t in conditions;
    }
  }

  lemma {:induction false} SameRecordIff(c: Identity, d: Identity, r: Record, s: Record)
    requires RecordOf(c, r) && RecordOf(d, s)
    ensures r == s <==> SameIdentity(c, d)
  {
    if r == s {
      VariablesAreRecovered(r.variables, c.variables, d.variables);
      if r.ByDefinition? {
        ConditionsAreRecovered(r.conditions, c.conditions, d.conditions);
      }
    }
    if SameIdentity(c, d) {
      VariablesAreUnique(r.variables, s.variables, c.variables);
      if r.ByDefinition? {
        ListingIsUnique(r.conditions, s.conditions, c.conditions);
      }
    }
  }

  /**
   Two counters get the same key, and the same reservations key, exactly when they
   are the same counter, in whatever order their conditions and variables were
   walked.
   */
  lemma {:induction false} SameKeyIff(c: Identity, d: Identity, r: Record, s: Record)
    requires RecordOf(c, r) && RecordOf(d, s)
    ensures CounterKeyV2(r) == CounterKeyV2(s) <==> SameIdentity(c, d)
    ensures ReservationsKey(r) == ReservationsKey(s) <==> SameIdentity(c, d)
  {
    CounterKeysAreInjective(r, s);
    SameRecordIff(c, d, r, s);
  }

  /** `a` comes before `b` at the first place they differ: there it ends, or has the smaller byte. */
  ghost predicate DifferAt(a: Text, b: Text, i: nat) {
    && i <= |a| && i < |b| && a[..i] == b[..i]
    && (i == |a| || a[i] < b[i])
  }

  lemma {:induction false} LessIff(a: Text, b: Text)
    ensures Less(a, b) <==> exists i: nat :: DifferAt(a, b, i)
    decreases |a|
  {
    if b == [] {
    } else if a == [] {
      assert DifferAt(a, b, 0);
    } else if a[0] < b[0] {
      assert DifferAt(a, b, 0);
    } else if a[0] == b[0] {
      LessIff(a[1..], b[1..]);
      LessShift(a, b);
    } else {
      forall i: nat
        ensures !DifferAt(a, b, i)
      {
        assert 0 < i <= |a| && i <= |b| ==> a[..i][0] == a[0] && b[..i][0] == b[0];
      }
    }
  }

  lemma {:induction false} LessShift(a: Text, b: Text)
    requires a != [] && b != [] && a[0] == b[0]
    ensures (exists i: nat :: DifferAt(a, b, i)) <==> exists i: nat :: DifferAt(a[1..], b[1..], i)
  {
    if exists i: nat :: DifferAt(a, b, i) {
      var i: nat :| DifferAt(a, b, i);
      assert a[1..][..i - 1] == a[..i][1..] && b[1..][..i - 1] == b[..i][1..];
      assert DifferAt(a[1..], b[1..], i - 1);
    }
    if exists i: nat :: DifferAt(a[1..], b[1..], i) {
      var i: nat :| DifferAt(a[1..], b[1..], i);
      assert a[..i + 1] == [a[0]] + a[1..][..i] && b[..i + 1] == [b[0]] + b[1..][..i];
      assert DifferAt(a, b, i + 1);
    }
  }
}
