/**
 Counters as the storages see them: an identity, the limit that applies, and
 the two annotations a check leaves behind.
 */
module Counters {
  import opened Prelude

  /** A limit, and the variable values that single out one of its counters. */
  datatype CounterKey = CounterKey(limit: nat, variables: map<string, string>) {
    predicate IsQualified() {
      variables != map[]
    }
  }

  datatype Counter = Counter(
    key: CounterKey,
    maxValue: u64,
    window: nat,
    name: Option<string>,
    remaining: Option<nat>,
    expiresIn: Option<nat>)

  datatype Authorization = Ok | Limited(name: Option<string>)

  /** No two counters of a request share an identity. */
  ghost predicate Distinct(cs: seq<Counter>) {
    forall i, j :: 0 <= i < j < |cs| ==> cs[i].key != cs[j].key
  }

  ghost predicate Mentions(cs: seq<Counter>, k: CounterKey) {
    exists i :: 0 <= i < |cs| && cs[i].key == k
  }

  /** A counter is qualified when some variable singles it out. */
  lemma {:induction false} QualifiedIff(k: CounterKey)
    ensures k.IsQualified() <==> exists v :: v in k.variables
  {
  }
}
