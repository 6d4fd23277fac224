/**
 Storage keys. A counter's key is a version byte and a record; the key of its
 reservations and the key of its limit's index are built from the same parts.
 */
module Keys {
  import opened Prelude
  import opened Postcard

  /** What identifies a counter: its limit's id, or failing that the limit's definition. */
  datatype Record =
    | ById(id: Text, variables: seq<(Text, Text)>)
    | ByDefinition(ns: Text, seconds: u64, conditions: seq<Text>, variables: seq<(Text, Text)>)

  function EncodeById(id: Text, variables: seq<(Text, Text)>): seq<Byte> {
    EncodeText(id) + EncodePairs(variables)
  }

  function EncodeDefinition(ns: Text, seconds: u64, conditions: seq<Text>, variables: seq<(Text, Text)>): seq<Byte> {
    EncodeText(ns) + (Varint(seconds) + (EncodeTexts(conditions) + EncodePairs(variables)))
  }

  /** `key_for_counter_v2` */
  function CounterKeyV2(r: Record): seq<Byte> {
    match r
    case ById(id, variables) => [2] + EncodeById(id, variables)
    case ByDefinition(ns, seconds, conditions, variables) => [1] + EncodeDefinition(ns, seconds, conditions, variables)
  }

  const RESERVATIONS_SUFFIX: seq<Byte> := [44, 114, 101, 115, 101, 114, 118, 97, 116, 105, 111, 110, 115]

  function ReservationsKey(r: Record): seq<Byte> {
    CounterKeyV2(r) + RESERVATIONS_SUFFIX
  }

  function LimitIndexKey(id: Text): seq<Byte> {
    [2] + EncodeText(id)
  }

  // ---- Decoding ----

  function TakeById(b: seq<Byte>): Option<(Record, seq<Byte>)> {
    match TakeText(b)
    case None => None
    case Some((id, rest)) =>
      match TakePairs(rest)
      case None => None
      case Some((variables, left)) => Some((ById(id, variables), left))
  }

  function TakeDefinition(b: seq<Byte>): Option<(Record, seq<Byte>)> {
    match TakeText(b)
    case None => None
    case Some((ns, afterNs)) =>
      match TakeVarint(afterNs)
      case None => None
      case Some((seconds, afterSeconds)) =>
        if seconds >= U64 then None
        else
          match TakeTexts(afterSeconds)
          case None => None
          case Some((conditions, afterConditions)) =>
            match TakePairs(afterConditions)
            case None => None
            case Some((variables, left)) => Some((ByDefinition(ns, seconds, conditions, variables), left))
  }

  function TakeKey(b: seq<Byte>): Option<(Record, seq<Byte>)> {
    if b == [] then None
    else if b[0] == 1 then TakeDefinition(b[1..])
    else if b[0] == 2 then TakeById(b[1..])
    else None
  }

  lemma {:induction false} ByIdRoundTrip(id: Text, variables: seq<(Text, Text)>, rest: seq<Byte>)
    ensures TakeById(EncodeById(id, variables) + rest) == Some((ById(id, variables), rest))
  {
    var after := EncodePairs(variables) + rest;
    assert EncodeById(id, variables) + rest == EncodeText(id) + after;
    TextRoundTrip(id, after);
    PairsRoundTrip(variables, rest);
  }

  lemma {:induction false} DefinitionRoundTrip(ns: Text, seconds: u64, conditions: seq<Text>, variables: seq<(Text, Text)>, rest: seq<Byte>)
    ensures TakeDefinition(EncodeDefinition(ns, seconds, conditions, variables) + rest) ==
            Some((ByDefinition(ns, seconds, conditions, variables), rest))
  {
    var fourth := EncodePairs(variables) + rest;
    var third := EncodeTexts(conditions) + fourth;
    var second := Varint(seconds) + third;
    assert EncodeDefinition(ns, seconds, conditions, variables) + rest == EncodeText(ns) + second;
    TextRoundTrip(ns, second);
    VarintRoundTrip(seconds, third);
    TextsRoundTrip(conditions, fourth);
    PairsRoundTrip(variables, rest);
  }

  lemma {:induction false} AfterVersion(version: Byte, body: seq<Byte>, rest: seq<Byte>)
    ensures [version] + body + rest != [] && ([version] + body + rest)[0] == version
    ensures ([version] + body + rest)[1..] == body + rest
  {
  }

  /** A key read back is the record it was made from, whatever follows it. */
  lemma {:induction false} KeyRoundTrip(r: Record, rest: seq<Byte>)
    ensures TakeKey(CounterKeyV2(r) + rest) == Some((r, rest))
  {
    match r
    case ById(id, variables) =>
      AfterVersion(2, EncodeById(id, variables), rest);
      ByIdRoundTrip(id, variables, rest);
    case ByDefinition(ns, seconds, conditions, variables) =>
      AfterVersion(1, EncodeDefinition(ns, seconds, conditions, variables), rest);
      DefinitionRoundTrip(ns, seconds, conditions, variables, rest);
  }

  // ---- Keys do not collide ----

  /** No counter key is the beginning of another counter's key. */
  lemma {:induction false} CounterKeysArePrefixFree(r: Record, s: Record, after: seq<Byte>, more: seq<Byte>)
    requires CounterKeyV2(r) + after == CounterKeyV2(s) + more
    ensures r == s && after == more
  {
    KeyRoundTrip(r, after);
    KeyRoundTrip(s, more);
  }

  lemma {:induction false} CounterKeysAreInjective(r: Record, s: Record)
    ensures CounterKeyV2(r) == CounterKeyV2(s) <==> r == s
    ensures ReservationsKey(r) == ReservationsKey(s) <==> r == s
  {
    if CounterKeyV2(r) == CounterKeyV2(s) {
      CounterKeysArePrefixFree(r, s, [], []);
    }
    if ReservationsKey(r) == ReservationsKey(s) {
      CounterKeysArePrefixFree(r, s, RESERVATIONS_SUFFIX, RESERVATIONS_SUFFIX);
    }
  }

  /** The id at the start of a key, and what follows it. */
  function TakeId(b: seq<Byte>): Option<(Text, seq<Byte>)> {
    if b == [] || b[0] != 2 then None else TakeText(b[1..])
  }

  lemma {:induction false} LimitIndexEndsWithId(id: Text)
    ensures TakeId(LimitIndexKey(id)) == Some((id, []))
  {
    AfterVersion(2, EncodeText(id), []);
    assert [2] + EncodeText(id) + [] == LimitIndexKey(id);
    TextRoundTrip(id, []);
  }

  lemma {:induction false} VarintIsNotEmpty(n: nat)
    ensures |Varint(n)| > 0
  {
  }

  /** In a counter key the id, if there is one, is not the end of it. */
  lemma {:induction false} CounterKeyGoesOn(r: Record, rest: seq<Byte>)
    ensures match TakeId(CounterKeyV2(r) + rest)
            case Some((_, left)) => left != []
            case None => true
  {
    match r
    case ById(id, variables) =>
      var after := EncodePairs(variables) + rest;
      AfterVersion(2, EncodeById(id, variables), rest);
      assert EncodeById(id, variables) + rest == EncodeText(id) + after;
      TextRoundTrip(id, after);
      VarintIsNotEmpty(|variables|);
    case ByDefinition(ns, seconds, conditions, variables) =>
      AfterVersion(1, EncodeDefinition(ns, seconds, conditions, variables), rest);
  }

  /** A counter's key, the key of any counter's reservations and any limit's index key are all different. */
  lemma {:induction false} KindsOfKeyAreDisjoint(r: Record, s: Record, id: Text)
    ensures CounterKeyV2(r) != ReservationsKey(s)
    ensures CounterKeyV2(r) != LimitIndexKey(id)
    ensures ReservationsKey(s) != LimitIndexKey(id)
  {
    assert CounterKeyV2(r) + [] == CounterKeyV2(r);
    KeyRoundTrip(r, []);
    KeyRoundTrip(s, RESERVATIONS_SUFFIX);
    LimitIndexEndsWithId(id);
    CounterKeyGoesOn(r, []);
    CounterKeyGoesOn(s, RESERVATIONS_SUFFIX);
  }

  lemma {:induction false} LimitIndexKeysAreInjective(id: Text, other: Text)
    ensures LimitIndexKey(id) == LimitIndexKey(other) <==> id == other
  {
    LimitIndexEndsWithId(id);
    LimitIndexEndsWithId(other);
  }

  // ---- Disk keys ----

  /** On disk every counter is filed under its definition, without a version byte. */
  function DiskKey(ns: Text, seconds: u64, conditions: seq<Text>, variables: seq<(Text, Text)>): seq<Byte> {
    EncodeDefinition(ns, seconds, conditions, variables)
  }

  function NamespacePrefix(ns: Text): seq<Byte> {
    EncodeText(ns)
  }

  /** Scanning by namespace finds the counters of that namespace and no others. */
  lemma {:induction false} PrefixFindsNamespaceIff(ns: Text, seconds: u64, conditions: seq<Text>, variables: seq<(Text, Text)>, wanted: Text)
    ensures NamespacePrefix(wanted) <= DiskKey(ns, seconds, conditions, variables) <==> ns == wanted
  {
    var key, prefix := DiskKey(ns, seconds, conditions, variables), NamespacePrefix(wanted);
    if prefix <= key {
      assert key == prefix + key[|prefix|..];
      TextRoundTrip(wanted, key[|prefix|..]);
      DefinitionRoundTrip(ns, seconds, conditions, variables, []);
      assert key + [] == key;
    }
  }

  lemma {:induction false} DiskKeysAreInjective(
    ns: Text, seconds: u64, conditions: seq<Text>, variables: seq<(Text, Text)>,
    ns': Text, seconds': u64, conditions': seq<Text>, variables': seq<(Text, Text)>)
    requires DiskKey(ns, seconds, conditions, variables) == DiskKey(ns', seconds', conditions', variables')
    ensures ns == ns' && seconds == seconds' && conditions == conditions' && variables == variables'
  {
    DefinitionRoundTrip(ns, seconds, conditions, variables, []);
    DefinitionRoundTrip(ns', seconds', conditions', variables', []);
  }
}
