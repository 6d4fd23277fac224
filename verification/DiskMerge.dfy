/**
 The merge operator of the disk storage. Hits are written as operands; RocksDB
 decides when operands are merged, in which groups, and when the base joins in.
 */
module DiskMerge {
  import opened Prelude
  import opened Counters
  import opened DiskValues

  /** One left-to-right pass at one moment. */
  function MergeAll(start: ExpiringValue, ops: seq<ExpiringValue>, now: nat): ExpiringValue {
    if ops == [] then start else MergeAll(start, ops[..|ops| - 1], now).Merge(ops[|ops| - 1], now)
  }

  // ---- The operator and the store ----

  ghost predicate AllReadable(raws: seq<seq<Byte>>) {
    forall i :: 0 <= i < |raws| ==> Readable(raws[i])
  }

  ghost function DecodeAll(raws: seq<seq<Byte>>): (vs: seq<ExpiringValue>)
    requires AllReadable(raws)
    ensures |vs| == |raws|
  {
    seq(|raws|, i requires 0 <= i < |raws| => Decode(raws[i]).value)
  }

  function StartOf(start: Option<seq<Byte>>): ExpiringValue {
    if start.Some? && Decode(start.value).Some? then Decode(start.value).value else DEFAULT_VALUE
  }

  ghost predicate StartReadable(start: Option<seq<Byte>>) {
    start.Some? ==> Readable(start.value)
  }

  /** The operator's result, or nothing where it panics. */
  ghost function MergeResult(start: Option<seq<Byte>>, operands: seq<seq<Byte>>, now: nat): Option<seq<Byte>> {
    if StartReadable(start) && AllReadable(operands)
    then Some(Encode(MergeAll(StartOf(start), DecodeAll(operands), now))) else None
  }

  method MergeOperator(start: Option<seq<Byte>>, operands: seq<seq<Byte>>, now: nat) returns (raw: Option<seq<Byte>>)
    ensures raw == MergeResult(start, operands, now)
  {
    if start.Some? && Decode(start.value).None? {
      return None;
    }
    var value := StartOf(start);
    for i := 0 to |operands|
      invariant AllReadable(operands[..i]) && value == MergeAll(StartOf(start), DecodeAll(operands[..i]), now)
    {
      var pending := Decode(operands[i]);
      if pending.None? {
        return None;
      }
      DecodeSnoc(operands, i);
      value := value.Merge(pending.value, now);
    }
    assert operands[..|operands|] == operands;
    raw := Some(Encode(value));
  }

  lemma {:induction false} DecodeSnoc(raws: seq<seq<Byte>>, i: nat)
    requires i < |raws| && AllReadable(raws[..i]) && Readable(raws[i])
    ensures AllReadable(raws[..i + 1])
    ensures DecodeAll(raws[..i + 1]) == DecodeAll(raws[..i]) + [Decode(raws[i]).value]
    ensures DecodeAll(raws[..i + 1])[..i] == DecodeAll(raws[..i])
  {
    assert raws[..i + 1] == raws[..i] + [raws[i]];
  }

  /**
   The operator has a result exactly when the base, if any, and every operand have at
   least sixteen bytes and a ninth byte below 128.
   */
  lemma {:induction false} MergePanicsIff(start: Option<seq<Byte>>, operands: seq<seq<Byte>>, now: nat)
    ensures MergeResult(start, operands, now).None? <==>
            (start.Some? && (|start.value| < 16 || start.value[8] >= 128)) ||
            exists i :: 0 <= i < |operands| && (|operands[i]| < 16 || operands[i][8] >= 128)
  {
    if start.Some? {
      ReadableIff(start.value);
    }
    forall i | 0 <= i < |operands|
      ensures Readable(operands[i]) <==> |operands[i]| >= 16 && operands[i][8] < 128
    {
      ReadableIff(operands[i]);
    }
  }

  /** Neither an operand of three bytes nor one of sixteen bytes of 255 is ignored, whatever the others. */
  lemma {:induction false} CorruptedOperandsPanic(start: Option<seq<Byte>>, operands: seq<seq<Byte>>, now: nat)
    ensures MergeResult(start, operands + [[1, 2, 3]], now) == None
    ensures MergeResult(start, operands + [seq(16, _ => 255)], now) == None
  {
    var full: seq<Byte> := seq(16, _ => 255);
    assert (operands + [[1, 2, 3]])[|operands|] == [1, 2, 3];
    assert (operands + [full])[|operands|] == full && full[8] == 255;
    ReadableIff(full);
  }

  /** What the database holds for a key: a base, if any, and operands not merged yet. */
  datatype Entry = Entry(base: Option<seq<Byte>>, pending: seq<seq<Byte>>) {
    ghost predicate Valid() {
      StartReadable(base) && AllReadable(pending)
    }

    /** The entry with one more operand to merge. */
    function With(op: ExpiringValue): Entry {
      Entry(base, pending + [Encode(op)])
    }

    /** What a read at `now` sees. */
    ghost function ReadAt(now: nat): ExpiringValue
      requires Valid()
    {
      MergeAll(StartOf(base), DecodeAll(pending), now)
    }
  }

  type Disk = map<seq<Byte>, Entry>

  ghost predicate ValidDisk(disk: Disk) {
    forall k :: k in disk ==> disk[k].Valid()
  }

  function EntryOf(disk: Disk, k: seq<Byte>): Entry {
    if k in disk then disk[k] else Entry(None, [])
  }

  predicate HasRoom(before: ExpiringValue, c: Counter, delta: u64, now: nat) {
    Wrap(before.ValueAt(now) + delta) <= c.maxValue
  }

  /** What a write hands back; nothing where the new window's end is out of a system time's range. */
  function Inserted(before: ExpiringValue, c: Counter, delta: u64, now: nat): Option<ExpiringValue> {
    if !HasRoom(before, c, delta, now) then Some(before)
    else if (now + c.window) / SECOND >= TIME_LIMIT then None
    else Some(before.Update(delta, c.window, now))
  }

  /** The disk after a write. */
  function WrittenTo(disk: Disk, k: seq<Byte>, before: ExpiringValue, c: Counter, delta: u64, now: nat): Disk {
    if HasRoom(before, c, delta, now) && (now + c.window) / SECOND < TIME_LIMIT
    then disk[k := EntryOf(disk, k).With(ExpiringValue(delta, now + c.window))] else disk
  }

  class RocksDbStorage {
    var disk: Disk

    constructor ()
      ensures disk == map[] && ValidDisk(disk)
    {
      disk := map[];
    }

    method Get(k: seq<Byte>, now: nat) returns (raw: Option<seq<Byte>>)
      requires ValidDisk(disk)
      ensures raw.None? ==> EntryOf(disk, k).ReadAt(now) == DEFAULT_VALUE
      ensures raw.Some? ==> Decode(raw.value) == Some(EntryOf(disk, k).ReadAt(now))
    {
      if k !in disk || (disk[k].base.None? && disk[k].pending == []) {
        return None;
      }
      var entry := disk[k];
      if entry.pending == [] {
        return entry.base;
      }
      var merged := MergeOperator(entry.base, entry.pending, now);
      StoredWhole(entry, now);
      StoredRoundTrip(entry.ReadAt(now));
      return merged;
    }

    /**
     Add hits if they fit under the limit. Hits that do not fit are dropped without
     an error; either way the value before the write decides.
     */
    method InsertOrUpdate(k: seq<Byte>, c: Counter, delta: u64, now: nat) returns (r: Option<ExpiringValue>)
      requires ValidDisk(disk)
      modifies this
      ensures ValidDisk(disk)
      ensures var before := EntryOf(old(disk), k).ReadAt(now);
              && r == Inserted(before, c, delta, now)
              && disk == WrittenTo(old(disk), k, before, c, delta, now)
              && (r.Some? && disk != old(disk) ==> disk[k].ReadAt(now) == r.value.Truncated())
    {
      var raw := Get(k, now);
      var value := StartOf(raw);
      if !HasRoom(value, c, delta, now) {
        return Some(value);
      }
      if (now + c.window) / SECOND >= TIME_LIMIT {
        return None;
      }
      assert Whole(value) by { StoredWhole(EntryOf(disk, k), now); }
      FreshOperandIsUpdate(value, delta, c.window, now);
      Write(k, ExpiringValue(delta, now + c.window), now);
      return Some(value.Update(delta, c.window, now));
    }

    /** Queue one more operand for a key. */
    method Write(k: seq<Byte>, op: ExpiringValue, now: nat)
      requires ValidDisk(disk) && op.expiry / SECOND < TIME_LIMIT
      modifies this
      ensures ValidDisk(disk) && disk == old(disk)[k := EntryOf(old(disk), k).With(op)]
      ensures disk[k].ReadAt(now) == EntryOf(old(disk), k).ReadAt(now).Merge(op.Truncated(), now)
    {
      var entry := EntryOf(disk, k);
      PendingSnoc(entry, op, now);
      disk := disk[k := entry.With(op)];
    }
  }

  /** One more operand is one more merge. */
  lemma {:induction false} PendingSnoc(entry: Entry, op: ExpiringValue, now: nat)
    requires entry.Valid() && op.expiry / SECOND < TIME_LIMIT
    ensures entry.With(op).Valid()
    ensures entry.With(op).ReadAt(now) == entry.ReadAt(now).Merge(op.Truncated(), now)
  {
    StoredRoundTrip(op);
    var ops := DecodeAll(entry.pending + [Encode(op)]);
    assert ops[..|ops| - 1] == DecodeAll(entry.pending);
  }

  // ---- The limit ----

  /** Where the window a write falls in ends, on the disk. */
  function EndOnDisk(before: ExpiringValue, c: Counter, now: nat): nat {
    if before.LiveAt(now) then before.expiry else (now + c.window) / SECOND * SECOND
  }

  /** Whatever a write does, what it leaves on the disk can be read, and a read sees its hits added modulo 2^64. */
  lemma {:induction false} WrittenReads(disk: Disk, k: seq<Byte>, c: Counter, delta: u64, now: nat)
    requires ValidDisk(disk)
    ensures var before := EntryOf(disk, k).ReadAt(now);
            var after := WrittenTo(disk, k, before, c, delta, now);
            && ValidDisk(after)
            && (after != disk ==>
                  && k in after && |after[k].pending| == |EntryOf(disk, k).pending| + 1
                  && after[k].ReadAt(now) == ExpiringValue(Wrap(before.ValueAt(now) + delta), EndOnDisk(before, c, now)))
  {
    if (now + c.window) / SECOND < TIME_LIMIT {
      var entry := EntryOf(disk, k);
      var before, op := entry.ReadAt(now), ExpiringValue(delta, now + c.window);
      StoredWhole(entry, now);
      PendingSnoc(entry, op, now);
      FreshOperandIsUpdate(before, delta, c.window, now);
    }
  }

  /** Merging what the disk holds for a key into one stored value changes nothing for a read at that moment. */
  lemma {:induction false} MergingIsInvisible(entry: Entry, now: nat)
    requires entry.Valid()
    ensures var merged := Entry(MergeResult(entry.base, entry.pending, now), []);
            merged.base.Some? && merged.Valid() && merged.ReadAt(now) == entry.ReadAt(now)
  {
    StoredWhole(entry, now);
    StoredRoundTrip(entry.ReadAt(now));
    var merged := Entry(MergeResult(entry.base, entry.pending, now), []);
    assert StartReadable(merged.base) && AllReadable([]);
  }

  lemma {:induction false} OneMoreOperand(disk: Disk, k: seq<Byte>, op: ExpiringValue)
    ensures disk[k := EntryOf(disk, k).With(op)] != disk
  {
    assert |EntryOf(disk, k).With(op).pending| == |EntryOf(disk, k).pending| + 1;
  }

  /**
   Hits are written exactly when the counter has room for them, and a read at that
   moment then shows them on top of what it showed before; otherwise the disk is left
   as it was and what it held is handed back.
   */
  lemma {:induction false} WritesIff(disk: Disk, k: seq<Byte>, c: Counter, delta: u64, now: nat)
    requires ValidDisk(disk) && (now + c.window) / SECOND < TIME_LIMIT
    requires EntryOf(disk, k).ReadAt(now).ValueAt(now) + delta < U64
    ensures var before := EntryOf(disk, k).ReadAt(now);
            var after, r := WrittenTo(disk, k, before, c, delta, now), Inserted(before, c, delta, now);
            && ValidDisk(after) && r.Some?
            && if before.ValueAt(now) + delta <= c.maxValue
               then
                 && k in after && |after[k].pending| == |EntryOf(disk, k).pending| + 1
                 && after[k].ReadAt(now) == ExpiringValue(before.ValueAt(now) + delta, EndOnDisk(before, c, now))
                 && r.value.value == before.ValueAt(now) + delta
               else after == disk && r == Some(before)
  {
    WrittenReads(disk, k, c, delta, now);
    OneMoreOperand(disk, k, ExpiringValue(delta, now + c.window));
  }

  lemma {:induction false} WriteLeavesOthers(disk: Disk, k: seq<Byte>, before: ExpiringValue, c: Counter, delta: u64, now: nat, j: seq<Byte>)
    requires j != k
    ensures EntryOf(WrittenTo(disk, k, before, c, delta, now), j) == EntryOf(disk, j)
  {
  }

  /**
   Hits are written exactly when the counter has room for them, unless the 64-bit sum
   overflows to something within the limit.
   */
  lemma {:induction false} OverflowMattersIff(disk: Disk, k: seq<Byte>, before: ExpiringValue, c: Counter, delta: u64, now: nat)
    requires (now + c.window) / SECOND < TIME_LIMIT
    ensures var sum := before.ValueAt(now) + delta;
            (WrittenTo(disk, k, before, c, delta, now) != disk <==> sum <= c.maxValue) <==> !(sum >= U64 && sum - U64 <= c.maxValue)
  {
    OneMoreOperand(disk, k, ExpiringValue(delta, now + c.window));
  }

  /** A counter at the largest limit and full: one more hit is written, and the counter reads zero. */
  lemma {:induction false} FullCounterStartsOver(disk: Disk, k: seq<Byte>, c: Counter)
    requires c.maxValue == U64 - 1 && c.window == 60 * SECOND
    ensures var full := disk[k := Entry(Some(Encode(ExpiringValue(U64 - 1, 60 * SECOND))), [])];
            && full[k].Valid() && full[k].ReadAt(0).ValueAt(0) == U64 - 1
            && var after := WrittenTo(full, k, full[k].ReadAt(0), c, 1, 0);
               after != full && after[k].Valid() && after[k].ReadAt(0).ValueAt(0) == 0
  {
    var v := ExpiringValue(U64 - 1, 60 * SECOND);
    StoredRoundTrip(v);
    var full := map[k := Entry(Some(Encode(v)), [])];
    assert full[k].ReadAt(0) == v;
    WrittenReads(full, k, c, 1, 0);
    OneMoreOperand(disk[k := full[k]], k, ExpiringValue(1, 60 * SECOND));
  }

  /** A write fails exactly when the hits have room and the window they would open ends beyond a system time. */
  lemma {:induction false} FailsIff(disk: Disk, k: seq<Byte>, before: ExpiringValue, c: Counter, delta: u64, now: nat)
    requires before.ValueAt(now) + delta < U64
    ensures Inserted(before, c, delta, now).None? <==>
            before.ValueAt(now) + delta <= c.maxValue && now + c.window >= TIME_LIMIT * SECOND
    ensures Inserted(before, c, delta, now).None? ==> WrittenTo(disk, k, before, c, delta, now) == disk
  {
  }

  datatype Insert = Insert(k: seq<Byte>, c: Counter, delta: u64, now: nat)

  ghost function AfterInsert(disk: Disk, ins: Insert): (r: Disk)
    requires ValidDisk(disk)
    ensures ValidDisk(r)
  {
    WrittenReads(disk, ins.k, ins.c, ins.delta, ins.now);
    WrittenTo(disk, ins.k, EntryOf(disk, ins.k).ReadAt(ins.now), ins.c, ins.delta, ins.now)
  }

  ghost function AfterInserts(disk: Disk, inserts: seq<Insert>): (r: Disk)
    requires ValidDisk(disk)
    ensures ValidDisk(r)
    decreases |inserts|
  {
    if inserts == [] then disk else AfterInsert(AfterInserts(disk, inserts[..|inserts| - 1]), inserts[|inserts| - 1])
  }

  /** Over every run of writes to any counters at any times: what is read just after a write is within the limit. */
  lemma {:induction false} EveryWriteStaysWithinLimit(disk: Disk, inserts: seq<Insert>, i: nat)
    requires ValidDisk(disk) && i < |inserts|
    ensures var ins, before, after := inserts[i], AfterInserts(disk, inserts[..i]), AfterInserts(disk, inserts[..i + 1]);
            after != before ==> EntryOf(after, ins.k).ReadAt(ins.now).ValueAt(ins.now) <= ins.c.maxValue
  {
    var ins, before := inserts[i], AfterInserts(disk, inserts[..i]);
    assert inserts[..i + 1][..i] == inserts[..i];
    WrittenReads(before, ins.k, ins.c, ins.delta, ins.now);
  }

  ghost predicate Whole(v: ExpiringValue) {
    v.Truncated() == v && v.expiry / SECOND < TIME_LIMIT
  }

  /** Whatever comes from the disk expires on a whole second. */
  lemma {:induction false} DecodedWhole(raw: seq<Byte>)
    requires Readable(raw)
    ensures Whole(Decode(raw).value)
  {
    var seconds := FromBytes(raw[8..16]);
    assert seconds * SECOND / SECOND == seconds;
  }

  lemma {:induction false} MergedWhole(start: ExpiringValue, ops: seq<ExpiringValue>, now: nat)
    requires Whole(start) && forall i :: 0 <= i < |ops| ==> Whole(ops[i])
    ensures Whole(MergeAll(start, ops, now))
    decreases |ops|
  {
    if ops == [] {
    } else {
      MergedWhole(start, ops[..|ops| - 1], now);
    }
  }

  lemma {:induction false} StoredWhole(entry: Entry, now: nat)
    requires entry.Valid()
    ensures Whole(entry.ReadAt(now))
  {
    if entry.base.Some? {
      DecodedWhole(entry.base.value);
    }
    forall i | 0 <= i < |entry.pending|
      ensures Whole(DecodeAll(entry.pending)[i])
    {
      DecodedWhole(entry.pending[i]);
    }
    MergedWhole(StartOf(entry.base), DecodeAll(entry.pending), now);
  }

  // ---- Any compaction history ----

  /**
   How values came to be merged: adjacent groups, each at its own moment. Merging
   `n` operands in one go is merging them pair by pair at the same moment.
   */
  datatype History = One(op: ExpiringValue) | Merged(left: History, right: History, at: nat)

  function ValueOf(h: History): ExpiringValue {
    match h
    case One(op) => op
    case Merged(left, right, at) => ValueOf(left).Merge(ValueOf(right), at)
  }

  function Operands(h: History): (ops: seq<ExpiringValue>)
    ensures |ops| > 0
  {
    match h
    case One(op) => [op]
    case Merged(left, right, _) => Operands(left) + Operands(right)
  }

  /** Every merge happened by `now`. */
  ghost predicate DoneBy(h: History, now: nat) {
    h.Merged? ==> h.at <= now && DoneBy(h.left, now) && DoneBy(h.right, now)
  }

  ghost predicate AllLive(ops: seq<ExpiringValue>, now: nat) {
    forall i :: 0 <= i < |ops| ==> ops[i].LiveAt(now)
  }

  /** The values of some operands, summed up. */
  function SumOf(ops: seq<ExpiringValue>): nat {
    if ops == [] then 0 else SumOf(ops[..|ops| - 1]) + ops[|ops| - 1].value
  }

  lemma {:induction false} SumConcat(a: seq<ExpiringValue>, b: seq<ExpiringValue>)
    ensures SumOf(a + b) == SumOf(a) + SumOf(b)
    decreases |b|
  {
    if b == [] {
      assert a + b == a;
    } else {
      SumConcat(a, b[..|b| - 1]);
      assert (a + b)[..|a + b| - 1] == a + b[..|b| - 1];
    }
  }

  lemma {:induction false} SumOne(v: ExpiringValue)
    ensures SumOf([v]) == v.value
  {
    assert [v][..0] == [];
  }

  lemma {:induction false} WrapBoth(x: nat, y: nat)
    ensures Wrap(Wrap(x) + Wrap(y)) == Wrap(x + y)
  {
    WrapAdd(x, Wrap(y));
    WrapAdd(y, x);
  }

  /** `v` is the sum of some operands, in the window of the first. */
  ghost predicate SumsTo(v: ExpiringValue, ops: seq<ExpiringValue>) {
    |ops| > 0 && v == ExpiringValue(Wrap(SumOf(ops)), ops[0].expiry)
  }

  lemma {:induction false} JoinSums(v: ExpiringValue, w: ExpiringValue, at: nat, l: seq<ExpiringValue>, r: seq<ExpiringValue>)
    requires SumsTo(v, l) && SumsTo(w, r) && l[0].LiveAt(at)
    ensures SumsTo(v.Merge(w, at), l + r)
  {
    SumConcat(l, r);
    WrapBoth(SumOf(l), SumOf(r));
  }

  /** A pass over values whose first one runs sums them up in its window. */
  lemma {:induction false} PassSums(start: ExpiringValue, ops: seq<ExpiringValue>, now: nat)
    requires start.LiveAt(now)
    ensures SumsTo(MergeAll(start, ops, now), [start] + ops)
    decreases |ops|
  {
    if ops == [] {
      SumOne(start);
      assert [start] + ops == [start];
    } else {
      var n := |ops| - 1;
      PassSums(start, ops[..n], now);
      SumOne(ops[n]);
      JoinSums(MergeAll(start, ops[..n], now), ops[n], now, [start] + ops[..n], [ops[n]]);
      assert [start] + ops == [start] + ops[..n] + [ops[n]];
    }
  }

  /** Running values, however grouped, sum up in the window of the first. */
  lemma {:induction false} HistorySums(h: History, now: nat)
    requires DoneBy(h, now) && AllLive(Operands(h), now)
    ensures SumsTo(ValueOf(h), Operands(h))
  {
    match h
    case One(op) => SumOne(op);
    case Merged(left, right, at) =>
      LiveParts(Operands(left), Operands(right), now);
      HistorySums(left, now);
      HistorySums(right, now);
      JoinSums(ValueOf(left), ValueOf(right), at, Operands(left), Operands(right));
  }

  lemma {:induction false} LiveParts(l: seq<ExpiringValue>, r: seq<ExpiringValue>, now: nat)
    requires AllLive(l + r, now)
    ensures AllLive(l, now) && AllLive(r, now)
  {
    forall i | 0 <= i < |l|
      ensures l[i].LiveAt(now)
    {
      assert (l + r)[i] == l[i];
    }
    forall i | 0 <= i < |r|
      ensures r[i].LiveAt(now)
    {
      assert (l + r)[|l| + i] == r[i];
    }
  }

  // ---- A base that has expired ----

  /**
   How many operands the base took in before a merge found it expired. Only the
   merges the base takes part in count: those along the left edge.
   */
  function Absorbed(h: History): (n: nat)
    ensures n < |Operands(h)|
  {
    match h
    case One(_) => 0
    case Merged(left, right, at) =>
      if Absorbed(left) == |Operands(left)| - 1 && Operands(h)[0].LiveAt(at) then |Operands(h)| - 1 else Absorbed(left)
  }

  /** The first merge the base takes part in, if there is one. */
  function FirstMerge(h: History): Option<nat> {
    match h
    case One(_) => None
    case Merged(left, right, at) => if left.One? then Some(at) else FirstMerge(left)
  }

  /** The base takes nothing in exactly when it is never merged or already over the first time. */
  lemma {:induction false} AbsorbsNothingIff(h: History)
    ensures Absorbed(h) == 0 <==> FirstMerge(h).None? || !Operands(h)[0].LiveAt(FirstMerge(h).value)
    ensures FirstMerge(h).None? <==> h.One?
  {
    match h
    case One(_) =>
    case Merged(left, right, at) =>
      AbsorbsNothingIff(left);
      assert Operands(h)[0] == Operands(left)[0];
  }

  /** The base and all operands in the base's window, or the operands from the first it did not take in. */
  ghost predicate EndsUp(h: History) {
    if Absorbed(h) == |Operands(h)| - 1 then SumsTo(ValueOf(h), Operands(h))
    else SumsTo(ValueOf(h), Operands(h)[Absorbed(h) + 1..])
  }

  lemma {:induction false} LaterOperandsStay(h: History, now: nat)
    requires h.Merged? && DoneBy(h, now) && AllLive(Operands(h)[1..], now)
    ensures AllLive(Operands(h.left)[1..], now) && AllLive(Operands(h.right), now)
  {
    assert Operands(h)[1..] == Operands(h.left)[1..] + Operands(h.right);
    LiveParts(Operands(h.left)[1..], Operands(h.right), now);
  }

  /** What a history of a base and running operands comes to, whenever the base expired. */
  lemma {:induction false} BaseHistory(h: History, now: nat)
    requires DoneBy(h, now) && AllLive(Operands(h)[1..], now)
    ensures EndsUp(h)
  {
    match h
    case One(op) => SumOne(op);
    case Merged(left, right, at) =>
      LaterOperandsStay(h, now);
      BaseHistory(left, now);
      HistorySums(right, now);
      BaseHistoryStep(h, now);
  }

  lemma {:induction false} BaseHistoryStep(h: History, now: nat)
    requires h.Merged? && h.at <= now && AllLive(Operands(h.left)[1..], now)
    requires EndsUp(h.left) && SumsTo(ValueOf(h.right), Operands(h.right))
    ensures EndsUp(h)
  {
    var l, r, n := Operands(h.left), Operands(h.right), Absorbed(h.left);
    if n < |l| - 1 {
      assert l[n + 1] == l[1..][n];
      JoinSums(ValueOf(h.left), ValueOf(h.right), h.at, l[n + 1..], r);
      assert (l + r)[n + 1..] == l[n + 1..] + r;
    } else if l[0].LiveAt(h.at) {
      JoinSums(ValueOf(h.left), ValueOf(h.right), h.at, l, r);
    } else {
      assert (l + r)[|l|..] == r;
    }
  }

  lemma {:induction false} DeadBasePass(base: ExpiringValue, ops: seq<ExpiringValue>, now: nat)
    requires !base.LiveAt(now) && |ops| > 0 && AllLive(ops, now)
    ensures SumsTo(MergeAll(base, ops, now), ops)
  {
    SkipDeadBase(base, ops, now);
    PassSums(ops[0], ops[1..], now);
    assert [ops[0]] + ops[1..] == ops;
  }

  lemma {:induction false} SkipDeadBase(base: ExpiringValue, ops: seq<ExpiringValue>, now: nat)
    requires !base.LiveAt(now) && |ops| > 0
    ensures MergeAll(base, ops, now) == MergeAll(ops[0], ops[1..], now)
    decreases |ops|
  {
    var n := |ops| - 1;
    if n == 0 {
      assert ops[..0] == [];
    } else {
      SkipDeadBase(base, ops[..n], now);
      assert ops[1..][..n - 1] == ops[..n][1..];
    }
  }

  /** What the base took in before it expired leaves no trace: no hits, and the window of the next operand. */
  ghost predicate LeavesNoTrace(h: History) {
    var ops, n := Operands(h), Absorbed(h);
    n + 1 < |ops| && Wrap(SumOf(ops[1..n + 1])) == 0 && ops[n + 1].expiry == ops[1].expiry
  }

  /**
   Whatever the database merged beforehand, in whatever groups and at whatever
   times, with or without the base: as long as the operands still run, a read finds
   what one pass over base and operands finds now, if and only if the base still
   runs too, or it took nothing in while it did, or what it took in amounts to
   nothing.
   */
  lemma {:induction false} GroupingMattersIff(h: History, now: nat)
    requires DoneBy(h, now) && AllLive(Operands(h)[1..], now)
    ensures ValueOf(h) == MergeAll(Operands(h)[0], Operands(h)[1..], now) <==>
            Operands(h)[0].LiveAt(now) || Absorbed(h) == 0 || LeavesNoTrace(h)
  {
    if Operands(h)[0].LiveAt(now) {
      RunningBase(h, now);
    } else if h.Merged? {
      ExpiredBase(h, now);
    }
  }

  lemma {:induction false} RunningBase(h: History, now: nat)
    requires DoneBy(h, now) && AllLive(Operands(h)[1..], now) && Operands(h)[0].LiveAt(now)
    ensures ValueOf(h) == MergeAll(Operands(h)[0], Operands(h)[1..], now)
  {
    var ops := Operands(h);
    assert ops == [ops[0]] + ops[1..];
    forall i | 0 <= i < |ops|
      ensures ops[i].LiveAt(now)
    {
      assert i > 0 ==> ops[i] == ops[1..][i - 1];
    }
    HistorySums(h, now);
    PassSums(ops[0], ops[1..], now);
  }

  lemma {:induction false} SameSumsIff(v: ExpiringValue, w: ExpiringValue, front: seq<ExpiringValue>, tail: seq<ExpiringValue>)
    requires SumsTo(v, tail) && SumsTo(w, front + tail)
    ensures v == w <==> Wrap(SumOf(front)) == 0 && (front + tail)[0].expiry == tail[0].expiry
  {
    SumConcat(front, tail);
    WrapCancels(SumOf(tail), SumOf(front));
  }

  lemma {:induction false} ExpiredBase(h: History, now: nat)
    requires h.Merged? && DoneBy(h, now) && AllLive(Operands(h)[1..], now) && !Operands(h)[0].LiveAt(now)
    ensures ValueOf(h) == MergeAll(Operands(h)[0], Operands(h)[1..], now) <==> Absorbed(h) == 0 || LeavesNoTrace(h)
  {
    var ops, n := Operands(h), Absorbed(h);
    var pass := MergeAll(ops[0], ops[1..], now);
    assert SumsTo(pass, ops[1..]) by { DeadBasePass(ops[0], ops[1..], now); }
    assert EndsUp(h) by { BaseHistory(h, now); }
    assert ops[1..][0] == ops[1] && ops[1].LiveAt(now);
    if n < |ops| - 1 {
      var front, tail := ops[1..n + 1], ops[n + 1..];
      assert front + tail == ops[1..] && tail[0] == ops[n + 1];
      SameSumsIff(ValueOf(h), pass, front, tail);
      assert n == 0 ==> front == [];
    }
  }

  /** A base that is running still, or was over the first time it was merged, never makes a difference. */
  lemma {:induction false} GroupingDoesNotMatter(h: History, now: nat)
    requires DoneBy(h, now) && AllLive(Operands(h)[1..], now)
    requires Operands(h)[0].LiveAt(now) || FirstMerge(h).None? || !Operands(h)[0].LiveAt(FirstMerge(h).value)
    ensures ValueOf(h) == MergeAll(Operands(h)[0], Operands(h)[1..], now)
  {
    GroupingMattersIff(h, now);
    AbsorbsNothingIff(h);
  }

  // ---- Operands that may be over ----

  /** The operands still counted in a history's value: a merge drops its left side if that is over. */
  function Survivors(h: History): (ops: seq<ExpiringValue>)
    ensures |ops| > 0
  {
    match h
    case One(op) => [op]
    case Merged(left, right, at) =>
      if Survivors(left)[0].LiveAt(at) then Survivors(left) + Survivors(right) else Survivors(right)
  }

  /** What any history comes to, whatever has expired: its survivors, in the window of the first. */
  lemma {:induction false} SurvivorsSum(h: History)
    ensures SumsTo(ValueOf(h), Survivors(h))
  {
    match h
    case One(op) => SumOne(op);
    case Merged(left, right, at) =>
      SurvivorsSum(left);
      SurvivorsSum(right);
      if Survivors(left)[0].LiveAt(at) {
        JoinSums(ValueOf(left), ValueOf(right), at, Survivors(left), Survivors(right));
      }
  }

  /** The index of the first value running at `now`, or of the last one. */
  function FirstLive(ops: seq<ExpiringValue>, now: nat): (i: nat)
    requires ops != []
    ensures i < |ops| && (forall j :: 0 <= j < i ==> !ops[j].LiveAt(now)) && (i < |ops| - 1 ==> ops[i].LiveAt(now))
  {
    if |ops| == 1 || ops[0].LiveAt(now) then 0 else 1 + FirstLive(ops[1..], now)
  }

  /** What one pass comes to: everything from the first value that runs. */
  lemma {:induction false} PassFromFirstLive(base: ExpiringValue, ops: seq<ExpiringValue>, now: nat)
    ensures SumsTo(MergeAll(base, ops, now), ([base] + ops)[FirstLive([base] + ops, now)..])
    decreases |ops|
  {
    var all := [base] + ops;
    if ops == [] {
      SumOne(base);
      assert all == [base];
    } else if base.LiveAt(now) {
      PassSums(base, ops, now);
    } else {
      SkipDeadBase(base, ops, now);
      PassFromFirstLive(ops[0], ops[1..], now);
      assert all[1..] == ops == [ops[0]] + ops[1..];
      assert all[FirstLive(all, now)..] == ops[FirstLive(ops, now)..];
    }
  }

  /**
   For every history, whatever has expired when: it comes to what one pass now comes
   to, if and only if its survivors have the total, modulo 2^64, and the first window
   of the values from the first one running now.
   */
  lemma {:induction false} HistoryMattersIff(h: History, now: nat)
    ensures var kept, ops := Survivors(h), Operands(h);
            var first := FirstLive(ops, now);
            ValueOf(h) == MergeAll(ops[0], ops[1..], now) <==>
            Wrap(SumOf(kept)) == Wrap(SumOf(ops[first..])) && kept[0].expiry == ops[first].expiry
  {
    var ops := Operands(h);
    SurvivorsSum(h);
    PassFromFirstLive(ops[0], ops[1..], now);
    assert [ops[0]] + ops[1..] == ops;
  }

  /** In particular, a history that kept exactly those values makes no difference. */
  lemma {:induction false} SameSurvivorsSameValue(h: History, now: nat)
    requires Survivors(h) == Operands(h)[FirstLive(Operands(h), now)..]
    ensures ValueOf(h) == MergeAll(Operands(h)[0], Operands(h)[1..], now)
  {
    HistoryMattersIff(h, now);
  }

  // ---- Exactly when it does matter ----

  lemma {:induction false} ThreeValues(b: u64, f: u64, s: u64)
    ensures Wrap(b + Wrap(f + s)) == Wrap(Wrap(b + f) + s)
    ensures Wrap(b + s) == Wrap(Wrap(b + f) + s) <==> f == 0
  {
    WrapAdd(b + f, s);
    WrapAdd(f + s, b);
    WrapCancels(b + s, f);
  }

  lemma {:induction false} PartialMergeLiveBase(base: ExpiringValue, first: ExpiringValue, second: ExpiringValue, t: nat, now: nat)
    requires base.LiveAt(now)
    ensures base.Merge(first.Merge(second, t), now) == base.Merge(first, now).Merge(second, now) <==>
            first.LiveAt(t) || first.value == 0
  {
    ThreeValues(base.value, first.value, second.value);
    var early, pass := base.Merge(first.Merge(second, t), now), base.Merge(first, now).Merge(second, now);
    assert early.expiry == pass.expiry == base.expiry;
    assert pass.value == Wrap(Wrap(base.value + first.value) + second.value);
    if first.LiveAt(t) {
      assert early.value == Wrap(base.value + Wrap(first.value + second.value));
    } else {
      assert early.value == Wrap(base.value + second.value);
    }
  }

  lemma {:induction false} PartialMergeDeadBase(base: ExpiringValue, first: ExpiringValue, second: ExpiringValue, t: nat, now: nat)
    requires t <= now && !base.LiveAt(now)
    ensures base.Merge(first.Merge(second, t), now) == base.Merge(first, now).Merge(second, now) <==>
            first.LiveAt(now) || !first.LiveAt(t) || (first.value == 0 && first.expiry == second.expiry)
  {
    WrapCancels(second.value, first.value);
  }

  /** Two operands merged at `t` and joined to the base at `now`, against one pass at `now`. */
  lemma {:induction false} PartialMergeMattersIff(base: ExpiringValue, first: ExpiringValue, second: ExpiringValue, t: nat, now: nat)
    requires t <= now
    ensures base.Merge(first.Merge(second, t), now) == MergeAll(base, [first, second], now) <==>
            if base.LiveAt(now) then first.LiveAt(t) || first.value == 0
            else first.LiveAt(now) || !first.LiveAt(t) || (first.value == 0 && first.expiry == second.expiry)
  {
    TwoOperands(base, first, second, now);
    if base.LiveAt(now) {
      PartialMergeLiveBase(base, first, second, t, now);
    } else {
      PartialMergeDeadBase(base, first, second, t, now);
    }
  }

  /** The base and one operand merged at `t`, a second operand at `now`, against one pass at `now`. */
  lemma {:induction false} EarlyBaseMattersIff(base: ExpiringValue, first: ExpiringValue, second: ExpiringValue, t: nat, now: nat)
    requires t <= now
    ensures base.Merge(first, t).Merge(second, now) == MergeAll(base, [first, second], now) <==>
            base.LiveAt(now) || !base.LiveAt(t) || !first.LiveAt(now) || (first.value == 0 && first.expiry == second.expiry)
  {
    TwoOperands(base, first, second, now);
    WrapCancels(second.value, first.value);
  }

  lemma {:induction false} TwoOperands(base: ExpiringValue, first: ExpiringValue, second: ExpiringValue, now: nat)
    ensures MergeAll(base, [first, second], now) == base.Merge(first, now).Merge(second, now)
  {
    var ops := [first, second];
    assert ops[..1] == [first] && [first][..0] == [];
    assert MergeAll(base, [first], now) == base.Merge(first, now);
  }

  /**
   A counter of 60 seconds takes three hits at second 0 and two at second 59. Merged
   as they were written, nothing is left at second 60; merged by the read at second
   60, the two late hits are counted again, in a window of their own.
   */
  lemma {:induction false} LateMergeCarriesHitsOver()
    ensures var first, second := ExpiringValue(3, 60 * SECOND), ExpiringValue(2, 119 * SECOND);
            && DEFAULT_VALUE.Merge(first, 0).Merge(second, 59 * SECOND).ValueAt(60 * SECOND) == 0
            && MergeAll(DEFAULT_VALUE, [first, second], 60 * SECOND).ValueAt(60 * SECOND) == 2
  {
    TwoOperands(DEFAULT_VALUE, ExpiringValue(3, 60 * SECOND), ExpiringValue(2, 119 * SECOND), 60 * SECOND);
  }
}
