/**
 Values of the disk storage: updated, merged and stored as sixteen bytes, the
 expiry cut to whole seconds. Clocks count nanoseconds.
 */
module DiskValues {
  import opened Prelude

  const SECOND: nat := 1_000_000_000

  datatype ExpiringValue = ExpiringValue(value: u64, expiry: nat) {

    function ValueAt(when: nat): u64 {
      if expiry <= when then 0 else value
    }

    predicate LiveAt(when: nat) {
      expiry > when
    }

    function Update(delta: u64, ttl: nat, now: nat): ExpiringValue {
      ExpiringValue(Wrap(ValueAt(now) + delta), if expiry <= now then now + ttl else expiry)
    }

    function Merge(other: ExpiringValue, now: nat): ExpiringValue {
      if expiry > now then ExpiringValue(Wrap(value + other.value), expiry) else other
    }

    /** As it comes back from the disk. */
    function Truncated(): ExpiringValue {
      this.(expiry := expiry / SECOND * SECOND)
    }
  }

  const DEFAULT_VALUE := ExpiringValue(0, 0)

  // ---- Big-endian integers ----

  function ToBytes(n: nat, k: nat): (b: seq<Byte>)
    ensures |b| == k
  {
    if k == 0 then [] else ToBytes(n / 256, k - 1) + [n % 256]
  }

  function FromBytes(b: seq<Byte>): nat {
    if b == [] then 0 else FromBytes(b[..|b| - 1]) * 256 + b[|b| - 1]
  }

  ghost function Pow256(k: nat): nat {
    if k == 0 then 1 else Pow256(k - 1) * 256
  }

  lemma {:induction false} BytesRoundTrip(n: nat, k: nat)
    requires n < Pow256(k)
    ensures FromBytes(ToBytes(n, k)) == n
    decreases k
  {
    if k == 0 {
    } else {
      BytesRoundTrip(n / 256, k - 1);
      assert ToBytes(n, k)[..k - 1] == ToBytes(n / 256, k - 1);
    }
  }

  lemma {:induction false} NumberRoundTrip(b: seq<Byte>)
    ensures FromBytes(b) < Pow256(|b|) && ToBytes(FromBytes(b), |b|) == b
    decreases |b|
  {
    if b == [] {
    } else {
      var front := b[..|b| - 1];
      NumberRoundTrip(front);
      assert FromBytes(b) / 256 == FromBytes(front) && FromBytes(b) % 256 == b[|b| - 1];
    }
  }

  lemma {:induction false} Pow256Of8()
    ensures Pow256(8) == U64
  {
    assert Pow256(4) == 0x1_0000_0000;
    assert Pow256(8) == Pow256(4) * 256 * 256 * 256 * 256;
  }

  // ---- Values as bytes ----

  function Encode(v: ExpiringValue): (b: seq<Byte>)
    ensures |b| == 16
  {
    ToBytes(v.value, 8) + ToBytes(v.expiry / SECOND, 8)
  }

  /** Sixteen bytes, of which the last eight are seconds a system time can hold. */
  predicate Readable(raw: seq<Byte>) {
    |raw| >= 16 && FromBytes(raw[8..16]) < TIME_LIMIT
  }

  /** Reading anything else panics; bytes beyond the sixteenth are not looked at. */
  function Decode(raw: seq<Byte>): Option<ExpiringValue> {
    if !Readable(raw) then None
    else
      DecodedFits(raw);
      Some(ExpiringValue(FromBytes(raw[..8]), FromBytes(raw[8..16]) * SECOND))
  }

  lemma {:induction false} DecodedFits(raw: seq<Byte>)
    requires |raw| >= 16
    ensures FromBytes(raw[..8]) < U64
  {
    NumberRoundTrip(raw[..8]);
    Pow256Of8();
  }

  lemma {:induction false} FromBytesCons(b: seq<Byte>)
    requires b != []
    ensures FromBytes(b) == b[0] * Pow256(|b| - 1) + FromBytes(b[1..])
    decreases |b|
  {
    if |b| == 1 {
      assert b[..0] == [];
    } else {
      var n := |b| - 1;
      FromBytesCons(b[..n]);
      assert b[..n][1..] == b[1..][..n - 1];
      Shift(b[0], Pow256(n - 1));
    }
  }

  lemma {:induction false} Shift(x: nat, y: nat)
    ensures (x * y) * 256 == x * (y * 256)
  {
  }

  /** Whether sixteen bytes can be read is told by one of them: the first of the seconds. */
  lemma {:induction false} ReadableIff(raw: seq<Byte>)
    ensures Readable(raw) <==> |raw| >= 16 && raw[8] < 128
  {
    if |raw| >= 16 {
      var b := raw[8..16];
      FromBytesCons(b);
      NumberRoundTrip(b[1..]);
      Pow256Of7();
    }
  }

  lemma {:induction false} Pow256Of7()
    ensures Pow256(7) == 0x100_0000_0000_0000
  {
    assert Pow256(4) == 0x1_0000_0000;
    assert Pow256(7) == Pow256(4) * 256 * 256 * 256;
  }

  /** What is written comes back, short of the part of a second in its expiry. */
  lemma {:induction false} StoredRoundTrip(v: ExpiringValue)
    requires v.expiry / SECOND < TIME_LIMIT
    ensures Decode(Encode(v)) == Some(v.Truncated())
  {
    Pow256Of8();
    BytesRoundTrip(v.value, 8);
    BytesRoundTrip(v.expiry / SECOND, 8);
    assert Encode(v)[..8] == ToBytes(v.value, 8) && Encode(v)[8..16] == ToBytes(v.expiry / SECOND, 8);
  }

  /** Sixteen bytes that can be read are the sixteen bytes written back. */
  lemma {:induction false} RawRoundTrip(raw: seq<Byte>)
    requires |raw| == 16
    ensures Decode(raw).Some? <==> raw[8] < 128
    ensures Decode(raw).Some? ==> Encode(Decode(raw).value) == raw
  {
    ReadableIff(raw);
    NumberRoundTrip(raw[..8]);
    NumberRoundTrip(raw[8..16]);
    var seconds := FromBytes(raw[8..16]);
    assert seconds * SECOND / SECOND == seconds;
    assert raw == raw[..8] + raw[8..16];
  }

  /**
   Writing hits as a merge of one fresh operand, cut to whole seconds, is updating
   the stored value and then cutting that.
   */
  lemma {:induction false} FreshOperandIsUpdate(v: ExpiringValue, delta: u64, ttl: nat, now: nat)
    ensures v.Merge(ExpiringValue(delta, now + ttl), now) == v.Update(delta, ttl, now)
    ensures v.Truncated() == v ==>
              v.Merge(ExpiringValue(delta, now + ttl).Truncated(), now) == v.Update(delta, ttl, now).Truncated()
  {
  }
}
