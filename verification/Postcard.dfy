/**
 The part of the Postcard wire format the binary keys use: variable-length
 integers, strings, lists and pairs. Every encoder comes with a decoder that
 takes the value off the front of any bytes, which makes the code prefix-free.
 */
module Postcard {
  import opened Prelude

  /** A string as its UTF-8 bytes. */
  type Text = seq<Byte>

  // ---- Integers: seven bits a byte, the low ones first ----

  function Varint(n: nat): seq<Byte> {
    if n < 128 then [n] else [n % 128 + 128] + Varint(n / 128)
  }

  function TakeVarint(b: seq<Byte>): Option<(nat, seq<Byte>)>
    decreases |b|
  {
    if b == [] then None
    else if b[0] < 128 then Some((b[0], b[1..]))
    else
      match TakeVarint(b[1..])
      case Some((n, rest)) => Some((n * 128 + (b[0] - 128), rest))
      case None => None
  }

  lemma {:induction false} VarintRoundTrip(n: nat, rest: seq<Byte>)
    ensures TakeVarint(Varint(n) + rest) == Some((n, rest))
    decreases n
  {
    var b := Varint(n) + rest;
    if n < 128 {
      assert b[1..] == rest;
    } else {
      VarintRoundTrip(n / 128, rest);
      assert b[1..] == Varint(n / 128) + rest;
    }
  }

  // ---- Strings ----

  function EncodeText(s: Text): seq<Byte> {
    Varint(|s|) + s
  }

  function TakeText(b: seq<Byte>): Option<(Text, seq<Byte>)> {
    match TakeVarint(b)
    case Some((n, rest)) => if n <= |rest| then Some((rest[..n], rest[n..])) else None
    case None => None
  }

  lemma {:induction false} TextRoundTrip(s: Text, rest: seq<Byte>)
    ensures TakeText(EncodeText(s) + rest) == Some((s, rest))
  {
    VarintRoundTrip(|s|, s + rest);
    assert EncodeText(s) + rest == Varint(|s|) + (s + rest);
    assert (s + rest)[..|s|] == s && (s + rest)[|s|..] == rest;
  }

  // ---- Lists of strings ----

  function EncodeEach(ss: seq<Text>): seq<Byte> {
    if ss == [] then [] else EncodeText(ss[0]) + EncodeEach(ss[1..])
  }

  function EncodeTexts(ss: seq<Text>): seq<Byte> {
    Varint(|ss|) + EncodeEach(ss)
  }

  function TakeEach(n: nat, b: seq<Byte>): Option<(seq<Text>, seq<Byte>)>
    decreases n
  {
    if n == 0 then Some(([], b))
    else
      match TakeText(b)
      case None => None
      case Some((s, rest)) =>
        match TakeEach(n - 1, rest)
        case None => None
        case Some((ss, left)) => Some(([s] + ss, left))
  }

  function TakeTexts(b: seq<Byte>): Option<(seq<Text>, seq<Byte>)> {
    match TakeVarint(b)
    case Some((n, rest)) => TakeEach(n, rest)
    case None => None
  }

  lemma {:induction false} EachRoundTrip(ss: seq<Text>, rest: seq<Byte>)
    ensures TakeEach(|ss|, EncodeEach(ss) + rest) == Some((ss, rest))
    decreases |ss|
  {
    if ss == [] {
      assert EncodeEach(ss) + rest == rest;
    } else {
      var after := EncodeEach(ss[1..]) + rest;
      assert EncodeEach(ss) + rest == EncodeText(ss[0]) + after;
      TextRoundTrip(ss[0], after);
      EachRoundTrip(ss[1..], rest);
      assert [ss[0]] + ss[1..] == ss;
    }
  }

  lemma {:induction false} TextsRoundTrip(ss: seq<Text>, rest: seq<Byte>)
    ensures TakeTexts(EncodeTexts(ss) + rest) == Some((ss, rest))
  {
    VarintRoundTrip(|ss|, EncodeEach(ss) + rest);
    assert EncodeTexts(ss) + rest == Varint(|ss|) + (EncodeEach(ss) + rest);
    EachRoundTrip(ss, rest);
  }

  // ---- Lists of pairs of strings ----

  function EncodePairs(ps: seq<(Text, Text)>): seq<Byte> {
    Varint(|ps|) + EncodeEach(Flat(ps))
  }

  /** Pairs are written one component after the other, with nothing in between. */
  function Flat(ps: seq<(Text, Text)>): (ss: seq<Text>)
    ensures |ss| == 2 * |ps|
  {
    if ps == [] then [] else [ps[0].0, ps[0].1] + Flat(ps[1..])
  }

  function Paired(ss: seq<Text>): seq<(Text, Text)> {
    if |ss| < 2 then [] else [(ss[0], ss[1])] + Paired(ss[2..])
  }

  function TakePairs(b: seq<Byte>): Option<(seq<(Text, Text)>, seq<Byte>)> {
    match TakeVarint(b)
    case None => None
    case Some((n, rest)) =>
      match TakeEach(2 * n, rest)
      case None => None
      case Some((ss, left)) => Some((Paired(ss), left))
  }

  lemma {:induction false} FlatRoundTrip(ps: seq<(Text, Text)>)
    ensures Paired(Flat(ps)) == ps
    decreases |ps|
  {
    if ps == [] {
    } else {
      FlatRoundTrip(ps[1..]);
      assert Flat(ps)[2..] == Flat(ps[1..]);
    }
  }

  lemma {:induction false} PairsRoundTrip(ps: seq<(Text, Text)>, rest: seq<Byte>)
    ensures TakePairs(EncodePairs(ps) + rest) == Some((ps, rest))
  {
    VarintRoundTrip(|ps|, EncodeEach(Flat(ps)) + rest);
    assert EncodePairs(ps) + rest == Varint(|ps|) + (EncodeEach(Flat(ps)) + rest);
    EachRoundTrip(Flat(ps), rest);
    FlatRoundTrip(ps);
  }

  /** No other bytes that read as `n` are as short as its encoding. */
  lemma {:induction false} VarintIsShortest(b: seq<Byte>, n: nat)
    requires TakeVarint(b) == Some((n, []))
    ensures |Varint(n)| <= |b| && (|Varint(n)| == |b| ==> Varint(n) == b)
    decreases |b|
  {
    if b[0] < 128 {
      assert b == [b[0]] + b[1..];
    } else {
      var m := TakeVarint(b[1..]).value.0;
      VarintIsShortest(b[1..], m);
      assert n == m * 128 + (b[0] - 128);
      assert b == [b[0]] + b[1..];
      if n >= 128 {
        assert n / 128 == m && n % 128 == b[0] - 128;
      }
    }
  }
}
