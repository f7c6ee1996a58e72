/**
 * Base-128 variable-length numbers, least significant group first; every byte but the
 * last carries the continuation bit 128. EOS `varuint32`, protobuf varints and the runes
 * LEB128 values all share this form and differ in how a reader bounds it.
 */
module Leb128 {
  import opened Wrappers
  import opened Numerals

  function Encode(n: nat): (s: seq<byte>)
    ensures s != []
    decreases n
  {
    if n < 128 then [n] else [n % 128 + 128] + Encode(n / 128)
  }

  /** How many bytes the first group in `s` takes, if `s` holds a complete one. */
  function GroupLength(s: seq<byte>): (r: Option<nat>)
    ensures r.Some? ==> 0 < r.value <= |s|
    decreases |s|
  {
    if s == [] then None
    else if s[0] < 128 then Some(1)
    else
      match GroupLength(s[1..])
      case None => None
      case Some(k) => Some(k + 1)
  }

  /** The payload bits of the bytes of `s`, whatever their continuation bits. */
  function Payload(s: seq<byte>): (n: nat)
    decreases |s|
  {
    if s == [] then 0 else s[0] % 128 + 128 * Payload(s[1..])
  }

  lemma {:induction false} DecodeEncode(n: nat, rest: seq<byte>)
    ensures GroupLength(Encode(n) + rest) == Some(|Encode(n)|)
    ensures Payload(Encode(n)) == n
    decreases n
  {
    var e := Encode(n);
    if n >= 128 {
      DecodeEncode(n / 128, rest);
      assert (e + rest)[1..] == Encode(n / 128) + rest;
      assert e[1..] == Encode(n / 128);
    }
  }

  /** `n` takes at most `k` bytes exactly when it is below 128^k. */
  lemma {:induction false} EncodeLength(n: nat, k: nat)
    requires k > 0
    ensures |Encode(n)| <= k <==> n < Pow(128, k)
    decreases n
  {
    if n < 128 {
      PowMono(128, 1, k);
      assert Pow(128, 1) == 128 * Pow(128, 0) == 128;
    } else {
      if k == 1 {
        assert Pow(128, 1) == 128 * Pow(128, 0) == 128;
      } else {
        EncodeLength(n / 128, k - 1);
        assert Pow(128, k) == 128 * Pow(128, k - 1);
      }
    }
  }

  lemma {:induction false} PayloadBound(s: seq<byte>)
    ensures Payload(s) < Pow(128, |s|)
    decreases |s|
  {
    if s != [] {
      PayloadBound(s[1..]);
    }
  }

  lemma {:induction false} PayloadAppend(s: seq<byte>, b: byte)
    ensures Payload(s + [b]) == Payload(s) + Pow(128, |s|) * (b % 128)
    decreases |s|
  {
    if s == [] {
      assert (s + [b])[1..] == [];
    } else {
      var p := Pow(128, |s| - 1);
      PayloadAppend(s[1..], b);
      assert (s + [b])[1..] == s[1..] + [b];
      Associate(128, p, b % 128);
    }
  }

  /** The shape of one complete group. */
  predicate IsGroup(s: seq<byte>) {
    && s != []
    && s[|s| - 1] < 128
    && forall i :: 0 <= i < |s| - 1 ==> s[i] >= 128
  }

  /** The group length is the position after the first byte below 128. */
  lemma {:induction false} GroupLengthIs(s: seq<byte>, k: nat)
    requires 0 < k <= |s| && IsGroup(s[..k])
    ensures GroupLength(s) == Some(k)
    decreases k
  {
    if k == 1 {
      assert s[..1][0] == s[0];
    } else {
      assert s[..k][0] == s[0];
      assert s[1..][..k - 1] == s[..k][1..];
      GroupLengthIs(s[1..], k - 1);
    }
  }

  lemma {:induction false} GroupLengthNone(s: seq<byte>)
    requires forall i :: 0 <= i < |s| ==> s[i] >= 128
    ensures GroupLength(s) == None
    decreases |s|
  {
    if s != [] {
      GroupLengthNone(s[1..]);
    }
  }

  /** Conversely, a group length marks a complete group. */
  lemma {:induction false} GroupLengthGroup(s: seq<byte>)
    ensures GroupLength(s).Some? ==> IsGroup(s[..GroupLength(s).value])
    ensures GroupLength(s).None? ==> forall i :: 0 <= i < |s| ==> s[i] >= 128
    decreases |s|
  {
    if s != [] && s[0] >= 128 {
      GroupLengthGroup(s[1..]);
      if GroupLength(s).Some? {
        var k := GroupLength(s).value;
        assert s[..k] == [s[0]] + s[1..][..k - 1];
      }
    }
  }

  lemma {:induction false} EncodeIsGroup(n: nat)
    ensures IsGroup(Encode(n))
  {
    DecodeEncode(n, []);
    assert Encode(n) + [] == Encode(n);
    GroupLengthGroup(Encode(n));
    assert Encode(n)[..|Encode(n)|] == Encode(n);
  }

  /** A group without padding is the encoding of its payload, so no number has two. */
  lemma {:induction false} EncodePayload(s: seq<byte>)
    requires IsGroup(s) && (|s| > 1 ==> s[|s| - 1] != 0)
    ensures Encode(Payload(s)) == s
    decreases |s|
  {
    if |s| == 1 {
      assert Payload(s[1..]) == 0;
    } else {
      EncodePayload(s[1..]);
      DivModUnique(Payload(s), 128, Payload(s[1..]), s[0] % 128);
      assert Payload(s[1..]) > 0 by { PayloadPositive(s[1..]); }
      assert s == [s[0]] + s[1..];
    }
  }

  lemma {:induction false} PayloadPositive(s: seq<byte>)
    requires s != [] && s[|s| - 1] % 128 != 0
    ensures Payload(s) > 0
    decreases |s|
  {
    if |s| > 1 {
      PayloadPositive(s[1..]);
    }
  }
}
