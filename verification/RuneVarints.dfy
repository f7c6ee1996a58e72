/**
 * The two varints of the runes protocols (packages/coin-bitcoin/src/runestones.ts and
 * packages/coin-bitcoin/src/rune.ts): LEB128 bounded at 128 bits, and the prefix varint without redundancy.
 */
module RuneVarints {
  import opened Wrappers
  import opened Numerals
  import Leb128

  // ---- LEB128

  datatype LebError = Overlong | Overflow | Unterminated

  /** `value` after `n` rounds of `encodeLEB128`. */
  function Shifted(value: int, n: nat): int {
    if n == 0 then value else Shifted(value, n - 1) / 128
  }

  /** The loop of `encodeLEB128` ends if and only if the number is not negative. */
  lemma {:induction false} EncodeEnds(value: int)
    ensures (exists n :: Shifted(value, n) == 0) <==> value >= 0
  {
    if value >= 0 {
      ShiftedShrinks(value, value);
    }
    forall n | Shifted(value, n) == 0
      ensures value >= 0
    {
      ShiftedSign(value, n);
    }
  }

  lemma {:induction false} ShiftedShrinks(value: nat, n: nat)
    ensures 0 <= Shifted(value, n) <= if n < value then value - n else 0
    decreases n
  {
    if n > 0 {
      ShiftedShrinks(value, n - 1);
    }
  }

  lemma {:induction false} ShiftedSign(value: int, n: nat)
    ensures value < 0 ==> Shifted(value, n) < 0
    decreases n
  {
    if n > 0 {
      ShiftedSign(value, n - 1);
    }
  }

  /** `encodeLEB128`, on the numbers on which its loop ends. */
  method EncodeLEB128(value0: nat) returns (bytes: seq<byte>)
    ensures bytes == Leb128.Encode(value0)
  {
    var value, more := value0, true;
    bytes := [];
    while more
      invariant bytes + (if more then Leb128.Encode(value) else []) == Leb128.Encode(value0)
      decreases more, value
    {
      ghost var was, done := value, bytes;
      var b := value % 128;
      value := value / 128;
      if value == 0 {
        more := false;
      } else {
        b := b + 128;
      }
      bytes := bytes + [b];
      EncodeOne(done, was, b, more);
    }
    assert bytes + [] == bytes;
  }

  lemma {:induction false} EncodeOne(done: seq<byte>, was: nat, b: byte, more: bool)
    requires more <==> was / 128 != 0
    requires b == if more then was % 128 + 128 else was % 128
    ensures done + Leb128.Encode(was) == (done + [b]) + (if more then Leb128.Encode(was / 128) else [])
  {
    if more {
      AppendStep(done, b, Leb128.Encode(was / 128));
    } else {
      assert done + [b] == (done + [b]) + [];
    }
  }

  /** `encodeToVecV2` appends the same bytes, and for a negative number one byte. */
  method EncodeToVecV2(n0: int, payload0: seq<byte>) returns (payload: seq<byte>)
    ensures n0 >= 0 ==> payload == payload0 + Leb128.Encode(n0)
    ensures n0 < 0 ==> payload == payload0 + [n0 % 128]
  {
    var n := n0;
    payload := payload0;
    while n / 128 > 0
      invariant n0 >= 0 ==> n >= 0 && payload + Leb128.Encode(n) == payload0 + Leb128.Encode(n0)
      invariant n0 < 0 ==> n == n0 && payload == payload0
      decreases n
    {
      AppendStep(payload, n % 128 + 128, Leb128.Encode(n / 128));
      payload := payload + [n % 128 + 128];
      n := n / 128;
    }
    payload := payload + [n % 128];
  }

  /** What `decodeLEB128` delivers: number and length, or the error. */
  function DecodeLeb(buf: seq<byte>): (r: Result<(nat, nat), LebError>)
    ensures r.Success? ==> 0 < r.value.1 <= |buf|
  {
    match Leb128.GroupLength(buf)
    case Some(k) =>
      if k < 19 then Success((Leb128.Payload(buf[..k]), k))
      else if buf[18] % 128 >= 4 then Failure(Overflow)
      else if k == 19 then Success((Leb128.Payload(buf[..k]), k))
      else Failure(Overlong)
    case None =>
      if |buf| <= 18 then Failure(Unterminated)
      else if buf[18] % 128 >= 4 then Failure(Overflow)
      else if |buf| == 19 then Failure(Unterminated)
      else Failure(Overlong)
  }

  /** `decodeLEB128` */
  method DecodeLEB128(buf: seq<byte>) returns (r: Result<(nat, nat), LebError>)
    ensures r == DecodeLeb(buf)
  {
    hide *;
    var n: nat, p: nat := 0, 1;
    LebStart(buf);
    for i := 0 to |buf|
      invariant i <= 19 && p == Pow(128, i) && n == Leb128.Payload(buf[..i])
      invariant Continued(buf, i)
    {
      if i > 18 {
        LebOverlong(buf);
        return Failure(Overlong);
      }
      var value: nat := buf[i] % 128;
      if i == 18 && value >= 4 {
        LebOverflow(buf);
        return Failure(Overflow);
      }
      LebNext(buf, i, n, p);
      n := n + p * value;
      p := 128 * p;
      if buf[i] < 128 {
        LebEnds(buf, i);
        return Success((n, i + 1));
      }
    }
    LebRunsOut(buf);
    return Failure(Unterminated);
  }

  lemma LebStart(buf: seq<byte>)
    ensures Leb128.Payload(buf[..0]) == 0 && Pow(128, 0) == 1 && Continued(buf, 0)
  {
  }

  lemma {:induction false} LebNext(buf: seq<byte>, i: nat, n: nat, p: nat)
    requires i < |buf| && i < 19 && p == Pow(128, i) && n == Leb128.Payload(buf[..i]) && Continued(buf, i)
    ensures n + p * (buf[i] % 128) == Leb128.Payload(buf[..i + 1]) && 128 * p == Pow(128, i + 1)
    ensures buf[i] >= 128 && (i == 18 ==> buf[18] % 128 < 4) ==> Continued(buf, i + 1)
  {
    hide Leb128.Payload;
    assert buf[..i + 1] == buf[..i] + [buf[i]];
    Leb128.PayloadAppend(buf[..i], buf[i]);
  }

  /** The first `i` bytes are flagged, and the nineteenth among them does not overflow. */
  predicate Continued(buf: seq<byte>, i: nat) {
    i <= |buf| && (forall k :: 0 <= k < i ==> buf[k] >= 128) && (i >= 19 ==> buf[18] % 128 < 4)
  }

  lemma {:induction false} LebOverlong(buf: seq<byte>)
    requires |buf| > 19 && Continued(buf, 19)
    ensures DecodeLeb(buf) == Failure(Overlong)
  {
    Leb128.GroupLengthGroup(buf);
    if Leb128.GroupLength(buf).Some? {
      var k := Leb128.GroupLength(buf).value;
      assert buf[..k][k - 1] == buf[k - 1];
    }
  }

  lemma {:induction false} LebOverflow(buf: seq<byte>)
    requires |buf| > 18 && Continued(buf, 18) && buf[18] % 128 >= 4
    ensures DecodeLeb(buf) == Failure(Overflow)
  {
    Leb128.GroupLengthGroup(buf);
    if Leb128.GroupLength(buf).Some? {
      var k := Leb128.GroupLength(buf).value;
      assert buf[..k][k - 1] == buf[k - 1];
    }
  }

  lemma {:induction false} LebEnds(buf: seq<byte>, i: nat)
    requires i < |buf| && i < 19 && Continued(buf, i) && buf[i] < 128 && (i == 18 ==> buf[18] % 128 < 4)
    ensures DecodeLeb(buf) == Success((Leb128.Payload(buf[..i + 1]), i + 1))
  {
    Leb128.GroupLengthIs(buf, i + 1);
  }

  lemma {:induction false} LebRunsOut(buf: seq<byte>)
    requires |buf| <= 19 && Continued(buf, |buf|)
    ensures DecodeLeb(buf) == Failure(Unterminated)
  {
    Leb128.GroupLengthNone(buf);
  }

  lemma {:induction false} Pow128To18()
    ensures Pow(128, 18) == 0x4000_0000_0000_0000_0000_0000_0000_0000
  {
    assert Pow(128, 1) == 128 * Pow(128, 0);
    assert Pow(128, 2) == 128 * Pow(128, 1);
    assert Pow(128, 3) == 128 * Pow(128, 2);
    PowAdd(128, 3, 3);
    PowAdd(128, 6, 3);
    PowAdd(128, 9, 9);
  }

  /** A number comes back from its encoding, whatever follows, exactly below 2^128; the others are refused. */
  lemma {:induction false} LebRoundTrip(n: nat, rest: seq<byte>)
    ensures var r := DecodeLeb(Leb128.Encode(n) + rest);
      if n < 0x1_0000_0000_0000_0000_0000_0000_0000_0000 then r == Success((n, |Leb128.Encode(n)|)) else r.Failure?
  {
    hide Leb128.Encode, Leb128.Payload;
    var e := Leb128.Encode(n);
    var s := e + rest;
    Leb128.DecodeEncode(n, rest);
    assert s[..|e|] == e;
    Pow128To18();
    Leb128.EncodeLength(n, 18);
    Leb128.EncodeLength(n, 19);
    assert Pow(128, 19) == 128 * Pow(128, 18);
    if |e| >= 19 {
      assert s[18] == e[18];
    }
    if |e| == 19 {
      var low, top: nat := Leb128.Payload(e[..18]), e[18] % 128;
      assert e == e[..18] + [e[18]];
      Leb128.PayloadAppend(e[..18], e[18]);
      Leb128.PayloadBound(e[..18]);
      assert n == low + 0x4000_0000_0000_0000_0000_0000_0000_0000 * top;
    }
  }

  // ---- the prefix varint

  /** All bytes of `n` but the last, flagged: each is one less than a plain digit would be. */
  function Flagged(n: nat): (s: seq<byte>)
    ensures s != [] && forall i :: 0 <= i < |s| ==> s[i] >= 128
    decreases n
  {
    (if n < 128 then [] else Flagged(n / 128 - 1)) + [n % 128 + 128]
  }

  /** The bytes before the last one. */
  function Head(n: nat): seq<byte> {
    if n < 128 then [] else Flagged(n / 128 - 1)
  }

  /** The prefix varint, most significant byte first. */
  function Prefix(n: nat): (s: seq<byte>)
    ensures s != [] && s[|s| - 1] < 128
    ensures forall i :: 0 <= i < |s| - 1 ==> s[i] >= 128
  {
    Head(n) + [n % 128]
  }

  /** The first number of `k + 1` bytes: 128 + 128^2 + ... + 128^k. */
  function FirstOf(k: nat): nat {
    if k == 0 then 0 else 128 + 128 * FirstOf(k - 1)
  }

  /** `n` takes at most `k` bytes exactly when it is below 128 + ... + 128^k. */
  lemma {:induction false} PrefixLength(n: nat, k: nat)
    requires k > 0
    ensures |Prefix(n)| <= k <==> n < FirstOf(k)
    decreases k
  {
    assert |Prefix(n)| == if n < 128 then 1 else 1 + |Flagged(n / 128 - 1)|;
    if n >= 128 {
      SameLength(n / 128 - 1);
      if k > 1 {
        PrefixLength(n / 128 - 1, k - 1);
      } else {
        assert FirstOf(1) == 128 + 128 * FirstOf(0);
      }
    }
  }

  lemma {:induction false} SameLength(n: nat)
    ensures |Flagged(n)| == |Prefix(n)|
  {
  }

  function LastOf(s: seq<byte>, k: nat): seq<byte>
    requires k <= |s|
  {
    s[|s| - k..]
  }

  /** What `encodeToVec` appends: one byte for a negative number. Its array has 19 elements: a longer encoding
      writes beside the array, and a negative start makes `slice` count from the end. */
  function PushedPrefix(n: int): (s: seq<byte>)
    ensures s != [] && s[|s| - 1] < 128
  {
    if n < 0 then [n % 128] else
      var full := Prefix(n);
      if |full| <= 19 then full else LastOf(full, if |full| < 38 then |full| - 19 else 19)
  }

  /** `encodeToVec` */
  method EncodeToVec(n0: int, payload0: seq<byte>) returns (payload: seq<byte>)
    ensures payload == payload0 + PushedPrefix(n0)
  {
    hide Prefix, Head, PushedPrefix, LastOf;
    var out := new byte[19](_ => 0);
    var i: int, n := 18, n0;
    out[i] := n % 128;
    if n < 0 {
      assert out[18..] == PushedPrefix(n0) by { PushedOne(n0); }
      return payload0 + out[i..];
    }
    HeadEnd(n0);
    ghost var tail: seq<byte> := [n0 % 128];
    assert out[18..] == tail;
    while n > 127
      invariant i <= 18 && n >= 0 && Prefix(n0) == Head(n) + tail && Written(out[..], tail, i)
      decreases n
    {
      HeadStep(n);
      n := n / 128 - 1;
      i := i - 1;
      var b := n % 128 + 128;
      AppendStep(Head(n), b, tail);
      WrittenMore(out[..], tail, i, b);
      if i >= 0 {
        Put(out, i, b);
      }
      tail := [b] + tail;
    }
    HeadEnd(n);
    assert [] + tail == tail;
    WrittenAll(out[..], tail, i, n0);
    if i >= 0 {
      return payload0 + out[i..];
    } else if i >= -19 {
      return payload0 + out[19 + i..];
    } else {
      return payload0 + out[..];
    }
  }

  /** The array holds the end of `tail` from position `i` on; what lies before its start was lost. */
  predicate Written(out: seq<byte>, tail: seq<byte>, i: int) {
    |out| == 19 && |tail| == 19 - i && (if i >= 0 then out[i..] == tail else i < 0 && out == LastOf(tail, 19))
  }

  lemma {:induction false} WrittenMore(out: seq<byte>, tail: seq<byte>, i: int, b: byte)
    requires i < 18 && Written(out, tail, i + 1)
    ensures Written(if i >= 0 then out[i := b] else out, [b] + tail, i)
  {
    if i >= 0 {
      assert out[i := b][i..] == [b] + tail;
    } else {
      assert LastOf([b] + tail, 19) == out;
    }
  }

  lemma {:induction false} WrittenAll(out: seq<byte>, tail: seq<byte>, i: int, n0: int)
    requires i <= 18 && Written(out, tail, i) && n0 >= 0 && Prefix(n0) == tail
    ensures PushedPrefix(n0) == if i >= 0 then out[i..] else if i >= -19 then out[19 + i..] else out
  {
    hide Prefix;
    if -19 <= i < 0 {
      assert out[19 + i..] == LastOf(tail, -i);
    }
  }

  lemma PushedOne(n: int)
    requires n < 0
    ensures PushedPrefix(n) == [n % 128]
  {
  }

  /** `out[i] = b` */
  method Put(out: array<byte>, i: nat, b: byte)
    requires i < out.Length
    modifies out
    ensures out[..] == old(out[..])[i := b]
  {
    out[i] := b;
  }

  lemma HeadEnd(n: nat)
    ensures Prefix(n) == Head(n) + [n % 128] && (n < 128 ==> Head(n) == [])
  {
  }

  lemma {:induction false} HeadStep(n: nat)
    requires n >= 128
    ensures var m := n / 128 - 1; Head(n) == Head(m) + [m % 128 + 128]
  {
  }

  /** What `decode` delivers for the bytes before the first one below 128, given what was read before. */
  function DecodeFrom(acc: nat, s: seq<byte>): (r: Option<(nat, nat)>)
    ensures r.Some? ==> 0 < r.value.1 <= |s|
    decreases |s|
  {
    if s == [] then None
    else if s[0] < 128 then Some((acc + s[0], 1))
    else
      match DecodeFrom((acc + s[0] - 127) * 128, s[1..])
      case None => None
      case Some(r) => Some((r.0, r.1 + 1))
  }

  /** The same, after `k` more bytes. */
  function After(r: Option<(nat, nat)>, k: nat): Option<(nat, nat)> {
    if r.None? then None else Some((r.value.0, r.value.1 + k))
  }

  /** `decode`; `None` stands for its exceptions. */
  method Decode(buffer: seq<byte>) returns (r: Option<(nat, nat)>)
    ensures r == DecodeFrom(0, buffer)
  {
    var n: nat, i: nat := 0, 0;
    if buffer == [] {
      return None;
    }
    assert buffer[0..] == buffer;
    while true
      invariant i < |buffer|
      invariant DecodeFrom(0, buffer) == After(DecodeFrom(n, buffer[i..]), i)
      decreases |buffer| - i
    {
      var b: nat := buffer[i];
      assert buffer[i..][1..] == buffer[i + 1..];
      if b < 128 {
        return Some((n + b, i + 1));
      }
      n := n + b - 127;
      n := n * 128;
      i := i + 1;
      if i >= |buffer| {
        return None;
      }
    }
  }

  lemma {:induction false} DecodeOne(acc: nat, b: byte, rest: seq<byte>)
    requires b >= 128
    ensures DecodeFrom(acc, [b] + rest) == After(DecodeFrom((acc + b - 127) * 128, rest), 1)
  {
    assert ([b] + rest)[1..] == rest;
  }

  lemma {:induction false} DecodeFlagged(n: nat, rest: seq<byte>)
    ensures DecodeFrom(0, Flagged(n) + rest) == After(DecodeFrom((n + 1) * 128, rest), |Flagged(n)|)
    decreases n
  {
    hide DecodeFrom;
    var last: byte := n % 128 + 128;
    if n < 128 {
      assert Flagged(n) == [last];
      DecodeOne(0, last, rest);
    } else {
      var m := n / 128 - 1;
      ConcatAssoc(Flagged(m), [last], rest);
      DecodeFlagged(m, [last] + rest);
      DecodeOne((m + 1) * 128, last, rest);
      assert (m + 1) * 128 + last - 127 == n + 1;
    }
  }

  /** Reading back what was written, whatever follows. */
  lemma {:induction false} DecodePrefix(n: nat, rest: seq<byte>)
    ensures DecodeFrom(0, Prefix(n) + rest) == Some((n, |Prefix(n)|))
  {
    var last: byte := n % 128;
    if n < 128 {
      assert Prefix(n) + rest == [last] + rest;
    } else {
      var m := n / 128 - 1;
      ConcatAssoc(Flagged(m), [last], rest);
      DecodeFlagged(m, [last] + rest);
      assert ([last] + rest)[0] == last;
    }
  }

  /** Every byte string that decodes is the encoding of what it decodes to: no number has two encodings. */
  lemma {:induction false} PrefixUnique(s: seq<byte>)
    requires DecodeFrom(0, s).Some?
    ensures var r := DecodeFrom(0, s).value; r.1 <= |s| && Prefix(r.0) == s[..r.1]
  {
    DecodedPrefix(None, 0, s);
    var r := DecodeFrom(0, s).value;
    assert [] + s[..r.1] == s[..r.1];
  }

  /** The bytes read before: none, or those of `m`. */
  function Before(m: Option<nat>): seq<byte> {
    if m.None? then [] else Flagged(m.value)
  }

  lemma {:induction false} DecodedPrefix(m: Option<nat>, acc: nat, s: seq<byte>)
    requires acc == if m.None? then 0 else (m.value + 1) * 128
    requires DecodeFrom(acc, s).Some?
    ensures var r := DecodeFrom(acc, s).value; 0 < r.1 <= |s| && Prefix(r.0) == Before(m) + s[..r.1]
    decreases |s|
  {
    hide Prefix, Flagged;
    var r := DecodeFrom(acc, s).value;
    var b: nat := s[0];
    if b < 128 {
      PrefixEnd(m, acc, s[0]);
      assert s[..1] == [s[0]];
    } else {
      var m' := acc + b - 128;
      FlaggedNext(m, acc, b);
      DecodedPrefix(Some(m'), (m' + 1) * 128, s[1..]);
      var r' := DecodeFrom((m' + 1) * 128, s[1..]).value;
      assert r == (r'.0, r'.1 + 1);
      assert s[..r.1] == [s[0]] + s[1..][..r'.1];
      AppendStep(Before(m), s[0], s[1..][..r'.1]);
    }
  }

  lemma {:induction false} PrefixEnd(m: Option<nat>, acc: nat, b: byte)
    requires acc == (if m.None? then 0 else (m.value + 1) * 128) && b < 128
    ensures Prefix(acc + b) == Before(m) + [b]
  {
    hide Flagged;
    if m.Some? {
      Quotient(m.value + 1, b);
    }
  }

  lemma Quotient(q: nat, b: nat)
    requires b < 128
    ensures (q * 128 + b) / 128 == q && (q * 128 + b) % 128 == b
  {
  }

  lemma {:induction false} FlaggedNext(m: Option<nat>, acc: nat, b: byte)
    requires acc == (if m.None? then 0 else (m.value + 1) * 128) && b >= 128
    ensures Flagged(acc + b - 128) == Before(m) + [b]
  {
    if m.Some? {
      Quotient(m.value + 1, b - 128);
    }
  }

  /** The numbers that `encodeToVec` can write. */
  predicate Writable(n: int) {
    0 <= n < FirstOf(19)
  }

  /** What `encodeToVec` appended reads back, whatever follows, exactly below 128 + 128^2 + ... + 128^19. */
  lemma {:induction false} PrefixRoundTrip(n: int, rest: seq<byte>)
    ensures Writable(n) ==> DecodeFrom(0, PushedPrefix(n) + rest) == Some((n, |PushedPrefix(n)|))
    ensures !Writable(n) ==> var r := DecodeFrom(0, PushedPrefix(n) + rest); r.None? || r.value.0 != n
  {
    hide Prefix, FirstOf;
    if n >= 0 {
      PrefixLength(n, 19);
    }
    var s := PushedPrefix(n) + rest;
    if Writable(n) {
      DecodePrefix(n, rest);
    } else if n >= 0 && DecodeFrom(0, s).Some? && DecodeFrom(0, s).value.0 == n {
      PrefixUnique(s);
      StopsBy(n, s, |PushedPrefix(n)| - 1);
    }
  }

  lemma {:induction false} StopsBy(n: nat, s: seq<byte>, k: nat)
    requires Prefix(n) <= s && k < |s|
    ensures s[k] < 128 ==> |Prefix(n)| <= k + 1
  {
    if k < |Prefix(n)| - 1 {
      assert Prefix(n)[k] >= 128;
    }
  }
}
