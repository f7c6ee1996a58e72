/**
 * Typed reads of what typed writes put down (packages/coin-cosmos/src/binary.ts): values come back
 * and reading stops exactly at the end of the field, whatever follows.
 */
module CosmosRoundTrip {
  import opened Wrappers
  import opened Numerals
  import opened JsInt
  import opened JsBytes
  import Leb128
  import ZigZag
  import opened CosmosVarint
  import opened CosmosDecimal
  import opened CosmosUtf8
  import opened CosmosOps
  import opened CosmosWriter
  import opened CosmosReader
  import opened CosmosFields
  import opened CosmosMessages

  /** Tags. */
  lemma {:induction false} TagRoundTrip(no: nat, t: nat, rest: seq<byte>)
    requires 0 < no < 0x2000_0000 && t <= 5
    ensures TakeTag(Layout(WTag(no, t)) + rest) == Success(Read((no, t), rest))
  {
    hide TakeUint32, Leb128.Encode;
    TakeUint32Of(8 * no + t, rest);
    FloorUnique(8 * no + t, 8, no, t);
  }

  /** `int32`, negative numbers included: their ten bytes are cut to 32 bits. */
  lemma {:induction false} Int32RoundTrip(v: int, rest: seq<byte>)
    requires -0x8000_0000 <= v < 0x8000_0000
    ensures MapRead(TakeUint32(Layout(WInt32(v)) + rest), (n: nat) => ToInt32(n) as int) == Success(Read(v, rest))
  {
    hide TakeGroup, Leb128.Encode;
    var w := v % 0x1_0000_0000_0000_0000;
    TakeGroupOf(w, rest);
    var q := v / 0x1_0000_0000_0000_0000;
    FloorUnique(w, 0x1_0000_0000, v / 0x1_0000_0000 - 0x1_0000_0000 * q, v % 0x1_0000_0000);
    SignedOf(v, w % 0x1_0000_0000);
  }

  lemma {:induction false} Sint32RoundTrip(v: int, rest: seq<byte>)
    requires -0x8000_0000 <= v < 0x8000_0000
    ensures MapRead(TakeUint32(Layout(WSint32(v)) + rest), (n: nat) => ZigZag.Decode(n)) == Success(Read(v, rest))
  {
    hide TakeUint32, Leb128.Encode;
    TakeUint32Of(ZigZag.Encode(v), rest);
    ZigZag.DecodeEncode(v, 0);
  }

  /** `int64` of a 64-bit number comes back, and reading ends where the field ends, exactly when the number is
      not from 2^31 to 2^32 - 1. */
  lemma {:induction false} Int64RoundTrip(n: int, rest: seq<byte>)
    requires -0x8000_0000_0000_0000 <= n < 0x8000_0000_0000_0000
    ensures MapRead(TakeWord(Int64Bytes(n) + rest), (w: nat) => Signed64(w)) == Success(Read(n, rest))
            <==> !(0x8000_0000 <= n < 0x1_0000_0000)
  {
    hide TakeGroup, Leb128.Encode, Int64Bytes;
    var w := n % 0x1_0000_0000_0000_0000;
    SignedWordOf(n, w);
    Int64Exact(n);
    if 0x8000_0000 <= n < 0x1_0000_0000 {
      EarlyRead(n, rest);
    } else {
      TakeGroupOf(w, rest);
      FloorUnique(w, 0x1_0000_0000_0000_0000, 0, w);
    }
  }

  lemma {:induction false} SignedWordOf(n: int, w: nat)
    requires -0x8000_0000_0000_0000 <= n < 0x8000_0000_0000_0000 && w == n % 0x1_0000_0000_0000_0000
    ensures Signed64(w) == n && (0x8000_0000 <= n < 0x1_0000_0000 <==> 0x8000_0000 <= w < 0x1_0000_0000)
  {
    if n < 0 {
      FloorUnique(n, 0x1_0000_0000_0000_0000, -1, n + 0x1_0000_0000_0000_0000);
    } else {
      FloorUnique(n, 0x1_0000_0000_0000_0000, 0, n);
    }
  }

  /** On the exceptional numbers the field is one byte and four zeros, so a read ends inside it. */
  lemma {:induction false} EarlyRead(n: int, rest: seq<byte>)
    requires 0x8000_0000 <= n < 0x1_0000_0000
    ensures Int64Bytes(n) == [n % 256, 0, 0, 0, 0]
    ensures TakeGroup(Int64Bytes(n) + rest).Success? ==> |TakeGroup(Int64Bytes(n) + rest).value.rest| > |rest|
  {
    hide Leb128.Encode, Word;
    var b := Halves(n);
    FloorUnique(n, 0x1_0000_0000, 0, n);
    assert b == (n - 0x1_0000_0000, 0);
    LengthExact(b.0, b.1);
    WordIs(b.0, b.1, n, 0);
    GroupsIs(n);
    assert (n - 0x1_0000_0000) % 256 == n % 256 by { FloorUnique(n - 0x1_0000_0000, 256, n / 256 - 0x100_0000, n % 256); }
    var e: seq<byte> := [n % 256, 0, 0, 0, 0];
    assert Int64Bytes(n) == e;
    EarlyGroup(e, rest);
  }

  lemma {:induction false} EarlyGroup(e: seq<byte>, rest: seq<byte>)
    requires |e| == 5 && e[1..] == [0, 0, 0, 0]
    ensures TakeGroup(e + rest).Success? ==> |TakeGroup(e + rest).value.rest| > |rest|
  {
    var s := e + rest;
    if s[0] < 128 {
      Leb128.GroupLengthIs(s, 1);
    } else {
      Leb128.GroupLengthIs(s, 2);
    }
  }

  /** `sint64` comes back for every 64-bit number. */
  lemma {:induction false} Sint64RoundTrip(n: int, rest: seq<byte>)
    requires -0x8000_0000_0000_0000 <= n < 0x8000_0000_0000_0000
    ensures var bytes := Leb128.Encode(ZigZag.Encode(Signed64(n % 0x1_0000_0000_0000_0000)));
      MapRead(TakeWord(bytes + rest), (w: nat) => ZigZag.Decode(w)) == Success(Read(n, rest))
  {
    hide TakeGroup, Leb128.Encode;
    SignedWordOf(n, n % 0x1_0000_0000_0000_0000);
    var z := ZigZag.Encode(n);
    TakeGroupOf(z, rest);
    FloorUnique(z, 0x1_0000_0000_0000_0000, 0, z);
    ZigZag.DecodeEncode(n, 0);
  }

  /** A truth value is the varint of 1 or 0, and reads back. */
  lemma {:induction false} BoolRoundTrip(b: bool, rest: seq<byte>)
    ensures Layout(WBool(b)) == Leb128.Encode(if b then 1 else 0)
    ensures MapRead(TakeWord(Layout(WBool(b)) + rest), (w: nat) => w != 0) == Success(Read(b, rest))
  {
    hide TakeGroup;
    var n := if b then 1 else 0;
    TakeGroupOf(n, rest);
  }

  /** Fixed-width fields. */
  lemma {:induction false} Fixed32RoundTrip(v: int, rest: seq<byte>)
    ensures LoadUint32(FixedBytes(v) + rest) == Some(ToUint32(v))
    ensures LoadWord(FixedBytes(v) + rest) == ToUint32(v) && Beyond(FixedBytes(v) + rest, 4) == rest
  {
    var u := ToUint32(v);
    var b := FixedBytes(v);
    var s := b + rest;
    assert s[0] == b[0] && s[1] == b[1] && s[2] == b[2] && s[3] == b[3] && s[4..] == rest;
    FourBytesOf(u, u / 0x100, u / 0x1_0000, u / 0x100_0000);
  }

  lemma {:induction false} FourBytesOf(u: nat, x: nat, y: nat, z: nat)
    requires u < 0x1_0000_0000 && x == u / 0x100 && y == u / 0x1_0000 && z == u / 0x100_0000
    ensures u % 0x100 + 0x100 * (x % 0x100) + 0x1_0000 * (y % 0x100) + 0x100_0000 * z == u
  {
    assert u == 0x100 * x + u % 0x100;
    FloorUnique(u, 0x1_0000, x / 0x100, u % 0x100 + 0x100 * (x % 0x100));
    assert x == 0x100 * y + x % 0x100;
    FloorUnique(u, 0x100_0000, y / 0x100, u % 0x1_0000 + 0x1_0000 * (y % 0x100));
    assert y == 0x100 * z + y % 0x100;
  }

  lemma {:induction false} Fixed64RoundTrip(n: int, rest: seq<byte>)
    ensures var s := FixedBytes(Halves(n).0) + FixedBytes(Halves(n).1) + rest;
      LoadWord64(s) == n % 0x1_0000_0000_0000_0000 && Beyond(s, 8) == rest
  {
    hide FixedBytes, Word, Halves, LoadWord, LoadUint32;
    var lo, hi := Halves(n).0, Halves(n).1;
    ConcatAssoc(FixedBytes(lo), FixedBytes(hi), rest);
    Fixed32RoundTrip(lo, FixedBytes(hi) + rest);
    Fixed32RoundTrip(hi, rest);
    WordOfHalves(n);
    WordIs(lo, hi, ToUint32(lo), ToUint32(hi));
    assert (FixedBytes(lo) + FixedBytes(hi) + rest)[8..] == rest;
  }

  /** Byte strings, and nested blocks read as byte strings. */
  lemma {:induction false} BytesRoundTrip(b: seq<byte>, rest: seq<byte>)
    requires |b| < 0x1_0000_0000
    ensures TakeBytes(Leb128.Encode(|b|) + b + rest) == Success(Read(b, rest))
  {
    hide TakeUint32, Leb128.Encode;
    ConcatAssoc(Leb128.Encode(|b|), b, rest);
    TakeUint32Of(|b|, b + rest);
    assert (b + rest)[..|b|] == b && (b + rest)[|b|..] == rest;
  }

  /** A nested block is found again as the bytes of its inner calls. */
  lemma {:induction false} BlockRoundTrip(inner: Calls, rest: seq<byte>)
    requires AllInRange(inner) && |LayoutAll(inner)| < 0x1_0000_0000
    ensures TakeBytes(Layout(Nest(inner)) + rest) == Success(Read(LayoutAll(inner), rest))
  {
    hide LayoutAll, TakeBytes, Leb128.Encode;
    SelfWord(|LayoutAll(inner)|);
    BytesRoundTrip(LayoutAll(inner), rest);
  }

  /** Strings come back exactly when the reader's reused array stays clean. */
  lemma {:induction false} StringRoundTrip(s: seq<unit16>, rest: seq<byte>)
    requires |Utf8(s)| < 0x1_0000_0000
    ensures MapRead(TakeBytes(Layout(WString(s)) + rest), (b: seq<byte>) => Utf8Text(b)) == Success(Read(s, rest))
            <==> Clean(Characters(s), 0, 0)
  {
    hide Utf8, TakeBytes, Leb128.Encode, ReadBack, CosmosUtf8.Groups;
    BytesRoundTrip(Utf8(s), rest);
    Utf8RoundTrip(s);
    assert Utf8Text(Utf8(s)) == ReadEncoded(s);
  }
}
