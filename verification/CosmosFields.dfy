/**
 * Skipping agrees with reading: whatever field `skipType` passes over, later fields stay where a
 * typed read would have left them (packages/coin-cosmos/src/binary.ts).
 */
module CosmosFields {
  import opened Wrappers
  import opened Numerals
  import Leb128
  import opened CosmosVarint
  import opened CosmosReader

  /** What a typed read of the given wire type leaves, or its error. The unchecked fixed-width reads
      count as well-formed only with all their bytes present. */
  function ReadField(s: seq<byte>, wireType: nat): Result<seq<byte>, ReadError>
    requires wireType == 0 || wireType == 1 || wireType == 2 || wireType == 5
  {
    if wireType == 0 then
      var g := TakeGroup(s);
      if g.Failure? then Failure(g.error) else Success(g.value.rest)
    else if wireType == 2 then
      var g := TakeBytes(s);
      if g.Failure? then Failure(g.error) else Success(g.value.rest)
    else
      var n := if wireType == 1 then 8 else 4;
      if |s| < n then Failure(PrematureEof) else Success(Beyond(s, n))
  }

  /** On every well-formed field, skipping ends exactly where the typed read ends; and skipping succeeds
      on nothing else except varints of more than ten bytes, which no typed read accepts. */
  lemma {:induction false} SkipAgrees(s: seq<byte>, wireType: nat)
    requires wireType == 0 || wireType == 1 || wireType == 2 || wireType == 5
    ensures ReadField(s, wireType).Success? ==> SkipField(s, wireType) == ReadField(s, wireType)
    ensures SkipField(s, wireType).Success? && ReadField(s, wireType).Failure? <==>
            wireType == 0 && Leb128.GroupLength(s).Some? && Leb128.GroupLength(s).value > 10
  {
  }

  // ---- fields of any depth

  /** A field as the format writes it. */
  datatype Field =
    | Varint(n: nat)
    | Fixed64(b: seq<byte>)
    | Bytes(b: seq<byte>)
    | Group(items: Items)
    | Fixed32(b: seq<byte>)

  /** The fields of a group, with their numbers. */
  datatype Items = End | More(fieldNo: nat, field: Field, rest: Items)

  function WireOf(f: Field): nat {
    match f
    case Varint(_) => 0
    case Fixed64(_) => 1
    case Bytes(_) => 2
    case Group(_) => 3
    case Fixed32(_) => 5
  }

  predicate WellFormed(f: Field) {
    match f
    case Varint(n) => n < 0x1_0000_0000_0000_0000
    case Fixed64(b) => |b| == 8
    case Bytes(b) => |b| < 0x1_0000_0000
    case Group(items) => WellFormedItems(items)
    case Fixed32(b) => |b| == 4
  }

  predicate WellFormedItems(items: Items) {
    match items
    case End => true
    case More(k, f, more) => 0 < k < 0x2000_0000 && WellFormed(f) && WellFormedItems(more)
  }

  /** The bytes after the tag; a group is closed by an end tag with field number `no`. */
  function Encoded(f: Field, no: nat): seq<byte>
    decreases f
  {
    match f
    case Varint(n) => Leb128.Encode(n)
    case Fixed64(b) => b
    case Bytes(b) => Leb128.Encode(|b|) + b
    case Group(items) => EncodedItems(items, no)
    case Fixed32(b) => b
  }

  function EncodedItems(items: Items, no: nat): seq<byte>
    decreases items
  {
    match items
    case End => Leb128.Encode(8 * no + 4)
    case More(k, f, more) => Leb128.Encode(8 * k + WireOf(f)) + (Encoded(f, k) + EncodedItems(more, no))
  }

  lemma {:induction false} TakeUint32Of(n: nat, rest: seq<byte>)
    requires n < 0x1_0000_0000
    ensures TakeUint32(Leb128.Encode(n) + rest) == Success(Read(n, rest))
    ensures TakeGroup(Leb128.Encode(n) + rest) == Success(Read(n, rest))
  {
    TakeGroupOf(n, rest);
  }

  lemma {:induction false} TakeGroupOf(n: nat, rest: seq<byte>)
    requires n < 0x1_0000_0000_0000_0000
    ensures TakeGroup(Leb128.Encode(n) + rest) == Success(Read(n, rest))
  {
    var e := Leb128.Encode(n);
    Leb128.DecodeEncode(n, rest);
    GroupsIs(n);
    assert (e + rest)[..|e|] == e && (e + rest)[|e|..] == rest;
  }

  /** Skipping passes over exactly one field, groups inside groups included. */
  lemma {:induction false} SkipExact(f: Field, no: nat, rest: seq<byte>)
    requires WellFormed(f) && no < 0x2000_0000
    ensures SkipField(Encoded(f, no) + rest, WireOf(f)) == Success(rest)
    decreases f
  {
    match f
    case Varint(n) =>
      TakeGroupOf(n, rest);
    case Fixed64(b) =>
      assert (b + rest)[8..] == rest;
    case Bytes(b) =>
      ConcatAssoc(Leb128.Encode(|b|), b, rest);
      TakeUint32Of(|b|, b + rest);
      assert (b + rest)[|b|..] == rest;
    case Group(items) =>
      SkipItems(items, no, rest);
    case Fixed32(b) =>
      assert (b + rest)[4..] == rest;
  }

  lemma {:induction false} SkipItems(items: Items, no: nat, rest: seq<byte>)
    requires WellFormedItems(items) && no < 0x2000_0000
    ensures SkipToEnd(EncodedItems(items, no) + rest) == Success(rest)
    decreases items
  {
    hide TakeUint32, TakeGroup, Leb128.Encode, SkipField, SkipToEnd, Encoded, WireOf;
    match items
    case End =>
      TakeUint32Of(8 * no + 4, rest);
      ToEndStop(EncodedItems(items, no) + rest, 8 * no + 4, rest);
    case More(k, f, others) =>
      var tag := 8 * k + WireOf(f);
      WireOfTag(k, f);
      var body, more := Encoded(f, k), EncodedItems(others, no);
      ConcatAssoc(Leb128.Encode(tag), body + more, rest);
      ConcatAssoc(body, more, rest);
      TakeUint32Of(tag, body + (more + rest));
      SkipExact(f, k, more + rest);
      SkipItems(others, no, rest);
      ToEndStep(EncodedItems(items, no) + rest, tag, body + (more + rest), more + rest);
  }

  lemma WireOfTag(k: nat, f: Field)
    ensures (8 * k + WireOf(f)) % 8 == WireOf(f) < 8 && WireOf(f) != 4
  {
  }

  lemma {:induction false} ToEndStop(s: seq<byte>, tag: nat, rest: seq<byte>)
    requires TakeUint32(s) == Success(Read(tag, rest)) && tag % 8 == 4
    ensures SkipToEnd(s) == Success(rest)
  {
  }

  lemma {:induction false} ToEndStep(s: seq<byte>, tag: nat, s1: seq<byte>, s2: seq<byte>)
    requires TakeUint32(s) == Success(Read(tag, s1)) && tag % 8 != 4
    requires SkipField(s1, tag % 8) == Success(s2)
    ensures SkipToEnd(s) == SkipToEnd(s2)
  {
    hide TakeUint32, SkipField;
  }
}
