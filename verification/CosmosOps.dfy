/**
 * The pending operations of the protobuf writer (packages/coin-cosmos/src/binary.ts): what an
 * operation writes when `finish` reaches it, and how operations are chained.
 */
module CosmosOps {
  import opened Wrappers
  import opened Numerals
  import opened JsInt
  import opened JsBytes
  import Leb128
  import opened CosmosVarint
  import opened CosmosUtf8

  /** The function and value of an operation. `Noop` is the head of a list; the halves of `U64` are
      in the operation's mutable pair. */
  datatype Payload =
    | Noop
    | U32(value: nat)
    | U64
    | Fixed(value32: int)
    | OneByte(v: int)
    | Blob(b: seq<byte>)
    | Text(s: seq<unit16>)

  /** `writeFixed32` */
  function FixedBytes(val: int): (b: seq<byte>)
    ensures |b| == 4
  {
    var u := ToUint32(val);
    [u % 0x100, u / 0x100 % 0x100, u / 0x1_0000 % 0x100, u / 0x100_0000]
  }

  /** What a payload writes, when a 64-bit one holds `lo` and `hi`. */
  function Emission(p: Payload, lo: half, hi: half): seq<byte> {
    match p
    case Noop => []
    case U32(v) => Leb128.Encode(v)
    case U64 => Emitted(lo, hi)
    case Fixed(v) => FixedBytes(v)
    case OneByte(v) => [v % 256]
    case Blob(b) => b
    case Text(s) => Utf8(s)
  }

  /** `b` in a zeroed stretch of `len` bytes. */
  function Padded(b: seq<byte>, len: nat): (r: seq<byte>)
    requires |b| <= len
    ensures |r| == len
  {
    b + Repeat<byte>(0, len - |b|)
  }

  class Op {
    const payload: Payload
    const len: nat
    const bits: Bits
    var next: Op?
    /** What the operation writes the first time, padded to `len`. */
    ghost const plan: seq<byte>

    constructor (payload: Payload, len: nat, lo: half, hi: half)
      requires |Emission(payload, lo, hi)| <= len && (payload.U32? ==> payload.value < 0x1_0000_0000)
      ensures this.payload == payload && this.len == len && next == null && fresh(bits)
      ensures bits.lo == lo && bits.hi == hi
      ensures plan == Padded(Emission(payload, lo, hi), len)
      ensures Valid() && Now() == plan
    {
      this.payload, this.len := payload, len;
      bits := new Bits(lo, hi);
      next := null;
      plan := Padded(Emission(payload, lo, hi), len);
    }

    ghost predicate Valid()
      reads bits
    {
      && |Emission(payload, bits.lo, bits.hi)| <= len == |plan|
      && (payload.U32? ==> payload.value < 0x1_0000_0000)
    }

    /** What `proceed` would write now. */
    ghost function Now(): (b: seq<byte>)
      requires Valid()
      reads bits
      ensures |b| == len
    {
      Padded(Emission(payload, bits.lo, bits.hi), len)
    }

    method Proceed(buf: array<byte>, pos: nat)
      requires Valid() && pos + len <= buf.Length
      requires forall k :: pos <= k < pos + len ==> buf[k] == 0
      modifies bits, buf
      ensures Valid() && buf[..] == Placed(old(buf[..]), pos, old(Now()))
      ensures payload.U64? ==> bits.lo == old(Remnant(bits.lo, bits.hi)) && bits.hi == 0
      ensures !payload.U64? ==> bits.lo == old(bits.lo) && bits.hi == old(bits.hi)
    {
      ghost var was := buf[..];
      ghost var b := Emission(payload, bits.lo, bits.hi);
      match payload {
        case Noop =>
          PlacedNone(was, pos);
        case U32(v) =>
          WriteVarint32(v, buf, pos);
        case U64 =>
          WriteVarint64(bits, buf, pos);
        case Fixed(v) =>
          WriteFixed32(v, buf, pos);
        case OneByte(v) =>
          LowByte(v);
          buf[pos] := And(v, 255);
          PlacedOne(was, pos, v % 256);
        case Blob(b) =>
          WriteAll(buf, pos, b);
        case Text(s) =>
          var _ := Utf8Write(s, buf, pos);
      }
      ZerosAfter(was, pos, b, len);
      RemnantShort(old(bits.lo), old(bits.hi));
    }
  }

  /** What a consumed pair writes again is a single byte. */
  lemma {:induction false} RemnantShort(lo: half, hi: half)
    ensures Emitted(Remnant(lo, hi), 0) == [Remnant(lo, hi) % 256] && |Emitted(lo, hi)| >= 1
  {
    hide Word;
    var r := Remnant(lo, hi);
    if r >= 0 {
      UnsignedLow(r);
    }
  }

  method WriteFixed32(val: int, buf: array<byte>, pos: nat)
    requires pos + 4 <= buf.Length
    modifies buf
    ensures buf[..] == Placed(old(buf[..]), pos, FixedBytes(val))
  {
    FixedParts(val);
    ghost var was := buf[..];
    buf[pos] := And(val, 255);
    buf[pos + 1] := And(ShrU(val, 8), 255);
    buf[pos + 2] := And(ShrU(val, 16), 255);
    buf[pos + 3] := ShrU(val, 24);
    var b := FixedBytes(val);
    PlacedAt(was, pos, b, buf[..]);
  }

  lemma {:induction false} FixedParts(val: int)
    ensures var u := ToUint32(val);
      && And(val, 255) == u % 0x100 && And(ShrU(val, 8), 255) == u / 0x100 % 0x100
      && And(ShrU(val, 16), 255) == u / 0x1_0000 % 0x100 && ShrU(val, 24) == u / 0x100_0000 < 0x100
  {
    hide And;
    var u := ToUint32(val);
    Two8();
    MaskIs(val, u, 8, 0x100);
    LowByte(ShrU(val, 8));
    Two16();
    LowByte(ShrU(val, 16));
    Two24();
  }

  /** Writing over zeros leaves the padding in place. */
  lemma {:induction false} ZerosAfter(was: seq<byte>, pos: nat, b: seq<byte>, len: nat)
    requires |b| <= len && pos + len <= |was| && forall k :: pos <= k < pos + len ==> was[k] == 0
    ensures Placed(was, pos, b) == Placed(was, pos, Padded(b, len))
  {
    var now := Placed(was, pos, b);
    forall k | 0 <= k < len
      ensures now[pos + k] == Padded(b, len)[k]
    {
    }
    PlacedAt(was, pos, Padded(b, len), now);
  }
}
