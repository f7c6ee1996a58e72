/**
 * What the reading methods of `SerialBuffer` (packages/coin-eos/src/serialize.ts) take from
 * the unread bytes, and what the primitive types of an ABI write and read.
 */
module EosSerial {
  import opened Wrappers
  import opened Numerals
  import opened JsInt
  import opened Decimal
  import Leb128
  import ZigZag
  import opened EosBignum
  import opened JsVarint
  import EosName
  import EosHex

  datatype SerialError =
    | PastEnd
    | OutOfRangeNumber
    | WrongType
    | BadNumber(why: NumericError)
    | BadName
    | BadHex
    | WrongSize
    | TooLong
    | MissingField(name: string)
    | UnexpectedField(name: string)
    | NoSuchOption
    | NotAnObject

  /** JavaScript numbers that are exact integers. */
  type SafeInt = n: int | -0x20_0000_0000_0000 < n < 0x20_0000_0000_0000

  /** The JavaScript values that the modelled ABI types take and return. */
  datatype Value =
    | Bool(b: bool)
    | Num(n: SafeInt)
    | Str(s: string)
    | Blob(bytes: seq<byte>)
    | Null
    | List(items: seq<Value>)
    | Obj(fields: map<string, Value>)

  /** The primitive types: fixed-width and variable-width integers, decimal-string integers, names,
      byte strings and fixed-size hexadecimal blobs. */
  datatype Prim =
    | BoolT
    | FixedInt(size: nat, signed: bool)
    | VarUint32
    | VarInt32
    | BigInt(size: nat, signed: bool)
    | Name
    | Bytes(asBlob: bool)
    | Checksum(size: nat)

  /** The instances that the source registers. */
  predicate IsPrim(p: Prim) {
    match p
    case FixedInt(size, _) => size == 1 || size == 2 || size == 4
    case BigInt(size, _) => size == 8 || size == 16
    case Checksum(size) => size == 16 || size == 20 || size == 32 || size == 64
    case _ => true
  }

  // ---- readers

  function ReadByte(s: seq<byte>): Result<Read<byte>, SerialError> {
    if s == [] then Failure(PastEnd) else Success(Read(s[0], s[1..]))
  }

  function ReadBytes(s: seq<byte>, n: nat): Result<Read<seq<byte>>, SerialError> {
    if n > |s| then Failure(PastEnd) else Success(Read(s[..n], s[n..]))
  }

  function ReadVaruint32(s: seq<byte>): (r: Result<Read<nat>, SerialError>)
    ensures r.Success? ==> r.value.value < 0x1_0000_0000 && |r.value.rest| < |s|
  {
    match Leb128.GroupLength(s)
    case None => Failure(PastEnd)
    case Some(k) => Success(Read(ToUint32(Accumulate(s[..k])), s[k..]))
  }

  lemma {:induction false} ReadVaruint32Of(n: nat, rest: seq<byte>)
    requires n < 0x1_0000_0000
    ensures ReadVaruint32(Leb128.Encode(n) + rest) == Success(Read(n, rest))
  {
    var e := Leb128.Encode(n);
    Leb128.DecodeEncode(n, rest);
    AccumulateEncode(n);
    assert (e + rest)[..|e|] == e && (e + rest)[|e|..] == rest;
  }

  lemma {:induction false} ReadBytesOf(b: seq<byte>, rest: seq<byte>)
    ensures ReadBytes(b + rest, |b|) == Success(Read(b, rest))
  {
    assert (b + rest)[..|b|] == b && (b + rest)[|b|..] == rest;
  }

  // ---- fixed-width integers

  predicate FitsFixed(n: int, size: nat, signed: bool) {
    if signed then -(Pow(256, size) as int) <= 2 * n < Pow(256, size) else 0 <= n < Pow(256, size)
  }

  /** The stored form of a fixed-width integer. */
  function StoredFixed(n: int, size: nat): (b: seq<byte>)
    ensures |b| == size
  {
    LittleEndian(n % Pow(256, size), size)
  }

  function LoadedFixed(b: seq<byte>, signed: bool): int {
    if signed then Signed(b) else Unsigned(b)
  }

  lemma {:induction false} LoadStored(n: int, size: nat, signed: bool)
    requires size >= 1 && FitsFixed(n, size, signed)
    ensures LoadedFixed(StoredFixed(n, size), signed) == n
  {
    var p := Pow(256, size);
    var v: nat := if n < 0 then n + p else n;
    assert n % p == v by {
      if n < 0 {
        assert n == p * (-1) + v;
      } else {
        assert n == p * 0 + v;
      }
      FloorUnique(n, p, if n < 0 then -1 else 0, v);
    }
    ValueFixedSmall(v, 256, size);
    NegativeIff(LittleEndian(v, size));
  }

  // ---- primitive types

  /** `'' + data` for the decimal-string integers. */
  function TextOf(v: Value): Option<string> {
    match v
    case Str(s) => Some(s)
    case Num(n) => Some(IntString(n))
    case _ => None
  }

  function ParseBig(size: nat, signed: bool, s: string): Result<seq<byte>, NumericError> {
    if signed then ParseSigned(size, s) else ParseUnsigned(size, s)
  }

  function PrintBig(b: seq<byte>, signed: bool): string {
    if signed then PrintSigned(b, 1) else NatString(Unsigned(b), 1)
  }

  /** The bytes that `bytes` accepts: a byte array, or a hexadecimal string. */
  function BlobOf(v: Value): Result<seq<byte>, SerialError> {
    match v
    case Blob(b) => Success(b)
    case Str(s) => (match EosHex.FromHex(s) case Some(b) => Success(b) case None => Failure(BadHex))
    case _ => Failure(WrongType)
  }

  function EncBlob(b: seq<byte>): Result<seq<byte>, SerialError> {
    if |b| >= 0x1_0000_0000 then Failure(TooLong) else Success(Leb128.Encode(|b|) + b)
  }

  /** What a primitive type appends, or throws. */
  function EncPrim(p: Prim, v: Value): Result<seq<byte>, SerialError> {
    match p
    case BoolT =>
      if v == Bool(true) || v == Num(1) then Success([1])
      else if v == Bool(false) || v == Num(0) then Success([0])
      else Failure(WrongType)
    case FixedInt(size, signed) =>
      if !v.Num? then Failure(WrongType)
      else if FitsFixed(v.n, size, signed) then Success(StoredFixed(v.n, size))
      else Failure(OutOfRangeNumber)
    case VarUint32 =>
      if !v.Num? then Failure(WrongType)
      else if 0 <= v.n < 0x1_0000_0000 then Success(Leb128.Encode(v.n))
      else Failure(OutOfRangeNumber)
    case VarInt32 =>
      if !v.Num? then Failure(WrongType)
      else if -0x8000_0000 <= v.n < 0x8000_0000 then Success(Leb128.Encode(ZigZag.Encode(v.n)))
      else Failure(OutOfRangeNumber)
    case BigInt(size, signed) =>
      (match TextOf(v)
       case None => Failure(BadNumber(InvalidNumber))
       case Some(s) =>
         var b := ParseBig(size, signed, s);
         if b.Failure? then Failure(BadNumber(b.error)) else Success(b.value))
    case Name =>
      if v.Str? && EosName.IsName(v.s) then Success(EosName.Pack(v.s)) else Failure(BadName)
    case Bytes(_) =>
      var b := BlobOf(v);
      if b.Failure? then b else EncBlob(b.value)
    case Checksum(size) =>
      if !v.Str? then Failure(WrongType)
      else
        match EosHex.FromHex(v.s)
        case None => Failure(BadHex)
        case Some(b) => if |b| == size then Success(b) else Failure(WrongSize)
  }

  /** What a primitive type reads, or throws. */
  function DecPrim(p: Prim, s: seq<byte>): Result<Read<Value>, SerialError>
    requires IsPrim(p)
  {
    match p
    case BoolT =>
      var r := ReadByte(s);
      if r.Failure? then Failure(r.error) else Success(Read(Bool(r.value.value != 0), r.value.rest))
    case FixedInt(size, signed) =>
      var r := ReadBytes(s, size);
      if r.Failure? then Failure(r.error)
      else LoadedBound(r.value.value, signed); Success(Read(Num(LoadedFixed(r.value.value, signed)), r.value.rest))
    case VarUint32 =>
      var r := ReadVaruint32(s);
      if r.Failure? then Failure(r.error) else Success(Read(Num(r.value.value), r.value.rest))
    case VarInt32 =>
      var r := ReadVaruint32(s);
      if r.Failure? then Failure(r.error) else Success(Read(Num(ZigZag.Decode(r.value.value)), r.value.rest))
    case BigInt(size, signed) =>
      var r := ReadBytes(s, size);
      if r.Failure? then Failure(r.error) else Success(Read(Str(PrintBig(r.value.value, signed)), r.value.rest))
    case Name =>
      var r := ReadBytes(s, 8);
      if r.Failure? then Failure(r.error) else Success(Read(Str(EosName.NameOf(r.value.value)), r.value.rest))
    case Bytes(asBlob) =>
      var k := ReadVaruint32(s);
      if k.Failure? then Failure(k.error)
      else
        var r := ReadBytes(k.value.rest, k.value.value);
        if r.Failure? then Failure(r.error) else Success(Read(ShowBlob(asBlob, r.value.value), r.value.rest))
    case Checksum(size) =>
      var r := ReadBytes(s, size);
      if r.Failure? then Failure(r.error) else Success(Read(Str(EosHex.ToHex(r.value.value)), r.value.rest))
  }

  function ShowBlob(asBlob: bool, b: seq<byte>): Value {
    if asBlob then Blob(b) else Str(EosHex.ToHex(b))
  }

  lemma {:induction false} LoadedBound(b: seq<byte>, signed: bool)
    requires |b| <= 4
    ensures -0x20_0000_0000_0000 < LoadedFixed(b, signed) < 0x20_0000_0000_0000
  {
    PowMono(256, |b|, 4);
    assert Pow(256, 4) == 0x1_0000_0000 by {
      assert Pow(256, 2) == 0x1_0000;
      PowAdd(256, 2, 2);
    }
  }

  /** The form in which a primitive value comes back, stated without reference to bytes. */
  ghost function CanonPrim(p: Prim, v: Value): Value {
    match p
    case BoolT => Bool(v == Bool(true) || v == Num(1))
    case BigInt(size, signed) =>
      var s := if TextOf(v).Some? then TextOf(v).value else "";
      if signed then
        if AllDigits(Magnitude(s)) then Str(IntString(SignedValue(s))) else v
      else if AllDigits(s) then Str(NatString(DecValue(s), 1)) else v
    case Name => if v.Str? then Str(EosName.StripDots(v.s)) else v
    case Bytes(asBlob) => if BlobOf(v).Success? then ShowBlob(asBlob, BlobOf(v).value) else v
    case Checksum(_) => if BlobOf(v).Success? then Str(EosHex.ToHex(BlobOf(v).value)) else v
    case _ => v
  }

  /** Every primitive type reads back what it wrote, before any suffix, and writes at least one byte. */
  lemma {:induction false} PrimRoundTrip(p: Prim, v: Value, rest: seq<byte>)
    requires IsPrim(p) && EncPrim(p, v).Success?
    ensures DecPrim(p, EncPrim(p, v).value + rest) == Success(Read(CanonPrim(p, v), rest))
    ensures EncPrim(p, v).value != []
  {
    match p
    case Bytes(asBlob) => BytesRoundTrip(asBlob, v, rest);
    case BigInt(size, signed) => BigIntRoundTrip(size, signed, v, rest);
    case Name => NameRoundTrip(v, rest);
    case Checksum(size) => ReadBytesOf(EncPrim(p, v).value, rest);
    case _ => NumberRoundTrip(p, v, rest);
  }

  lemma {:induction false} NumberRoundTrip(p: Prim, v: Value, rest: seq<byte>)
    requires IsPrim(p) && EncPrim(p, v).Success? && (p.BoolT? || p.FixedInt? || p.VarUint32? || p.VarInt32?)
    ensures DecPrim(p, EncPrim(p, v).value + rest) == Success(Read(CanonPrim(p, v), rest))
    ensures EncPrim(p, v).value != []
  {
    var e := EncPrim(p, v).value;
    match p
    case BoolT =>
      assert (e + rest)[1..] == rest;
    case FixedInt(size, signed) =>
      ReadBytesOf(e, rest);
      LoadStored(v.n, size, signed);
    case VarUint32 =>
      ReadVaruint32Of(v.n, rest);
    case VarInt32 =>
      ReadVaruint32Of(ZigZag.Encode(v.n), rest);
      ZigZag.DecodeEncode(v.n, 0);
  }

  lemma {:induction false} BytesRoundTrip(asBlob: bool, v: Value, rest: seq<byte>)
    requires EncPrim(Bytes(asBlob), v).Success?
    ensures DecPrim(Bytes(asBlob), EncPrim(Bytes(asBlob), v).value + rest)
            == Success(Read(CanonPrim(Bytes(asBlob), v), rest))
    ensures EncPrim(Bytes(asBlob), v).value != []
  {
    var b := BlobOf(v).value;
    ConcatAssoc(Leb128.Encode(|b|), b, rest);
    ReadVaruint32Of(|b|, b + rest);
    ReadBytesOf(b, rest);
  }

  lemma {:induction false} NameRoundTrip(v: Value, rest: seq<byte>)
    requires EncPrim(Name, v).Success?
    ensures DecPrim(Name, EncPrim(Name, v).value + rest) == Success(Read(CanonPrim(Name, v), rest))
    ensures EncPrim(Name, v).value != []
  {
    ReadBytesOf(EosName.Pack(v.s), rest);
    EosName.NameOfPacked(v.s);
  }

  lemma {:induction false} BigIntRoundTrip(size: nat, signed: bool, v: Value, rest: seq<byte>)
    requires size >= 1 && IsPrim(BigInt(size, signed)) && EncPrim(BigInt(size, signed), v).Success?
    ensures DecPrim(BigInt(size, signed), EncPrim(BigInt(size, signed), v).value + rest)
            == Success(Read(CanonPrim(BigInt(size, signed), v), rest))
    ensures EncPrim(BigInt(size, signed), v).value != []
  {
    hide ParseBig, PrintBig, TextOf, IntString, NatString, AllDigits, Magnitude, SignedValue, DecValue, ReadBytes;
    var s := TextOf(v).value;
    var b := ParseBig(size, signed, s).value;
    BigRoundTrip(size, signed, s);
    assert DecPrim(BigInt(size, signed), b + rest) == Success(Read(Str(PrintBig(b, signed)), rest)) by {
      ReadBytesOf(b, rest);
    }
    assert CanonPrim(BigInt(size, signed), v) == Str(PrintBig(b, signed));
  }

  lemma {:induction false} BigRoundTrip(size: nat, signed: bool, s: string)
    requires size >= 1 && ParseBig(size, signed, s).Success?
    ensures |ParseBig(size, signed, s).value| == size
    ensures signed ==> AllDigits(Magnitude(s))
                       && PrintBig(ParseBig(size, signed, s).value, signed) == IntString(SignedValue(s))
    ensures !signed ==> AllDigits(s)
                        && PrintBig(ParseBig(size, signed, s).value, signed) == NatString(DecValue(s), 1)
  {
    if signed {
      ParseSignedExact(size, s);
      ParseThenPrint(size, s);
    } else {
      ParseUnsignedExact(size, s);
    }
  }
}
