/**
 * The converse of the round trip of packages/coin-eos/src/serialize.ts: which byte strings, once deserialized, are
 * serialized as they were. A canonical byte string marks optionals and booleans with 0 and 1, pads no variable-length
 * number, and runs out of data only where the serializer may skip an extension.
 */
module EosCanonical {
  import opened Wrappers
  import opened Numerals
  import opened JsInt
  import opened Decimal
  import Leb128
  import ZigZag
  import opened EosBignum
  import opened JsVarint
  import EosName
  import EosHex
  import opened EosSerial
  import opened EosAbi

  // ---- primitive types

  /** The first group is a 32-bit number without padding. */
  predicate Tight(s: seq<byte>)
    requires Leb128.GroupLength(s).Some?
  {
    var k := Leb128.GroupLength(s).value;
    (k == 1 || s[k - 1] != 0) && Leb128.Payload(s[..k]) < 0x1_0000_0000
  }

  predicate CanonicalPrim(p: Prim, s: seq<byte>)
    requires IsPrim(p) && DecPrim(p, s).Success?
  {
    match p
    case BoolT => s[0] == 0 || s[0] == 1
    case VarUint32 => Tight(s)
    case VarInt32 => Tight(s)
    case Bytes(_) => Tight(s)
    case _ => true
  }

  /** Such a group is the encoding of the number that is read. */
  lemma {:induction false} TightIs(s: seq<byte>)
    requires Leb128.GroupLength(s).Some? && Tight(s)
    ensures ReadVaruint32(s).Success?
    ensures Leb128.Encode(ReadVaruint32(s).value.value) + ReadVaruint32(s).value.rest == s
  {
    hide Accumulate, Leb128.Encode, Leb128.Payload, ToUint32;
    var k := Leb128.GroupLength(s).value;
    Leb128.GroupLengthGroup(s);
    Leb128.EncodePayload(s[..k]);
    AccumulateEncode(Leb128.Payload(s[..k]));
    assert s[..k] + s[k..] == s;
  }

  /** The stored form of a number that was loaded. */
  lemma {:induction false} StoreLoaded(b: seq<byte>, signed: bool)
    requires b != []
    ensures FitsFixed(LoadedFixed(b, signed), |b|, signed) && StoredFixed(LoadedFixed(b, signed), |b|) == b
  {
    var p := Pow(256, |b|);
    var u := Unsigned(b);
    NegativeIff(b);
    FixedValue(b, 256);
    if signed && Negative(b) {
      var n: int := u;
      FloorUnique(n - p, p, -1, u);
    } else {
      FloorUnique(u, p, 0, u);
    }
  }

  lemma {:induction false} ReadBytesParts(s: seq<byte>, n: nat)
    requires n <= |s|
    ensures ReadBytes(s, n) == Success(Read(s[..n], s[n..])) && s[..n] + s[n..] == s
  {
  }

  /** Writing what a primitive type read. */
  ghost predicate PrimBack(p: Prim, s: seq<byte>)
    requires IsPrim(p) && DecPrim(p, s).Success?
  {
    var r := DecPrim(p, s).value;
    EncPrim(p, r.value).Success? && EncPrim(p, r.value).value + r.rest == s
  }

  lemma {:induction false} CanonicalPrimBack(p: Prim, s: seq<byte>)
    requires IsPrim(p) && DecPrim(p, s).Success? && CanonicalPrim(p, s)
    ensures PrimBack(p, s)
  {
    match p
    case BoolT => assert [s[0]] + s[1..] == s;
    case FixedInt(size, signed) =>
      ReadBytesParts(s, size);
      StoreLoaded(s[..size], signed);
    case VarUint32 => TightIs(s);
    case VarInt32 =>
      TightIs(s);
      var n := ReadVaruint32(s).value.value;
      ZigZag.DecodeEncode(0, n);
    case BigInt(size, signed) => BigIntBack(size, signed, s);
    case Name =>
      ReadBytesParts(s, 8);
      EosName.PackNameOf(s[..8]);
      EosName.NameOfAccepted(s[..8]);
    case Bytes(asBlob) => BytesBack(asBlob, s);
    case Checksum(size) =>
      ReadBytesParts(s, size);
      EosHex.FromToHex(s[..size]);
  }

  lemma {:induction false} BigIntBack(size: nat, signed: bool, s: seq<byte>)
    requires IsPrim(BigInt(size, signed)) && DecPrim(BigInt(size, signed), s).Success?
    ensures PrimBack(BigInt(size, signed), s)
  {
    hide PrintSigned, ParseSigned, ParseUnsigned, NatString;
    ReadBytesParts(s, size);
    if signed {
      PrintThenParse(s[..size], 1);
    } else {
      PrintThenParseUnsigned(s[..size]);
    }
  }

  lemma {:induction false} BytesBack(asBlob: bool, s: seq<byte>)
    requires DecPrim(Bytes(asBlob), s).Success? && CanonicalPrim(Bytes(asBlob), s)
    ensures PrimBack(Bytes(asBlob), s)
  {
    TightIs(s);
    var k := ReadVaruint32(s).value;
    ReadBytesParts(k.rest, k.value);
    var b := k.rest[..k.value];
    EosHex.FromToHex(b);
    ConcatAssoc(Leb128.Encode(k.value), b, k.rest[k.value..]);
  }

  // ---- all types

  /** Whether the deserializer leaves an extension out. */
  ghost predicate Skips(t: Type, s: seq<byte>, allow: bool)
    requires WellFormed(t) && Take(t, s, allow).Success?
    decreases t, 0
  {
    match t
    case Primitive(p) => false
    case ArrayOf(e) => false
    case OptionalOf(e) => s[0] != 0 && Skips(e, s[1..], allow)
    case ExtensionOf(e) => Skips(e, s, allow)
    case Variant(fs) =>
      var k := ReadVaruint32(s).value;
      WellFormedAt(fs, k.value);
      Skips(fs[k.value].ty, k.rest, allow)
    case Struct(base, fs) =>
      if base.None? then SkipsFields(fs, s, Obj(map[]), allow)
      else
        var b := Take(base.value, s, allow).value;
        Skips(base.value, s, allow) || SkipsFields(fs, b.rest, b.value, allow)
  }

  ghost predicate SkipsFields(fs: seq<Field>, s: seq<byte>, acc: Value, allow: bool)
    requires WellFormedFields(fs) && TakeFields(fs, s, acc, allow).Success?
    decreases fs, 1
  {
    if fs == [] then false
    else if allow && fs[0].ty.ExtensionOf? && s == [] then true
    else
      var r := Take(fs[0].ty, s, allow).value;
      Skips(fs[0].ty, s, allow) || SkipsFields(fs[1..], r.rest, SetProperty(acc, fs[0].name, r.value).value, allow)
  }

  /** What a struct reads is an object that it accepts. */
  predicate IsObject(v: Value, fs: seq<Field>) {
    !v.Bool? && !v.Num? && !v.Str? && (v.Null? ==> fs == [])
  }

  /**
   * Bytes that are written as they were read: every mark is 0 or 1 and every group unpadded; what follows a mark of 1
   * is not read as absent; an option is the first of its name; and once an extension is left out, which takes the
   * serializer's permission, everything after it is too.
   */
  ghost predicate Canonical(t: Type, s: seq<byte>, writerAllow: bool, allow: bool)
    requires WellFormed(t) && Take(t, s, allow).Success?
    decreases t, 0
  {
    match t
    case Primitive(p) => CanonicalPrim(p, s)
    case ArrayOf(e) => Tight(s) && CanonicalItems(e, ReadVaruint32(s).value.rest, ReadVaruint32(s).value.value)
    case OptionalOf(e) =>
      s[0] == 0 || (s[0] == 1 && !Take(e, s[1..], allow).value.value.Null? && Canonical(e, s[1..], writerAllow, allow))
    case ExtensionOf(e) => Canonical(e, s, writerAllow, allow)
    case Variant(fs) =>
      Tight(s)
      && (var k := ReadVaruint32(s).value;
          WellFormedAt(fs, k.value);
          && (forall i :: 0 <= i < k.value ==> fs[i].name != fs[k.value].name)
          && Canonical(fs[k.value].ty, k.rest, writerAllow, allow))
    case Struct(base, fs) =>
      IsObject(Take(t, s, allow).value.value, fs)
      && (if base.None? then CanonicalFields(fs, s, Obj(map[]), false, writerAllow, allow)
          else
            var b := Take(base.value, s, allow).value;
            && Canonical(base.value, s, writerAllow, allow)
            && CanonicalFields(fs, b.rest, b.value, Skips(base.value, s, allow), writerAllow, allow))
  }

  ghost predicate CanonicalItems(e: Type, s: seq<byte>, n: nat)
    requires WellFormed(e) && TakeItems(e, s, n).Success?
    decreases e, 1, n
  {
    n == 0 || (Canonical(e, s, false, false) && CanonicalItems(e, Take(e, s, false).value.rest, n - 1))
  }

  ghost predicate CanonicalFields(fs: seq<Field>, s: seq<byte>, acc: Value, skipped: bool, writerAllow: bool, allow: bool)
    requires WellFormedFields(fs) && TakeFields(fs, s, acc, allow).Success?
    decreases fs, 1
  {
    if fs == [] then true
    else if allow && fs[0].ty.ExtensionOf? && s == [] then
      writerAllow && CanonicalFields(fs[1..], s, acc, true, writerAllow, allow)
    else
      var r := Take(fs[0].ty, s, allow).value;
      && !skipped && Canonical(fs[0].ty, s, writerAllow && |fs| == 1, allow)
      && CanonicalFields(fs[1..], r.rest, SetProperty(acc, fs[0].name, r.value).value, Skips(fs[0].ty, s, allow),
                         writerAllow, allow)
  }

  // ---- what does not matter

  /** An object is written by the names that its type declares. */
  lemma {:induction false} WriteSame(t: Type, u: Value, v: Value, skipped: bool, allow: bool)
    requires u.Obj? && v.Obj? && forall k :: k in Names(t) ==> Property(u, k) == Property(v, k)
    ensures Write(t, u, skipped, allow) == Write(t, v, skipped, allow)
    decreases t, 0
  {
    match t
    case Primitive(p) =>
    case ArrayOf(e) =>
    case OptionalOf(e) => WriteSame(e, u, v, skipped, allow);
    case ExtensionOf(e) => WriteSame(e, u, v, skipped, allow);
    case Variant(fs) =>
    case Struct(base, fs) =>
      if base.Some? {
        WriteSame(base.value, u, v, skipped, allow);
      }
      var b := if base.Some? then Write(base.value, u, skipped, allow) else Success(Written([], skipped));
      if b.Success? {
        WriteFieldsSame(fs, u, v, b.value.skipped, allow);
      }
  }

  lemma {:induction false} WriteFieldsSame(fs: seq<Field>, u: Value, v: Value, skipped: bool, allow: bool)
    requires u.Obj? && v.Obj? && forall k :: k in FieldNames(fs) ==> Property(u, k) == Property(v, k)
    ensures WriteFields(fs, u, skipped, allow) == WriteFields(fs, v, skipped, allow)
    decreases |fs|
  {
    hide Take, Write, WellFormed;
    if fs != [] {
      assert fs[0].name in FieldNames(fs);
      TailNames(fs);
      match Property(u, fs[0].name)
      case None => WriteFieldsSame(fs[1..], u, v, true, allow);
      case Some(x) =>
        var w := Write(fs[0].ty, x, skipped, allow && |fs| == 1);
        if w.Success? {
          WriteFieldsSame(fs[1..], u, v, w.value.skipped, allow);
        }
    }
  }

  /** Reading fields stores nothing but those fields. */
  lemma {:induction false} TakeStores(fs: seq<Field>, s: seq<byte>, acc: Value, allow: bool)
    requires WellFormedFields(fs) && TakeFields(fs, s, acc, allow).Success?
    ensures var r := TakeFields(fs, s, acc, allow).value.value;
      && (acc.Obj? ==> r.Obj?) && (!acc.Obj? ==> r == acc)
      && forall k :: k !in FieldNames(fs) ==> Property(r, k) == Property(acc, k)
    decreases |fs|
  {
    hide Take, Write, WellFormed;
    if fs != [] {
      assert fs[0].name in FieldNames(fs);
      TailNames(fs);
      if allow && fs[0].ty.ExtensionOf? && s == [] {
        TakeStores(fs[1..], s, acc, allow);
      } else {
        var r := Take(fs[0].ty, s, allow).value;
        TakeStores(fs[1..], r.rest, SetProperty(acc, fs[0].name, r.value).value, allow);
      }
    }
  }

  /** What is read as an object has only declared names. */
  lemma {:induction false} TakeNames(t: Type, s: seq<byte>, allow: bool)
    requires WellFormed(t) && Take(t, s, allow).Success?
    ensures var r := Take(t, s, allow).value.value; r.Obj? ==> r.fields.Keys <= Names(t)
    decreases t
  {
    match t
    case Primitive(p) =>
    case ArrayOf(e) =>
    case OptionalOf(e) => if s[0] != 0 { TakeNames(e, s[1..], allow); }
    case ExtensionOf(e) => TakeNames(e, s, allow);
    case Variant(fs) =>
    case Struct(base, fs) =>
      var b := if base.Some? then Take(base.value, s, allow).value else Read(Obj(map[]), s);
      if base.Some? {
        TakeNames(base.value, s, allow);
      }
      TakeStores(fs, b.rest, b.value, allow);
      var r := Take(t, s, allow).value.value;
      if r.Obj? {
        forall k | k in r.fields
          ensures k in Names(t)
        {
          assert Property(r, k) == Some(r.fields[k]);
        }
      }
  }

  // ---- the converse law

  /** Writing what was read: exactly the bytes that were read, and an extension is skipped where the reader did. */
  ghost predicate Back(t: Type, s: seq<byte>, writerAllow: bool, allow: bool)
    requires WellFormed(t) && Take(t, s, allow).Success?
  {
    var r := Take(t, s, allow).value;
    var w := Write(t, r.value, false, writerAllow);
    w.Success? && w.value.bytes + r.rest == s && w.value.skipped == Skips(t, s, allow)
  }

  lemma {:induction false} WrittenBack(t: Type, s: seq<byte>, writerAllow: bool, allow: bool)
    requires WellFormed(t) && DistinctNames(t) && Take(t, s, allow).Success? && Canonical(t, s, writerAllow, allow)
    ensures Back(t, s, writerAllow, allow)
    decreases t, 1
  {
    match t
    case Primitive(p) => CanonicalPrimBack(p, s);
    case ArrayOf(e) => ArrayBack(e, s, writerAllow, allow);
    case OptionalOf(e) =>
      if s[0] == 0 {
        assert [0] + s[1..] == s;
      } else {
        WrittenBack(e, s[1..], writerAllow, allow);
        var r := Take(e, s[1..], allow).value;
        ConcatAssoc([1], Write(e, r.value, false, writerAllow).value.bytes, r.rest);
        assert [1] + s[1..] == s;
      }
    case ExtensionOf(e) => WrittenBack(e, s, writerAllow, allow);
    case Variant(fs) => VariantBack(fs, s, writerAllow, allow);
    case Struct(base, fs) => StructBack(base, fs, s, writerAllow, allow);
  }

  lemma {:induction false} ArrayBack(e: Type, s: seq<byte>, writerAllow: bool, allow: bool)
    requires
      var t := ArrayOf(e);
      WellFormed(t) && DistinctNames(t) && Take(t, s, allow).Success? && Canonical(t, s, writerAllow, allow)
    ensures Back(ArrayOf(e), s, writerAllow, allow)
    decreases ArrayOf(e), 0
  {
    hide Leb128.Encode;
    TightIs(s);
    var k := ReadVaruint32(s).value;
    ItemsBack(e, k.rest, k.value);
    var r := TakeItems(e, k.rest, k.value).value;
    ConcatAssoc(Leb128.Encode(k.value), WriteItems(e, r.value, false).value.bytes, r.rest);
  }

  lemma {:induction false} ItemsBack(e: Type, s: seq<byte>, n: nat)
    requires WellFormed(e) && DistinctNames(e) && TakeItems(e, s, n).Success? && CanonicalItems(e, s, n)
    ensures var r := TakeItems(e, s, n).value; var w := WriteItems(e, r.value, false);
      |r.value| == n && w.Success? && w.value.bytes + r.rest == s && !w.value.skipped
    decreases e, 2, n
  {
    hide Take, Write, WellFormed, DistinctNames, Canonical, Skips;
    if n == 0 {
      assert [] + s == s;
    } else {
      WrittenBack(e, s, false, false);
      var r := Take(e, s, false).value;
      WriteKeepsFlag(e, r.value, false);
      ItemsBack(e, r.rest, n - 1);
      var rest := TakeItems(e, r.rest, n - 1).value;
      var items := [r.value] + rest.value;
      assert items[1..] == rest.value;
      ConcatAssoc(Write(e, r.value, false, false).value.bytes, WriteItems(e, rest.value, false).value.bytes, rest.rest);
    }
  }

  lemma {:induction false} FirstOption(fs: seq<Field>, k: nat)
    requires k < |fs| && forall i :: 0 <= i < k ==> fs[i].name != fs[k].name
    ensures FindOption(fs, fs[k].name) == Some(k)
    decreases k
  {
    if k > 0 {
      assert fs[0].name != fs[k].name;
      FirstOption(fs[1..], k - 1);
    }
  }

  lemma {:induction false} VariantBack(fs: seq<Field>, s: seq<byte>, writerAllow: bool, allow: bool)
    requires
      var t := Variant(fs);
      WellFormed(t) && DistinctNames(t) && Take(t, s, allow).Success? && Canonical(t, s, writerAllow, allow)
    ensures Back(Variant(fs), s, writerAllow, allow)
    decreases Variant(fs), 0
  {
    hide Leb128.Encode;
    TightIs(s);
    var k := ReadVaruint32(s).value;
    WellFormedAt(fs, k.value);
    DistinctAt(fs, k.value);
    FirstOption(fs, k.value);
    WrittenBack(fs[k.value].ty, k.rest, writerAllow, allow);
    var r := Take(fs[k.value].ty, k.rest, allow).value;
    ConcatAssoc(Leb128.Encode(k.value), Write(fs[k.value].ty, r.value, false, writerAllow).value.bytes, r.rest);
  }

  lemma {:induction false} StructBack(base: Option<Type>, fs: seq<Field>, s: seq<byte>, writerAllow: bool, allow: bool)
    requires
      var t := Struct(base, fs);
      WellFormed(t) && DistinctNames(t) && Take(t, s, allow).Success? && Canonical(t, s, writerAllow, allow)
    ensures Back(Struct(base, fs), s, writerAllow, allow)
    decreases Struct(base, fs), 0
  {
    var r := Take(Struct(base, fs), s, allow).value;
    if base.None? {
      FieldsBack(fs, s, Obj(map[]), r.value, false, writerAllow, allow);
      var w := WriteFields(fs, r.value, false, writerAllow).value;
      assert [] + w.bytes == w.bytes;
    } else {
      var b := Take(base.value, s, allow).value;
      WrittenBack(base.value, s, writerAllow, allow);
      BaseSame(base.value, fs, s, writerAllow, allow);
      FieldsBack(fs, b.rest, b.value, r.value, Skips(base.value, s, allow), writerAllow, allow);
      ConcatAssoc(Write(base.value, r.value, false, writerAllow).value.bytes,
                  WriteFields(fs, r.value, Skips(base.value, s, allow), writerAllow).value.bytes, r.rest);
    }
  }

  /** A struct's base is written alike with and without the struct's own fields. */
  lemma {:induction false} BaseSame(base: Type, fs: seq<Field>, s: seq<byte>, writerAllow: bool, allow: bool)
    requires
      var t := Struct(Some(base), fs);
      WellFormed(t) && DistinctNames(t) && Take(t, s, allow).Success?
    ensures var b := Take(base, s, allow).value; var r := Take(Struct(Some(base), fs), s, allow).value;
      && Write(base, r.value, false, writerAllow) == Write(base, b.value, false, writerAllow)
      && (b.value.Obj? ==> b.value.fields.Keys !! FieldNames(fs))
  {
    var b := Take(base, s, allow).value;
    var r := Take(Struct(Some(base), fs), s, allow).value;
    TakeNames(base, s, allow);
    TakeStores(fs, b.rest, b.value, allow);
    if b.value.Obj? {
      WriteSame(base, r.value, b.value, false, writerAllow);
    }
  }

  /** The fields that were read into `acc` are written from the object `v` that came of it. */
  lemma {:induction false} FieldsBack(fs: seq<Field>, s: seq<byte>, acc: Value, v: Value, skipped: bool,
                                      writerAllow: bool, allow: bool)
    requires WellFormedFields(fs) && TakeFields(fs, s, acc, allow).Success?
    requires DistinctInFields(fs) && forall i, j :: 0 <= i < j < |fs| ==> fs[i].name != fs[j].name
    requires acc.Obj? ==> acc.fields.Keys !! FieldNames(fs)
    requires CanonicalFields(fs, s, acc, skipped, writerAllow, allow) && (v.Null? ==> fs == [])
    requires forall k :: k in FieldNames(fs) ==> Property(v, k) == Property(TakeFields(fs, s, acc, allow).value.value, k)
    ensures var w := WriteFields(fs, v, skipped, writerAllow);
      && w.Success? && w.value.bytes + TakeFields(fs, s, acc, allow).value.rest == s
      && (w.value.skipped <==> skipped || SkipsFields(fs, s, acc, allow))
    decreases fs, 1
  {
    hide Take, Write, WellFormed, DistinctNames, Canonical, Skips;
    if fs == [] {
      assert [] + s == s;
    } else {
      var f := fs[0];
      FieldNamesCons(fs);
      if allow && f.ty.ExtensionOf? && s == [] {
        TakeStores(fs[1..], s, acc, allow);
        assert Property(v, f.name) == Property(acc, f.name) == None;
        FieldsBack(fs[1..], s, acc, v, true, writerAllow, allow);
      } else {
        var r := Take(f.ty, s, allow).value;
        var acc' := SetProperty(acc, f.name, r.value).value;
        TakeStores(fs[1..], r.rest, acc', allow);
        assert Property(v, f.name) == Property(acc', f.name) == Some(r.value);
        var last := writerAllow && |fs| == 1;
        WrittenBack(f.ty, s, last, allow);
        var w := Write(f.ty, r.value, false, last).value;
        FieldsBack(fs[1..], r.rest, acc', v, w.skipped, writerAllow, allow);
        ConcatAssoc(w.bytes, WriteFields(fs[1..], v, w.skipped, writerAllow).value.bytes,
                    TakeFields(fs[1..], r.rest, acc', allow).value.rest);
      }
    }
  }

  // ---- only canonical bytes

  /** No variant has two options of one name. */
  ghost predicate DistinctOptions(t: Type)
    decreases t, 0
  {
    match t
    case Primitive(p) => true
    case ArrayOf(e) => DistinctOptions(e)
    case OptionalOf(e) => DistinctOptions(e)
    case ExtensionOf(e) => DistinctOptions(e)
    case Variant(fs) => DistinctOptionsIn(fs) && forall i, j :: 0 <= i < j < |fs| ==> fs[i].name != fs[j].name
    case Struct(base, fs) => (base.Some? ==> DistinctOptions(base.value)) && DistinctOptionsIn(fs)
  }

  ghost predicate DistinctOptionsIn(fs: seq<Field>)
    decreases fs, 1
  {
    fs == [] || (DistinctOptions(fs[0].ty) && DistinctOptionsIn(fs[1..]))
  }

  lemma {:induction false} OptionsAt(fs: seq<Field>, i: nat)
    requires DistinctOptionsIn(fs) && i < |fs|
    ensures DistinctOptions(fs[i].ty)
    decreases |fs|
  {
    if i > 0 {
      OptionsAt(fs[1..], i - 1);
    }
  }

  /** What a reader leaves is the end of what it was given. */
  predicate IsEnd(rest: seq<byte>, s: seq<byte>) {
    |rest| <= |s| && s[|s| - |rest|..] == rest
  }

  lemma EndOfEnd(a: seq<byte>, b: seq<byte>, s: seq<byte>)
    requires IsEnd(a, b) && IsEnd(b, s)
    ensures IsEnd(a, s)
  {
  }

  lemma {:induction false} GroupEnd(s: seq<byte>)
    requires ReadVaruint32(s).Success?
    ensures IsEnd(ReadVaruint32(s).value.rest, s)
  {
  }

  lemma {:induction false} PrimEnd(p: Prim, s: seq<byte>)
    requires IsPrim(p) && DecPrim(p, s).Success?
    ensures IsEnd(DecPrim(p, s).value.rest, s)
  {
    match p
    case VarUint32 => GroupEnd(s);
    case VarInt32 => GroupEnd(s);
    case Bytes(_) =>
      GroupEnd(s);
      EndOfEnd(DecPrim(p, s).value.rest, ReadVaruint32(s).value.rest, s);
    case _ =>
  }

  lemma {:induction false} TakeEnd(t: Type, s: seq<byte>, allow: bool)
    requires WellFormed(t) && Take(t, s, allow).Success?
    ensures IsEnd(Take(t, s, allow).value.rest, s)
    decreases t, 0
  {
    hide IsEnd;
    assert IsEnd(s, s) by { AllIsEnd(s); }
    match t
    case Primitive(p) => PrimEnd(p, s);
    case ArrayOf(e) =>
      var k := ReadVaruint32(s).value;
      GroupEnd(s);
      ItemsEnd(e, k.rest, k.value);
      EndOfEnd(TakeItems(e, k.rest, k.value).value.rest, k.rest, s);
    case OptionalOf(e) =>
      TailEnd(s);
      if s[0] != 0 {
        TakeEnd(e, s[1..], allow);
        EndOfEnd(Take(e, s[1..], allow).value.rest, s[1..], s);
      }
    case ExtensionOf(e) => TakeEnd(e, s, allow);
    case Variant(fs) =>
      var k := ReadVaruint32(s).value;
      GroupEnd(s);
      WellFormedAt(fs, k.value);
      TakeEnd(fs[k.value].ty, k.rest, allow);
      EndOfEnd(Take(fs[k.value].ty, k.rest, allow).value.rest, k.rest, s);
    case Struct(base, fs) =>
      var b := if base.Some? then Take(base.value, s, allow).value else Read(Obj(map[]), s);
      if base.Some? {
        TakeEnd(base.value, s, allow);
      }
      FieldsEnd(fs, b.rest, b.value, allow);
      EndOfEnd(TakeFields(fs, b.rest, b.value, allow).value.rest, b.rest, s);
  }

  lemma AllIsEnd(s: seq<byte>)
    ensures IsEnd(s, s)
  {
  }

  lemma TailEnd(s: seq<byte>)
    requires s != []
    ensures IsEnd(s[1..], s)
  {
  }

  lemma {:induction false} ItemsEnd(e: Type, s: seq<byte>, n: nat)
    requires WellFormed(e) && TakeItems(e, s, n).Success?
    ensures IsEnd(TakeItems(e, s, n).value.rest, s)
    decreases e, 1, n
  {
    hide Take, Write, WellFormed;
    if n > 0 {
      var r := Take(e, s, false).value;
      TakeEnd(e, s, false);
      ItemsEnd(e, r.rest, n - 1);
      EndOfEnd(TakeItems(e, r.rest, n - 1).value.rest, r.rest, s);
    }
  }

  lemma {:induction false} FieldsEnd(fs: seq<Field>, s: seq<byte>, acc: Value, allow: bool)
    requires WellFormedFields(fs) && TakeFields(fs, s, acc, allow).Success?
    ensures IsEnd(TakeFields(fs, s, acc, allow).value.rest, s)
    decreases fs, 1
  {
    hide Take, Write, WellFormed;
    if fs != [] {
      if allow && fs[0].ty.ExtensionOf? && s == [] {
        FieldsEnd(fs[1..], s, acc, allow);
      } else {
        var r := Take(fs[0].ty, s, allow).value;
        var acc' := SetProperty(acc, fs[0].name, r.value).value;
        TakeEnd(fs[0].ty, s, allow);
        FieldsEnd(fs[1..], r.rest, acc', allow);
        EndOfEnd(TakeFields(fs[1..], r.rest, acc', allow).value.rest, r.rest, s);
      }
    }
  }

  /** The encoding of the number that a group is read as is no longer than the group. */
  lemma {:induction false} GroupNoLonger(s: seq<byte>)
    requires ReadVaruint32(s).Success?
    ensures |Leb128.Encode(ReadVaruint32(s).value.value)| + |ReadVaruint32(s).value.rest| <= |s|
  {
    hide Accumulate, Leb128.Encode, Leb128.Payload, ToUint32;
    var k := Leb128.GroupLength(s).value;
    var n := ReadVaruint32(s).value.value;
    Encode5(n);
    if k < 5 {
      AccumulateValue(s[..k]);
      Leb128.PayloadBound(s[..k]);
      assert n <= Leb128.Payload(s[..k]);
      Leb128.EncodeLength(n, k);
    }
  }

  /** If that encoding is the group itself, the group is unpadded. */
  lemma {:induction false} EncodeTight(n: nat, s: seq<byte>, rest: seq<byte>)
    requires Leb128.Encode(n) + rest == s && n < 0x1_0000_0000
    ensures Leb128.GroupLength(s) == Some(|Leb128.Encode(n)|) && Tight(s)
  {
    Leb128.DecodeEncode(n, rest);
    var e := Leb128.Encode(n);
    assert s[..|e|] == e;
    LastNonzero(n);
  }

  lemma {:induction false} LastNonzero(n: nat)
    ensures var e := Leb128.Encode(n); |e| > 1 ==> e[|e| - 1] != 0
    decreases n
  {
    if n >= 128 {
      LastNonzero(n / 128);
    }
  }

  lemma {:induction false} PrimNoLonger(p: Prim, s: seq<byte>)
    requires IsPrim(p) && DecPrim(p, s).Success? && EncPrim(p, DecPrim(p, s).value.value).Success?
    ensures |EncPrim(p, DecPrim(p, s).value.value).value| + |DecPrim(p, s).value.rest| <= |s|
  {
    match p
    case VarUint32 => GroupNoLonger(s);
    case VarInt32 =>
      GroupNoLonger(s);
      ZigZag.DecodeEncode(0, ReadVaruint32(s).value.value);
    case BigInt(size, signed) => BigIntBack(size, signed, s);
    case Bytes(asBlob) =>
      GroupNoLonger(s);
      EosHex.FromToHex(ReadBytes(ReadVaruint32(s).value.rest, ReadVaruint32(s).value.value).value.value);
    case _ =>
  }

  lemma {:induction false} PrimOnly(p: Prim, s: seq<byte>)
    requires IsPrim(p) && DecPrim(p, s).Success? && PrimBack(p, s)
    ensures CanonicalPrim(p, s)
  {
    match p
    case VarUint32 => EncodeTight(ReadVaruint32(s).value.value, s, ReadVaruint32(s).value.rest);
    case VarInt32 =>
      ZigZag.DecodeEncode(0, ReadVaruint32(s).value.value);
      EncodeTight(ReadVaruint32(s).value.value, s, ReadVaruint32(s).value.rest);
    case Bytes(asBlob) =>
      var k := ReadVaruint32(s).value;
      var b := ReadBytes(k.rest, k.value).value;
      EosHex.FromToHex(b.value);
      ConcatAssoc(Leb128.Encode(k.value), b.value, b.rest);
      EncodeTight(k.value, s, b.value + b.rest);
    case _ =>
  }

  /** What is written is no longer than what was read. */
  lemma {:induction false} NoLonger(t: Type, s: seq<byte>, writerAllow: bool, allow: bool)
    requires WellFormed(t) && DistinctNames(t) && DistinctOptions(t) && Take(t, s, allow).Success?
    requires Write(t, Take(t, s, allow).value.value, false, writerAllow).Success?
    ensures |Write(t, Take(t, s, allow).value.value, false, writerAllow).value.bytes| + |Take(t, s, allow).value.rest| <= |s|
    decreases t, 1
  {
    match t
    case Primitive(p) => PrimNoLonger(p, s);
    case ArrayOf(e) =>
      var k := ReadVaruint32(s).value;
      GroupNoLonger(s);
      ItemsNoLonger(e, k.rest, k.value);
    case OptionalOf(e) =>
      if s[0] != 0 {
        if Take(t, s, allow).value.value.Null? {
          TakeEnd(e, s[1..], allow);
        } else {
          NoLonger(e, s[1..], writerAllow, allow);
        }
      }
    case ExtensionOf(e) => NoLonger(e, s, writerAllow, allow);
    case Variant(fs) =>
      var k := ReadVaruint32(s).value;
      GroupNoLonger(s);
      WellFormedAt(fs, k.value);
      DistinctAt(fs, k.value);
      OptionsAt(fs, k.value);
      FirstOption(fs, k.value);
      NoLonger(fs[k.value].ty, k.rest, writerAllow, allow);
    case Struct(base, fs) =>
      var v := Take(t, s, allow).value.value;
      if base.None? {
        FieldsNoLonger(fs, s, Obj(map[]), v, false, writerAllow, allow);
      } else {
        var b := Take(base.value, s, allow).value;
        BaseSame(base.value, fs, s, writerAllow, allow);
        NoLonger(base.value, s, writerAllow, allow);
        FieldsNoLonger(fs, b.rest, b.value, v, Write(base.value, v, false, writerAllow).value.skipped, writerAllow, allow);
      }
  }

  lemma {:induction false} ItemsNoLonger(e: Type, s: seq<byte>, n: nat)
    requires WellFormed(e) && DistinctNames(e) && DistinctOptions(e) && TakeItems(e, s, n).Success?
    requires WriteItems(e, TakeItems(e, s, n).value.value, false).Success?
    ensures |TakeItems(e, s, n).value.value| == n
    ensures |WriteItems(e, TakeItems(e, s, n).value.value, false).value.bytes| + |TakeItems(e, s, n).value.rest| <= |s|
    decreases e, 2, n
  {
    hide Take, Write, WellFormed, DistinctNames, DistinctOptions;
    if n > 0 {
      var r := Take(e, s, false).value;
      var rest := TakeItems(e, r.rest, n - 1).value;
      var items := [r.value] + rest.value;
      assert items[1..] == rest.value;
      WriteItemsKeepsFlag(e, items);
      NoLonger(e, s, false, false);
      ItemsNoLonger(e, r.rest, n - 1);
    }
  }

  lemma {:induction false} FieldsNoLonger(fs: seq<Field>, s: seq<byte>, acc: Value, v: Value, skipped: bool,
                                          writerAllow: bool, allow: bool)
    requires WellFormedFields(fs) && TakeFields(fs, s, acc, allow).Success? && WriteFields(fs, v, skipped, writerAllow).Success?
    requires DistinctInFields(fs) && DistinctOptionsIn(fs) && forall i, j :: 0 <= i < j < |fs| ==> fs[i].name != fs[j].name
    requires acc.Obj? ==> acc.fields.Keys !! FieldNames(fs)
    requires forall k :: k in FieldNames(fs) ==> Property(v, k) == Property(TakeFields(fs, s, acc, allow).value.value, k)
    ensures |WriteFields(fs, v, skipped, writerAllow).value.bytes| + |TakeFields(fs, s, acc, allow).value.rest| <= |s|
    decreases fs, 1
  {
    hide Take, Write, WellFormed, DistinctNames, DistinctOptions;
    if fs != [] {
      var f := fs[0];
      FieldNamesCons(fs);
      if allow && f.ty.ExtensionOf? && s == [] {
        TakeStores(fs[1..], s, acc, allow);
        assert Property(v, f.name) == Property(acc, f.name) == None;
        FieldsNoLonger(fs[1..], s, acc, v, true, writerAllow, allow);
      } else {
        var r := Take(f.ty, s, allow).value;
        var acc' := SetProperty(acc, f.name, r.value).value;
        TakeStores(fs[1..], r.rest, acc', allow);
        assert Property(v, f.name) == Property(acc', f.name) == Some(r.value);
        var last := writerAllow && |fs| == 1;
        NoLonger(f.ty, s, last, allow);
        FieldsNoLonger(fs[1..], r.rest, acc', v, Write(f.ty, r.value, false, last).value.skipped, writerAllow, allow);
      }
    }
  }

  /** Two parts that together are what was read, neither longer than its own part, are those parts. */
  lemma {:induction false} SameParts(a: seq<byte>, b: seq<byte>, rest: seq<byte>, middle: seq<byte>, s: seq<byte>)
    requires (a + b) + rest == s && IsEnd(middle, s)
    requires |a| + |middle| <= |s| && |b| + |rest| <= |middle|
    ensures a + middle == s && b + rest == middle
  {
    ConcatAssoc(a, b, rest);
    assert s[|a|..] == b + rest;
  }

  /** What was read is written as it was. */
  ghost predicate Restored(t: Type, s: seq<byte>, writerAllow: bool, allow: bool)
    requires WellFormed(t) && Take(t, s, allow).Success?
  {
    var r := Take(t, s, allow).value;
    var w := Write(t, r.value, false, writerAllow);
    w.Success? && w.value.bytes + r.rest == s
  }

  /** Then the bytes were canonical. */
  lemma {:induction false} OnlyCanonical(t: Type, s: seq<byte>, writerAllow: bool, allow: bool)
    requires WellFormed(t) && DistinctNames(t) && DistinctOptions(t) && Take(t, s, allow).Success?
    requires Restored(t, s, writerAllow, allow)
    ensures Canonical(t, s, writerAllow, allow)
    decreases t, 1
  {
    match t
    case Primitive(p) => PrimOnly(p, s);
    case ArrayOf(e) => ArrayOnly(e, s, writerAllow, allow);
    case OptionalOf(e) => OptionalOnly(e, s, writerAllow, allow);
    case ExtensionOf(e) => OnlyCanonical(e, s, writerAllow, allow);
    case Variant(fs) => VariantOnly(fs, s, writerAllow, allow);
    case Struct(base, fs) => StructOnly(base, fs, s, writerAllow, allow);
  }

  lemma {:induction false} OptionalOnly(e: Type, s: seq<byte>, writerAllow: bool, allow: bool)
    requires
      var t := OptionalOf(e);
      WellFormed(t) && DistinctNames(t) && DistinctOptions(t) && Take(t, s, allow).Success? && Restored(t, s, writerAllow, allow)
    ensures Canonical(OptionalOf(e), s, writerAllow, allow)
    decreases OptionalOf(e), 0
  {
    if s[0] != 0 {
      TakeEnd(e, s[1..], allow);
      var r := Take(e, s[1..], allow).value;
      if r.value.Null? {
        assert false;
      } else {
        var w := Write(e, r.value, false, writerAllow).value.bytes;
        assert ([1] + w + r.rest)[0] == 1 && ([1] + w + r.rest)[1..] == w + r.rest;
        OnlyCanonical(e, s[1..], writerAllow, allow);
      }
    }
  }

  lemma {:induction false} ArrayOnly(e: Type, s: seq<byte>, writerAllow: bool, allow: bool)
    requires
      var t := ArrayOf(e);
      WellFormed(t) && DistinctNames(t) && DistinctOptions(t) && Take(t, s, allow).Success? && Restored(t, s, writerAllow, allow)
    ensures Canonical(ArrayOf(e), s, writerAllow, allow)
    decreases ArrayOf(e), 0
  {
    hide Leb128.Encode, Tight;
    var k := ReadVaruint32(s).value;
    var r := TakeItems(e, k.rest, k.value).value;
    GroupNoLonger(s);
    GroupEnd(s);
    ItemsNoLonger(e, k.rest, k.value);
    SameParts(Leb128.Encode(k.value), WriteItems(e, r.value, false).value.bytes, r.rest, k.rest, s);
    EncodeTight(k.value, s, k.rest);
    ItemsOnly(e, k.rest, k.value);
  }

  lemma {:induction false} ItemsOnly(e: Type, s: seq<byte>, n: nat)
    requires WellFormed(e) && DistinctNames(e) && DistinctOptions(e) && TakeItems(e, s, n).Success?
    requires
      var r := TakeItems(e, s, n).value;
      WriteItems(e, r.value, false).Success? && WriteItems(e, r.value, false).value.bytes + r.rest == s
    ensures CanonicalItems(e, s, n)
    decreases e, 2, n
  {
    hide Take, Write, WellFormed, DistinctNames, DistinctOptions, Canonical;
    if n > 0 {
      var r := Take(e, s, false).value;
      var rest := TakeItems(e, r.rest, n - 1).value;
      var items := [r.value] + rest.value;
      assert items[1..] == rest.value;
      WriteItemsKeepsFlag(e, items);
      NoLonger(e, s, false, false);
      ItemsNoLonger(e, r.rest, n - 1);
      TakeEnd(e, s, false);
      SameParts(Write(e, r.value, false, false).value.bytes, WriteItems(e, rest.value, false).value.bytes, rest.rest, r.rest, s);
      OnlyCanonical(e, s, false, false);
      ItemsOnly(e, r.rest, n - 1);
    }
  }

  lemma {:induction false} VariantOnly(fs: seq<Field>, s: seq<byte>, writerAllow: bool, allow: bool)
    requires
      var t := Variant(fs);
      WellFormed(t) && DistinctNames(t) && DistinctOptions(t) && Take(t, s, allow).Success? && Restored(t, s, writerAllow, allow)
    ensures Canonical(Variant(fs), s, writerAllow, allow)
    decreases Variant(fs), 0
  {
    hide Leb128.Encode, Tight;
    var k := ReadVaruint32(s).value;
    WellFormedAt(fs, k.value);
    DistinctAt(fs, k.value);
    OptionsAt(fs, k.value);
    FirstOption(fs, k.value);
    var ty := fs[k.value].ty;
    var r := Take(ty, k.rest, allow).value;
    GroupNoLonger(s);
    GroupEnd(s);
    NoLonger(ty, k.rest, writerAllow, allow);
    SameParts(Leb128.Encode(k.value), Write(ty, r.value, false, writerAllow).value.bytes, r.rest, k.rest, s);
    EncodeTight(k.value, s, k.rest);
    OnlyCanonical(ty, k.rest, writerAllow, allow);
  }

  lemma {:induction false} StructOnly(base: Option<Type>, fs: seq<Field>, s: seq<byte>, writerAllow: bool, allow: bool)
    requires
      var t := Struct(base, fs);
      WellFormed(t) && DistinctNames(t) && DistinctOptions(t) && Take(t, s, allow).Success? && Restored(t, s, writerAllow, allow)
    ensures Canonical(Struct(base, fs), s, writerAllow, allow)
    decreases Struct(base, fs), 0
  {
    var r := Take(Struct(base, fs), s, allow).value;
    if base.None? {
      var w := WriteFields(fs, r.value, false, writerAllow).value;
      assert [] + w.bytes == w.bytes;
      FieldsOnly(fs, s, Obj(map[]), r.value, false, writerAllow, allow);
    } else {
      var b := Take(base.value, s, allow).value;
      BaseSame(base.value, fs, s, writerAllow, allow);
      var w := Write(base.value, r.value, false, writerAllow).value;
      NoLonger(base.value, s, writerAllow, allow);
      FieldsNoLonger(fs, b.rest, b.value, r.value, w.skipped, writerAllow, allow);
      TakeEnd(base.value, s, allow);
      SameParts(w.bytes, WriteFields(fs, r.value, w.skipped, writerAllow).value.bytes, r.rest, b.rest, s);
      OnlyCanonical(base.value, s, writerAllow, allow);
      WrittenBack(base.value, s, writerAllow, allow);
      FieldsOnly(fs, b.rest, b.value, r.value, w.skipped, writerAllow, allow);
    }
  }

  lemma {:induction false} FieldsOnly(fs: seq<Field>, s: seq<byte>, acc: Value, v: Value, skipped: bool,
                                      writerAllow: bool, allow: bool)
    requires WellFormedFields(fs) && TakeFields(fs, s, acc, allow).Success? && WriteFields(fs, v, skipped, writerAllow).Success?
    requires DistinctInFields(fs) && DistinctOptionsIn(fs) && forall i, j :: 0 <= i < j < |fs| ==> fs[i].name != fs[j].name
    requires acc.Obj? ==> acc.fields.Keys !! FieldNames(fs)
    requires forall k :: k in FieldNames(fs) ==> Property(v, k) == Property(TakeFields(fs, s, acc, allow).value.value, k)
    requires WriteFields(fs, v, skipped, writerAllow).value.bytes + TakeFields(fs, s, acc, allow).value.rest == s
    ensures CanonicalFields(fs, s, acc, skipped, writerAllow, allow)
    decreases fs, 1
  {
    hide Take, Write, WellFormed, DistinctNames, DistinctOptions, Canonical, Skips;
    if fs != [] {
      var f := fs[0];
      FieldNamesCons(fs);
      if allow && f.ty.ExtensionOf? && s == [] {
        TakeStores(fs[1..], s, acc, allow);
        assert Property(v, f.name) == Property(acc, f.name) == None;
        FieldsOnly(fs[1..], s, acc, v, true, writerAllow, allow);
      } else {
        var r := Take(f.ty, s, allow).value;
        var acc' := SetProperty(acc, f.name, r.value).value;
        TakeStores(fs[1..], r.rest, acc', allow);
        assert Property(v, f.name) == Property(acc', f.name) == Some(r.value);
        var last := writerAllow && |fs| == 1;
        var w := Write(f.ty, r.value, false, last).value;
        NoLonger(f.ty, s, last, allow);
        FieldsNoLonger(fs[1..], r.rest, acc', v, w.skipped, writerAllow, allow);
        TakeEnd(f.ty, s, allow);
        SameParts(w.bytes, WriteFields(fs[1..], v, w.skipped, writerAllow).value.bytes,
                  TakeFields(fs[1..], r.rest, acc', allow).value.rest, r.rest, s);
        OnlyCanonical(f.ty, s, last, allow);
        WrittenBack(f.ty, s, last, allow);
        FieldsOnly(fs[1..], r.rest, acc', v, w.skipped, writerAllow, allow);
      }
    }
  }

  /** Serializing what was deserialized gives the same bytes back if and only if they are canonical. */
  lemma {:induction false} RestoredExactly(t: Type, s: seq<byte>, writerAllow: bool, allow: bool)
    requires WellFormed(t) && DistinctNames(t) && DistinctOptions(t) && Take(t, s, allow).Success?
    ensures Restored(t, s, writerAllow, allow) <==> Canonical(t, s, writerAllow, allow)
  {
    hide Take, Write, Canonical;
    if Restored(t, s, writerAllow, allow) {
      OnlyCanonical(t, s, writerAllow, allow);
    }
    if Canonical(t, s, writerAllow, allow) {
      WrittenBack(t, s, writerAllow, allow);
    }
  }

  // ---- marks

  /** The deserializer takes every other mark for 1, so only a canonical byte string comes back. */
  lemma {:induction false} AnyMark(e: Type, mark: byte, s: seq<byte>, allow: bool)
    requires WellFormed(e) && mark != 0
    ensures Take(OptionalOf(e), [mark] + s, allow) == Take(OptionalOf(e), [1] + s, allow)
    ensures Take(Primitive(BoolT), [mark] + s, allow) == Success(Read(Bool(true), s))
  {
    assert ([mark] + s)[1..] == s && ([1] + s)[1..] == s;
  }
}
