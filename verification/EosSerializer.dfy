/**
 * The serializers and deserializers of packages/coin-eos/src/serialize.ts as they run: they
 * push into and read from a `SerialBuffer` and pass on the `skippedBinaryExtension` flag.
 * Each is proved to do what the functions of `EosSerial` and `EosAbi` say, so the round-trip
 * theorems of those modules are about these methods; `RoundTripRun` states it for a run.
 */
module EosSerializer {
  import opened Wrappers
  import opened JsInt
  import opened JsBytes
  import Leb128
  import opened EosBignum
  import EosHex
  import opened EosSerial
  import opened EosFixed
  import opened EosSerialBuffer
  import opened EosAbi
  import opened EosCanonical

  class SerializerState {
    var skippedBinaryExtension: bool

    constructor ()
      ensures !skippedBinaryExtension
    {
      skippedBinaryExtension := false;
    }
  }

  /** Success appends exactly the specified bytes; a failure leaves the old bytes in front. */
  ghost predicate Wrote(spec: Result<seq<byte>, SerialError>, r: Result<(), SerialError>,
                        before: seq<byte>, after: seq<byte>) {
    match spec
    case Success(b) => r == Success(()) && after == before + b
    case Failure(e) => r == Failure(e) && before <= after
  }

  function BytesOf(w: Result<Written, SerialError>): Result<seq<byte>, SerialError> {
    if w.Failure? then Failure(w.error) else Success(w.value.bytes)
  }

  // ---- primitive types

  method CheckRange(orig: int, converted: int) returns (r: Result<int, SerialError>)
    ensures r == if orig == converted then Success(orig) else Failure(OutOfRangeNumber)
  {
    if orig != converted {
      return Failure(OutOfRangeNumber);
    }
    return Success(orig);
  }

  method SerializeFixed(size: nat, signed: bool, buffer: SerialBuffer, n: SafeInt) returns (r: Result<(), SerialError>)
    requires IsPrim(FixedInt(size, signed)) && buffer.Valid() && buffer.Growable()
    modifies buffer`data, buffer`length, buffer.data
    ensures buffer.Valid() && buffer.Growable() && (buffer.data == old(buffer.data) || fresh(buffer.data))
    ensures Wrote(EncPrim(FixedInt(size, signed), Num(n)), r, old(buffer.Contents()), buffer.Contents())
  {
    ConvertedFits(size, signed, n);
    var b :- CheckRange(n, Converted(size, signed, n));
    if size == 1 {
      StoredOne(n);
      buffer.Push([b]);
    } else if size == 2 {
      buffer.PushUint16(b);
    } else {
      buffer.PushUint32(b);
    }
    return Success(());
  }

  method SerializeBig(size: nat, signed: bool, buffer: SerialBuffer, v: Value) returns (r: Result<(), SerialError>)
    requires buffer.Valid() && buffer.Growable()
    modifies buffer`data, buffer`length, buffer.data
    ensures buffer.Valid() && buffer.Growable() && (buffer.data == old(buffer.data) || fresh(buffer.data))
    ensures Wrote(EncPrim(BigInt(size, signed), v), r, old(buffer.Contents()), buffer.Contents())
  {
    var s := TextOf(v);
    if s.None? {
      return Failure(BadNumber(InvalidNumber));
    }
    var b := ParseBigBytes(size, signed, s.value);
    if b.Failure? {
      return Failure(BadNumber(b.error));
    }
    buffer.PushArray(b.value);
    return Success(());
  }

  method ParseBigBytes(size: nat, signed: bool, s: string) returns (r: Result<seq<byte>, NumericError>)
    ensures r == ParseBig(size, signed, s)
  {
    if signed {
      var b :- SignedDecimalToBinary(size, s);
      return Success(b[..]);
    } else {
      var b :- DecimalToBinary(size, s);
      return Success(b[..]);
    }
  }

  method SerializeNumber(p: Prim, buffer: SerialBuffer, v: Value) returns (r: Result<(), SerialError>)
    requires IsPrim(p) && (p.BoolT? || p.FixedInt? || p.VarUint32? || p.VarInt32?)
    requires buffer.Valid() && buffer.Growable()
    modifies buffer`data, buffer`length, buffer.data
    ensures buffer.Valid() && buffer.Growable() && (buffer.data == old(buffer.data) || fresh(buffer.data))
    ensures Wrote(EncPrim(p, v), r, old(buffer.Contents()), buffer.Contents())
  {
    if p.BoolT? {
      if !(v.Bool? || v == Num(1) || v == Num(0)) {
        return Failure(WrongType);
      }
      var one := v == Bool(true) || v == Num(1);
      assert AsBytes([1]) == [1] && AsBytes([0]) == [0];
      buffer.Push([if one then 1 else 0]);
      return Success(());
    }
    if !v.Num? {
      return Failure(WrongType);
    }
    if p.FixedInt? {
      r := SerializeFixed(p.size, p.signed, buffer, v.n);
    } else if p.VarUint32? {
      var n :- CheckRange(v.n, ToUint32(v.n));
      buffer.PushVaruint32(n);
      return Success(());
    } else {
      var n :- CheckRange(v.n, ToInt32(v.n));
      buffer.PushVarint32(n);
      return Success(());
    }
  }

  method SerializeBytes(asBlob: bool, buffer: SerialBuffer, v: Value) returns (r: Result<(), SerialError>)
    requires buffer.Valid() && buffer.Growable()
    modifies buffer`data, buffer`length, buffer.data
    ensures buffer.Valid() && buffer.Growable() && (buffer.data == old(buffer.data) || fresh(buffer.data))
    ensures Wrote(EncPrim(Bytes(asBlob), v), r, old(buffer.Contents()), buffer.Contents())
  {
    var b :- BlobOf(v);
    if |b| >= 0x1_0000_0000 {
      return Failure(TooLong);
    }
    buffer.PushBytes(b);
    return Success(());
  }

  method SerializePrim(p: Prim, buffer: SerialBuffer, v: Value) returns (r: Result<(), SerialError>)
    requires IsPrim(p) && buffer.Valid() && buffer.Growable()
    modifies buffer`data, buffer`length, buffer.data
    ensures buffer.Valid() && buffer.Growable() && (buffer.data == old(buffer.data) || fresh(buffer.data))
    ensures Wrote(EncPrim(p, v), r, old(buffer.Contents()), buffer.Contents())
  {
    match p
    case BigInt(size, signed) =>
      r := SerializeBig(size, signed, buffer, v);
    case Name =>
      if !v.Str? {
        return Failure(BadName);
      }
      r := buffer.PushName(v.s);
    case Bytes(asBlob) =>
      r := SerializeBytes(asBlob, buffer, v);
    case Checksum(size) =>
      if !v.Str? {
        return Failure(WrongType);
      }
      var b := EosHex.FromHex(v.s);
      if b.None? {
        return Failure(BadHex);
      }
      r := buffer.PushUint8ArrayChecked(b.value, size);
    case _ =>
      r := SerializeNumber(p, buffer, v);
  }

  method DeserializeFixed(size: nat, signed: bool, buffer: SerialBuffer) returns (r: Result<int, SerialError>)
    requires IsPrim(FixedInt(size, signed)) && buffer.Valid()
    modifies buffer`readPos
    ensures buffer.Valid() && old(buffer.readPos) <= buffer.readPos
    ensures Reads(ReadFixed(old(buffer.Unread()), size, signed), r, buffer.Unread())
  {
    ghost var s := buffer.Unread();
    if size == 1 {
      var b :- buffer.Get();
      assert s[..1] == [b] && s[1..] == buffer.Unread();
      LoadOne([b]);
      return Success(if signed then Sar(Shl(b, 24), 24) else b);
    } else if size == 2 {
      var n :- buffer.GetUint16();
      LoadTwo(s[..2]);
      return Success(if signed then Sar(Shl(n, 16), 16) else n);
    } else {
      var n :- buffer.GetUint32();
      LoadFour(s[..4]);
      return Success(if signed then ToInt32(n) else n);
    }
  }

  method DeserializeBig(size: nat, signed: bool, buffer: SerialBuffer) returns (r: Result<Value, SerialError>)
    requires IsPrim(BigInt(size, signed)) && buffer.Valid()
    modifies buffer`readPos
    ensures buffer.Valid() && old(buffer.readPos) <= buffer.readPos
    ensures Reads(DecPrim(BigInt(size, signed), old(buffer.Unread())), r, buffer.Unread())
  {
    var b :- buffer.GetUint8Array(size);
    var s: string;
    if signed {
      s := SignedBinaryToDecimal(b);
    } else {
      s := BinaryToDecimal(b);
    }
    return Success(Str(s));
  }

  method DeserializePrim(p: Prim, buffer: SerialBuffer) returns (r: Result<Value, SerialError>)
    requires IsPrim(p) && buffer.Valid()
    modifies buffer`readPos
    ensures buffer.Valid() && old(buffer.readPos) <= buffer.readPos
    ensures Reads(DecPrim(p, old(buffer.Unread())), r, buffer.Unread())
  {
    match p
    case BoolT =>
      var b :- buffer.Get();
      return Success(Bool(b != 0));
    case FixedInt(size, signed) =>
      ghost var s := buffer.Unread();
      var n :- DeserializeFixed(size, signed, buffer);
      LoadedBound(s[..size], signed);
      return Success(Num(n));
    case VarUint32 =>
      var n :- buffer.GetVaruint32();
      return Success(Num(n));
    case VarInt32 =>
      var n :- buffer.GetVarint32();
      return Success(Num(n));
    case BigInt(size, signed) =>
      r := DeserializeBig(size, signed, buffer);
    case Name =>
      var s :- buffer.GetName();
      return Success(Str(s));
    case Bytes(asBlob) =>
      var b :- buffer.GetBytes();
      return Success(ShowBlob(asBlob, b));
    case Checksum(size) =>
      var b :- buffer.GetUint8Array(size);
      return Success(Str(EosHex.ToHex(b)));
  }

  // ---- serializers

  method Serialize(t: Type, buffer: SerialBuffer, v: Value, state: SerializerState, allow: bool)
    returns (r: Result<(), SerialError>)
    requires WellFormed(t) && buffer.Valid() && buffer.Growable()
    modifies buffer`data, buffer`length, buffer.data, state
    ensures buffer.Valid() && buffer.Growable() && (buffer.data == old(buffer.data) || fresh(buffer.data))
    ensures var w := Write(t, v, old(state.skippedBinaryExtension), allow);
      && Wrote(BytesOf(w), r, old(buffer.Contents()), buffer.Contents())
      && (w.Success? ==> state.skippedBinaryExtension == w.value.skipped)
    decreases t, 1
  {
    match t
    case Primitive(p) =>
      r := SerializePrim(p, buffer, v);
    case ArrayOf(e) =>
      r := SerializeArray(e, buffer, v, state, allow);
    case OptionalOf(e) =>
      if v.Null? {
        PushOne(buffer, 0);
        return Success(());
      }
      ghost var before := buffer.Contents();
      PushOne(buffer, 1);
      r := Serialize(e, buffer, v, state, allow);
      AfterPrefix(before, [1], BytesOf(Write(e, v, old(state.skippedBinaryExtension), allow)), r, buffer.Contents());
    case ExtensionOf(e) =>
      r := Serialize(e, buffer, v, state, allow);
    case Variant(fs) =>
      r := SerializeVariant(fs, buffer, v, state, allow);
    case Struct(base, fs) =>
      r := SerializeStruct(base, fs, buffer, v, state, allow);
  }

  /** A single byte in front of a type's own bytes. */
  method PushOne(buffer: SerialBuffer, b: byte)
    requires buffer.Valid() && buffer.Growable()
    modifies buffer`data, buffer`length, buffer.data
    ensures buffer.Valid() && buffer.Growable() && (buffer.data == old(buffer.data) || fresh(buffer.data))
    ensures buffer.Contents() == old(buffer.Contents()) + [b]
  {
    BytesStay([b]);
    buffer.Push([b]);
  }

  lemma {:induction false} AfterPrefix(before: seq<byte>, prefix: seq<byte>, spec: Result<seq<byte>, SerialError>,
                                       r: Result<(), SerialError>, after: seq<byte>)
    requires Wrote(spec, r, before + prefix, after)
    ensures Wrote(if spec.Success? then Success(prefix + spec.value) else spec, r, before, after)
  {
    if spec.Success? {
      ConcatAssoc(before, prefix, spec.value);
    }
  }

  method SerializeVariant(fs: seq<Field>, buffer: SerialBuffer, v: Value, state: SerializerState, allow: bool)
    returns (r: Result<(), SerialError>)
    requires WellFormedFields(fs) && buffer.Valid() && buffer.Growable()
    modifies buffer`data, buffer`length, buffer.data, state
    ensures buffer.Valid() && buffer.Growable() && (buffer.data == old(buffer.data) || fresh(buffer.data))
    ensures var w := Write(Variant(fs), v, old(state.skippedBinaryExtension), allow);
      && Wrote(BytesOf(w), r, old(buffer.Contents()), buffer.Contents())
      && (w.Success? ==> state.skippedBinaryExtension == w.value.skipped)
    decreases Variant(fs), 0
  {
    hide Write, Wrote, WellFormed, WellFormedFields, ToUint32;
    VariantWrite(fs, v, state.skippedBinaryExtension, allow);
    if !(v.List? && |v.items| == 2 && v.items[0].Str?) {
      NothingWrote(buffer.Contents(), WrongType);
      return Failure(WrongType);
    }
    var found := FindOption(fs, v.items[0].s);
    if found.None? {
      NothingWrote(buffer.Contents(), NoSuchOption);
      return Failure(NoSuchOption);
    }
    var i := found.value;
    if i >= 0x1_0000_0000 {
      NothingWrote(buffer.Contents(), TooLong);
      return Failure(TooLong);
    }
    WellFormedAt(fs, i);
    SelfWord(i);
    ghost var before := buffer.Contents();
    buffer.PushVaruint32(i);
    r := Serialize(fs[i].ty, buffer, v.items[1], state, allow);
    AfterPrefix(before, Leb128.Encode(i),
                BytesOf(Write(fs[i].ty, v.items[1], old(state.skippedBinaryExtension), allow)), r, buffer.Contents());
  }

  lemma {:induction false} VariantWrite(fs: seq<Field>, v: Value, skipped: bool, allow: bool)
    ensures var i := Chosen(fs, v); var w := Write(Variant(fs), v, skipped, allow);
      if !(v.List? && |v.items| == 2 && v.items[0].Str?) then w == Failure(WrongType)
      else if i.None? then w == Failure(NoSuchOption)
      else if i.value >= 0x1_0000_0000 then w == Failure(TooLong)
      else
        var x := Write(fs[i.value].ty, v.items[1], skipped, allow);
        w == if x.Failure? then x else Success(Written(Leb128.Encode(i.value) + x.value.bytes, x.value.skipped))
  {
  }

  lemma NothingWrote(before: seq<byte>, e: SerialError)
    ensures Wrote(Failure(e), Failure(e), before, before)
  {
  }

  method SerializeArray(e: Type, buffer: SerialBuffer, v: Value, state: SerializerState, allow: bool)
    returns (r: Result<(), SerialError>)
    requires WellFormed(e) && buffer.Valid() && buffer.Growable()
    modifies buffer`data, buffer`length, buffer.data, state
    ensures buffer.Valid() && buffer.Growable() && (buffer.data == old(buffer.data) || fresh(buffer.data))
    ensures var w := Write(ArrayOf(e), v, old(state.skippedBinaryExtension), allow);
      && Wrote(BytesOf(w), r, old(buffer.Contents()), buffer.Contents())
      && (w.Success? ==> state.skippedBinaryExtension == w.value.skipped)
    decreases ArrayOf(e), 0
  {
    if !v.List? {
      return Failure(WrongType);
    }
    if |v.items| >= 0x1_0000_0000 {
      return Failure(TooLong);
    }
    SelfWord(|v.items|);
    ghost var before := buffer.Contents();
    buffer.PushVaruint32(|v.items|);
    ghost var all := WriteItems(e, v.items, state.skippedBinaryExtension);
    r := SerializeItems(e, buffer, v.items, state);
    AfterPrefix(before, Leb128.Encode(|v.items|), BytesOf(all), r, buffer.Contents());
  }

  method SerializeItems(e: Type, buffer: SerialBuffer, items: seq<Value>, state: SerializerState)
    returns (r: Result<(), SerialError>)
    requires WellFormed(e) && buffer.Valid() && buffer.Growable()
    modifies buffer`data, buffer`length, buffer.data, state
    ensures buffer.Valid() && buffer.Growable() && (buffer.data == old(buffer.data) || fresh(buffer.data))
    ensures var w := WriteItems(e, items, old(state.skippedBinaryExtension));
      && Wrote(BytesOf(w), r, old(buffer.Contents()), buffer.Contents())
      && (w.Success? ==> state.skippedBinaryExtension == w.value.skipped)
    decreases e, 2
  {
    ghost var all := WriteItems(e, items, state.skippedBinaryExtension);
    ghost var start := buffer.Contents();
    assert items[0..] == items;
    for i := 0 to |items|
      invariant buffer.Valid() && buffer.Growable()
      invariant buffer.data == old(buffer.data) || fresh(buffer.data)
      invariant start <= buffer.Contents()
      invariant Continues(start, all, buffer.Contents(), WriteItems(e, items[i..], state.skippedBinaryExtension))
    {
      ghost var rest := WriteItems(e, items[i..], state.skippedBinaryExtension);
      ghost var w := Write(e, items[i], state.skippedBinaryExtension, false);
      ghost var now := buffer.Contents();
      assert items[i..][0] == items[i] && items[i..][1..] == items[i + 1..];
      r := Serialize(e, buffer, items[i], state, false);
      if r.Failure? {
        return;
      }
      ContinueStep(start, all, now, rest, w.value.bytes, WriteItems(e, items[i + 1..], state.skippedBinaryExtension));
    }
    return Success(());
  }

  /** In the middle of a run: what is written so far and what `rest` will write make up `all`. */
  ghost predicate Continues(start: seq<byte>, all: Result<Written, SerialError>, now: seq<byte>, rest: Result<Written, SerialError>) {
    if all.Success? then
      rest.Success? && start + all.value.bytes == now + rest.value.bytes && all.value.skipped == rest.value.skipped
    else rest == all
  }

  lemma {:induction false} ContinueStep(start: seq<byte>, all: Result<Written, SerialError>, now: seq<byte>,
                                        rest: Result<Written, SerialError>, done: seq<byte>, rest': Result<Written, SerialError>)
    requires Continues(start, all, now, rest)
    requires rest == if rest'.Failure? then rest' else Success(Written(done + rest'.value.bytes, rest'.value.skipped))
    ensures Continues(start, all, now + done, rest')
  {
    if rest'.Success? {
      ConcatAssoc(now, done, rest'.value.bytes);
    }
  }

  method SerializeStruct(base: Option<Type>, fs: seq<Field>, buffer: SerialBuffer, v: Value,
                         state: SerializerState, allow: bool)
    returns (r: Result<(), SerialError>)
    requires WellFormed(Struct(base, fs)) && buffer.Valid() && buffer.Growable()
    modifies buffer`data, buffer`length, buffer.data, state
    ensures buffer.Valid() && buffer.Growable() && (buffer.data == old(buffer.data) || fresh(buffer.data))
    ensures var w := Write(Struct(base, fs), v, old(state.skippedBinaryExtension), allow);
      && Wrote(BytesOf(w), r, old(buffer.Contents()), buffer.Contents())
      && (w.Success? ==> state.skippedBinaryExtension == w.value.skipped)
    decreases Struct(base, fs), 0
  {
    if v.Bool? || v.Num? || v.Str? {
      return Failure(WrongType);
    }
    ghost var before := buffer.Contents();
    ghost var b: Written := Written([], state.skippedBinaryExtension);
    if base.Some? {
      r := Serialize(base.value, buffer, v, state, allow);
      if r.Failure? {
        return;
      }
      b := Write(base.value, v, old(state.skippedBinaryExtension), allow).value;
    }
    assert buffer.Contents() == before + b.bytes;
    ghost var all := WriteFields(fs, v, state.skippedBinaryExtension, allow);
    r := SerializeFields(fs, buffer, v, state, allow);
    AfterPrefix(before, b.bytes, BytesOf(all), r, buffer.Contents());
  }

  /** The loop over the struct's own fields. */
  method SerializeFields(fs: seq<Field>, buffer: SerialBuffer, v: Value, state: SerializerState, allow: bool)
    returns (r: Result<(), SerialError>)
    requires WellFormedFields(fs) && buffer.Valid() && buffer.Growable()
    modifies buffer`data, buffer`length, buffer.data, state
    ensures buffer.Valid() && buffer.Growable() && (buffer.data == old(buffer.data) || fresh(buffer.data))
    ensures var w := WriteFields(fs, v, old(state.skippedBinaryExtension), allow);
      && Wrote(BytesOf(w), r, old(buffer.Contents()), buffer.Contents())
      && (w.Success? ==> state.skippedBinaryExtension == w.value.skipped)
    decreases fs
  {
    ghost var start := buffer.Contents();
    ghost var all := WriteFields(fs, v, state.skippedBinaryExtension, allow);
    assert fs[0..] == fs;
    for i := 0 to |fs|
      invariant buffer.Valid() && buffer.Growable()
      invariant buffer.data == old(buffer.data) || fresh(buffer.data)
      invariant start <= buffer.Contents()
      invariant Continues(start, all, buffer.Contents(), WriteFields(fs[i..], v, state.skippedBinaryExtension, allow))
    {
      var f := fs[i];
      ghost var now := buffer.Contents();
      ghost var rest := WriteFields(fs[i..], v, state.skippedBinaryExtension, allow);
      assert fs[i..][0] == f && fs[i..][1..] == fs[i + 1..];
      WellFormedAt(fs, i);
      if v.Null? {
        return Failure(NotAnObject);
      }
      var x := Property(v, f.name);
      if x.Some? {
        if state.skippedBinaryExtension {
          return Failure(UnexpectedField(f.name));
        }
        ghost var w := Write(f.ty, x.value, false, allow && |fs[i..]| == 1);
        r := Serialize(f.ty, buffer, x.value, state, allow && i == |fs| - 1);
        if r.Failure? {
          return;
        }
        ContinueStep(start, all, now, rest, w.value.bytes, WriteFields(fs[i + 1..], v, state.skippedBinaryExtension, allow));
      } else if allow && f.ty.ExtensionOf? {
        state.skippedBinaryExtension := true;
      } else {
        return Failure(MissingField(f.name));
      }
    }
    return Success(());
  }

  // ---- deserializers

  method Deserialize(t: Type, buffer: SerialBuffer, state: SerializerState, allow: bool)
    returns (r: Result<Value, SerialError>)
    requires WellFormed(t) && buffer.Valid()
    modifies buffer`readPos, state
    ensures buffer.Valid() && old(buffer.readPos) <= buffer.readPos
    ensures Reads(Take(t, old(buffer.Unread()), allow), r, buffer.Unread())
    decreases t, 1
  {
    match t
    case Primitive(p) =>
      r := DeserializePrim(p, buffer);
    case ArrayOf(e) =>
      r := DeserializeArray(e, buffer, state, allow);
    case OptionalOf(e) =>
      var b :- buffer.Get();
      if b != 0 {
        r := Deserialize(e, buffer, state, allow);
      } else {
        r := Success(Null);
      }
    case ExtensionOf(e) =>
      r := Deserialize(e, buffer, state, allow);
    case Variant(fs) =>
      var i :- buffer.GetVaruint32();
      if i >= |fs| {
        return Failure(NoSuchOption);
      }
      WellFormedAt(fs, i);
      var x :- Deserialize(fs[i].ty, buffer, state, allow);
      r := Success(List([Str(fs[i].name), x]));
    case Struct(base, fs) =>
      var result := Obj(map[]);
      if base.Some? {
        result :- Deserialize(base.value, buffer, state, allow);
      }
      r := DeserializeFields(fs, result, buffer, state, allow);
  }

  method DeserializeArray(e: Type, buffer: SerialBuffer, state: SerializerState, allow: bool)
    returns (r: Result<Value, SerialError>)
    requires WellFormed(e) && buffer.Valid()
    modifies buffer`readPos, state
    ensures buffer.Valid() && old(buffer.readPos) <= buffer.readPos
    ensures Reads(Take(ArrayOf(e), old(buffer.Unread()), allow), r, buffer.Unread())
    decreases ArrayOf(e), 0
  {
    var len :- buffer.GetVaruint32();
    var items :- DeserializeItems(e, len, buffer, state);
    return Success(List(items));
  }

  method DeserializeItems(e: Type, len: nat, buffer: SerialBuffer, state: SerializerState)
    returns (r: Result<seq<Value>, SerialError>)
    requires WellFormed(e) && buffer.Valid()
    modifies buffer`readPos, state
    ensures buffer.Valid() && old(buffer.readPos) <= buffer.readPos
    ensures Reads(TakeItems(e, old(buffer.Unread()), len), r, buffer.Unread())
    decreases e, 2
  {
    hide Take, WellFormed;
    ghost var all := TakeItems(e, buffer.Unread(), len);
    var result: seq<Value> := [];
    ghost var left := len;
    for i := 0 to len
      invariant left == len - i
      invariant buffer.Valid() && old(buffer.readPos) <= buffer.readPos
      invariant Collects(all, result, TakeItems(e, buffer.Unread(), left))
    {
      ghost var rest := TakeItems(e, buffer.Unread(), left);
      var x := Deserialize(e, buffer, state, false);
      if x.Failure? {
        assert rest == Failure(x.error);
        return Failure(x.error);
      }
      CollectStep(all, result, rest, x.value, TakeItems(e, buffer.Unread(), left - 1));
      result := result + [x.value];
      left := left - 1;
    }
    assert left == 0 && result + [] == result;
    return Success(result);
  }

  /** In the middle of an array: the items so far and those that `rest` will read make up `all`. */
  ghost predicate Collects(all: Result<Read<seq<Value>>, SerialError>, done: seq<Value>,
                           rest: Result<Read<seq<Value>>, SerialError>) {
    if all.Success? then
      rest.Success? && all.value.value == done + rest.value.value && all.value.rest == rest.value.rest
    else rest == all
  }

  lemma {:induction false} CollectStep(all: Result<Read<seq<Value>>, SerialError>, done: seq<Value>,
                                       rest: Result<Read<seq<Value>>, SerialError>, x: Value,
                                       rest': Result<Read<seq<Value>>, SerialError>)
    requires Collects(all, done, rest)
    requires rest == if rest'.Failure? then rest' else Success(Read([x] + rest'.value.value, rest'.value.rest))
    ensures Collects(all, done + [x], rest')
  {
    if rest'.Success? {
      AppendStep(done, x, rest'.value.value);
    }
  }

  /** The loop over a struct's own fields. */
  method DeserializeFields(fs: seq<Field>, base: Value, buffer: SerialBuffer, state: SerializerState, allow: bool)
    returns (r: Result<Value, SerialError>)
    requires WellFormedFields(fs) && buffer.Valid()
    modifies buffer`readPos, state
    ensures buffer.Valid() && old(buffer.readPos) <= buffer.readPos
    ensures Reads(TakeFields(fs, old(buffer.Unread()), base, allow), r, buffer.Unread())
    decreases fs
  {
    var result := base;
    ghost var all := TakeFields(fs, buffer.Unread(), base, allow);
    assert fs[0..] == fs;
    for i := 0 to |fs|
      invariant buffer.Valid() && old(buffer.readPos) <= buffer.readPos
      invariant WellFormedFields(fs[i..])
      invariant TakeFields(fs[i..], buffer.Unread(), result, allow) == all
    {
      var f := fs[i];
      assert fs[i..][0] == f && fs[i..][1..] == fs[i + 1..];
      var more := buffer.HaveReadData();
      if allow && f.ty.ExtensionOf? && !more {
        state.skippedBinaryExtension := true;
      } else {
        var x :- Deserialize(f.ty, buffer, state, allow);
        result :- SetProperty(result, f.name, x);
      }
    }
    return Success(result);
  }

  // ---- one run

  /** Serializing into a new buffer and reading it back. */
  method RoundTripRun(t: Type, v: Value) returns (bytes: seq<byte>, r: Result<Value, SerialError>)
    requires WellFormed(t)
    ensures Write(t, v, false, true).Success? ==>
      && bytes == Write(t, v, false, true).value.bytes
      && r == Success(Returned(t, v, true, true, true))
    ensures Write(t, v, false, true).Success? && DistinctNames(t) && !Lossy(t, v) ==>
      r.Success? && Agrees(t, v, r.value)
    ensures Write(t, v, false, true).Failure? ==> r == Failure(Write(t, v, false, true).error)
  {
    var buffer := new SerialBuffer();
    var state := new SerializerState();
    var written := Serialize(t, buffer, v, state, true);
    bytes := buffer.AsUint8Array();
    if written.Failure? {
      return bytes, Failure(written.error);
    }
    assert bytes == [] + Write(t, v, false, true).value.bytes == Write(t, v, false, true).value.bytes;
    RoundTrip(t, v, true, true, []);
    assert bytes + [] == bytes;
    var reading := new SerializerState();
    assert buffer.Unread() == bytes;
    r := Deserialize(t, buffer, reading, true);
    if DistinctNames(t) && !Lossy(t, v) {
      LosslessKeeps(t, v, true, true);
      ReturnedAgrees(t, v, true, true);
    }
  }

  /** A value on a new buffer. */
  method Encoded(t: Type, v: Value) returns (r: Result<seq<byte>, SerialError>)
    requires WellFormed(t)
    ensures r == BytesOf(Write(t, v, false, true))
  {
    hide Write, WellFormed;
    var buffer := new SerialBuffer();
    var state := new SerializerState();
    var written := Serialize(t, buffer, v, state, true);
    if written.Failure? {
      return Failure(written.error);
    }
    var bytes := buffer.AsUint8Array();
    var due := Write(t, v, false, true).value.bytes;
    assert [] + due == due;
    return Success(bytes);
  }

  /** The value at the front of an array. */
  method Decoded(t: Type, bytes: array<byte>) returns (r: Result<Value, SerialError>)
    requires WellFormed(t)
    ensures var took := Take(t, bytes[..], true);
      r == if took.Failure? then Failure(took.error) else Success(took.value.value)
  {
    hide Take, WellFormed;
    var buffer := new SerialBuffer.FromArray(bytes);
    var state := new SerializerState();
    r := Deserialize(t, buffer, state, true);
  }

  /** Deserializing bytes and serializing the result anew: the bytes that were read come out again if and only if they
      are canonical. */
  method RewriteRun(t: Type, bytes: array<byte>) returns (r: Result<seq<byte>, SerialError>)
    requires WellFormed(t)
    ensures Take(t, bytes[..], true).Failure? ==> r == Failure(Take(t, bytes[..], true).error)
    ensures Take(t, bytes[..], true).Success? && DistinctNames(t) && DistinctOptions(t) ==>
      (r.Success? && r.value + Take(t, bytes[..], true).value.rest == bytes[..] <==> Canonical(t, bytes[..], true, true))
  {
    hide Take, Write, Canonical, DistinctNames, DistinctOptions, WellFormed;
    var v := Decoded(t, bytes);
    if v.Failure? {
      return Failure(v.error);
    }
    if DistinctNames(t) && DistinctOptions(t) {
      RestoredExactly(t, bytes[..], true, true);
    }
    r := Encoded(t, v.value);
  }
}
