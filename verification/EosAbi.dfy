/**
 * The type-directed serializer and deserializer of packages/coin-eos/src/serialize.ts
 * (struct, variant, array, optional and binary-extension types), as functions on values and
 * bytes. A type is the finite tree that `getType` resolves a type name to.
 */
module EosAbi {
  import opened Wrappers
  import Leb128
  import opened EosSerial

  datatype Field = Field(name: string, ty: Type)

  datatype Type =
    | Primitive(p: Prim)
    | ArrayOf(elem: Type)
    | OptionalOf(elem: Type)
    | ExtensionOf(elem: Type)
    | Variant(options: seq<Field>)
    | Struct(base: Option<Type>, fields: seq<Field>)

  /** Only registered primitive types occur. */
  predicate WellFormed(t: Type)
    decreases t, 0
  {
    match t
    case Primitive(p) => IsPrim(p)
    case ArrayOf(e) => WellFormed(e)
    case OptionalOf(e) => WellFormed(e)
    case ExtensionOf(e) => WellFormed(e)
    case Variant(fs) => WellFormedFields(fs)
    case Struct(b, fs) => (b.Some? ==> WellFormed(b.value)) && WellFormedFields(fs)
  }

  predicate WellFormedFields(fs: seq<Field>)
    decreases fs, 1
  {
    fs == [] || (WellFormed(fs[0].ty) && WellFormedFields(fs[1..]))
  }

  // ---- writing

  /** Bytes appended, and `state.skippedBinaryExtension` afterwards. */
  datatype Written = Written(bytes: seq<byte>, skipped: bool)

  /** `data[name]`, if the object has that property. */
  function Property(v: Value, name: string): Option<Value> {
    if v.Obj? && name in v.fields then Some(v.fields[name]) else None
  }

  /** The first option with the given name. */
  function FindOption(fs: seq<Field>, name: string): (r: Option<nat>)
    ensures r.Some? ==> r.value < |fs| && fs[r.value].name == name
    decreases |fs|
  {
    if fs == [] then None
    else if fs[0].name == name then Some(0)
    else
      match FindOption(fs[1..], name)
      case None => None
      case Some(i) => Some(i + 1)
  }

  function Write(t: Type, v: Value, skipped: bool, allow: bool): Result<Written, SerialError>
    decreases t, 0
  {
    match t
    case Primitive(p) =>
      var b := EncPrim(p, v);
      if b.Failure? then Failure(b.error) else Success(Written(b.value, skipped))
    case ArrayOf(e) =>
      if !v.List? then Failure(WrongType)
      else if |v.items| >= 0x1_0000_0000 then Failure(TooLong)
      else
        var w := WriteItems(e, v.items, skipped);
        if w.Failure? then w else Success(Written(Leb128.Encode(|v.items|) + w.value.bytes, w.value.skipped))
    case OptionalOf(e) =>
      if v.Null? then Success(Written([0], skipped))
      else
        var w := Write(e, v, skipped, allow);
        if w.Failure? then w else Success(Written([1] + w.value.bytes, w.value.skipped))
    case ExtensionOf(e) => Write(e, v, skipped, allow)
    case Variant(fs) =>
      if !(v.List? && |v.items| == 2 && v.items[0].Str?) then Failure(WrongType)
      else
        var i := FindOption(fs, v.items[0].s);
        if i.None? then Failure(NoSuchOption)
        else if i.value >= 0x1_0000_0000 then Failure(TooLong)
        else
          var w := Write(fs[i.value].ty, v.items[1], skipped, allow);
          if w.Failure? then w else Success(Written(Leb128.Encode(i.value) + w.value.bytes, w.value.skipped))
    case Struct(base, fs) =>
      if v.Bool? || v.Num? || v.Str? then Failure(WrongType)
      else
        var b := if base.Some? then Write(base.value, v, skipped, allow) else Success(Written([], skipped));
        if b.Failure? then b
        else
          var w := WriteFields(fs, v, b.value.skipped, allow);
          if w.Failure? then w else Success(Written(b.value.bytes + w.value.bytes, w.value.skipped))
  }

  /** The items of an array; extensions may not be skipped inside. */
  function WriteItems(e: Type, items: seq<Value>, skipped: bool): Result<Written, SerialError>
    decreases e, 1, |items|
  {
    if items == [] then Success(Written([], skipped))
    else
      var w := Write(e, items[0], skipped, false);
      if w.Failure? then w
      else
        var rest := WriteItems(e, items[1..], w.value.skipped);
        if rest.Failure? then rest else Success(Written(w.value.bytes + rest.value.bytes, rest.value.skipped))
  }

  /** The fields of a struct from the first of `fs` on. Only the last may pass the permission to skip on. */
  function WriteFields(fs: seq<Field>, v: Value, skipped: bool, allow: bool): Result<Written, SerialError>
    decreases fs, 1
  {
    if fs == [] then Success(Written([], skipped))
    else if v.Null? then Failure(NotAnObject)
    else
      var f := fs[0];
      match Property(v, f.name)
      case Some(x) =>
        if skipped then Failure(UnexpectedField(f.name))
        else
          var w := Write(f.ty, x, skipped, allow && |fs| == 1);
          if w.Failure? then w
          else
            var rest := WriteFields(fs[1..], v, w.value.skipped, allow);
            if rest.Failure? then rest else Success(Written(w.value.bytes + rest.value.bytes, rest.value.skipped))
      case None =>
        if allow && f.ty.ExtensionOf? then WriteFields(fs[1..], v, true, allow)
        else Failure(MissingField(f.name))
  }

  // ---- reading

  /** A field stored in the result object; storing into anything else throws. */
  function SetProperty(v: Value, name: string, x: Value): Result<Value, SerialError> {
    if v.Obj? then Success(Obj(v.fields[name := x])) else Failure(NotAnObject)
  }

  /** Deserialization from the unread bytes `s`. */
  function Take(t: Type, s: seq<byte>, allow: bool): (r: Result<Read<Value>, SerialError>)
    requires WellFormed(t)
    decreases t, 0
  {
    match t
    case Primitive(p) => DecPrim(p, s)
    case ArrayOf(e) =>
      var k := ReadVaruint32(s);
      if k.Failure? then Failure(k.error)
      else
        var r := TakeItems(e, k.value.rest, k.value.value);
        if r.Failure? then Failure(r.error) else Success(Read(List(r.value.value), r.value.rest))
    case OptionalOf(e) =>
      var b := ReadByte(s);
      if b.Failure? then Failure(b.error)
      else if b.value.value != 0 then Take(e, b.value.rest, allow)
      else Success(Read(Null, b.value.rest))
    case ExtensionOf(e) => Take(e, s, allow)
    case Variant(fs) =>
      var k := ReadVaruint32(s);
      if k.Failure? then Failure(k.error)
      else if k.value.value >= |fs| then Failure(NoSuchOption)
      else
        WellFormedAt(fs, k.value.value);
        var f := fs[k.value.value];
        var r := Take(f.ty, k.value.rest, allow);
        if r.Failure? then r else Success(Read(List([Str(f.name), r.value.value]), r.value.rest))
    case Struct(base, fs) =>
      var b := if base.Some? then Take(base.value, s, allow) else Success(Read(Obj(map[]), s));
      if b.Failure? then b else TakeFields(fs, b.value.rest, b.value.value, allow)
  }

  function TakeItems(e: Type, s: seq<byte>, n: nat): Result<Read<seq<Value>>, SerialError>
    requires WellFormed(e)
    decreases e, 1, n
  {
    if n == 0 then Success(Read([], s))
    else
      var r := Take(e, s, false);
      if r.Failure? then Failure(r.error)
      else
        var rest := TakeItems(e, r.value.rest, n - 1);
        if rest.Failure? then rest else Success(Read([r.value.value] + rest.value.value, rest.value.rest))
  }

  /** Fields are read into `acc`; an extension at the end of the data is left out. */
  function TakeFields(fs: seq<Field>, s: seq<byte>, acc: Value, allow: bool): Result<Read<Value>, SerialError>
    requires WellFormedFields(fs)
    decreases fs, 1
  {
    if fs == [] then Success(Read(acc, s))
    else if allow && fs[0].ty.ExtensionOf? && s == [] then TakeFields(fs[1..], s, acc, allow)
    else
      var r := Take(fs[0].ty, s, allow);
      if r.Failure? then r
      else
        var acc' := SetProperty(acc, fs[0].name, r.value.value);
        if acc'.Failure? then Failure(acc'.error) else TakeFields(fs[1..], r.value.rest, acc'.value, allow)
  }

  lemma {:induction false} WellFormedAt(fs: seq<Field>, i: nat)
    requires WellFormedFields(fs) && i < |fs|
    ensures WellFormed(fs[i].ty)
    decreases |fs|
  {
    if i > 0 {
      WellFormedAt(fs[1..], i - 1);
    }
  }

  // ---- the value that comes back

  /**
   * The normal form of an accepted value: primitives in canonical form, absent optionals as
   * null, objects restricted to the declared fields. `end` says that nothing follows the value
   * in the buffer, and `allow` is the reader's permission: a present extension is then lost if
   * its encoding and all that follows it are empty, because the reader sees no data.
   */
  ghost function Returned(t: Type, v: Value, writerAllow: bool, allow: bool, end: bool): Value
    requires Write(t, v, false, writerAllow).Success?
    decreases t, 0
  {
    match t
    case Primitive(p) => CanonPrim(p, v)
    case ArrayOf(e) => List(ReturnedItems(e, v.items))
    case OptionalOf(e) => if v.Null? then Null else Returned(e, v, writerAllow, allow, end)
    case ExtensionOf(e) => Returned(e, v, writerAllow, allow, end)
    case Variant(fs) =>
      var i := FindOption(fs, v.items[0].s).value;
      List([v.items[0], Returned(fs[i].ty, v.items[1], writerAllow, allow, end)])
    case Struct(base, fs) =>
      if base.Some? then
        var b := Write(base.value, v, false, writerAllow).value;
        var tail := WriteFields(fs, v, b.skipped, writerAllow).value.bytes;
        ReturnedFields(fs, v, Returned(base.value, v, writerAllow, allow, end && tail == []), b.skipped, writerAllow, allow, end)
      else ReturnedFields(fs, v, Obj(map[]), false, writerAllow, allow, end)
  }

  ghost function ReturnedItems(e: Type, items: seq<Value>): (r: seq<Value>)
    requires WriteItems(e, items, false).Success?
    ensures |r| == |items|
    decreases e, 1, |items|
  {
    if items == [] then []
    else
      WriteItemsKeepsFlag(e, items);
      [Returned(e, items[0], false, false, false)] + ReturnedItems(e, items[1..])
  }

  ghost function ReturnedFields(fs: seq<Field>, v: Value, acc: Value, skipped: bool,
                                writerAllow: bool, allow: bool, end: bool): Value
    requires WriteFields(fs, v, skipped, writerAllow).Success?
    decreases fs, 1
  {
    if fs == [] then acc
    else
      var f := fs[0];
      match Property(v, f.name)
      case None => ReturnedFields(fs[1..], v, acc, true, writerAllow, allow, end)
      case Some(x) =>
        var last := writerAllow && |fs| == 1;
        var w := Write(f.ty, x, false, last).value;
        var tail := WriteFields(fs[1..], v, w.skipped, writerAllow).value.bytes;
        var acc' :=
          if allow && f.ty.ExtensionOf? && end && w.bytes + tail == [] then acc
          else if acc.Obj? then Obj(acc.fields[f.name := Returned(f.ty, x, last, allow, end && tail == [])])
          else acc;
        ReturnedFields(fs[1..], v, acc', w.skipped, writerAllow, allow, end)
  }

  // ---- the skip flag

  /** Without permission nothing is skipped. */
  lemma {:induction false} WriteKeepsFlag(t: Type, v: Value, skipped: bool)
    ensures Write(t, v, skipped, false).Success? ==> Write(t, v, skipped, false).value.skipped == skipped
    decreases t, 0
  {
    if Write(t, v, skipped, false).Success? {
      match t
      case Primitive(p) =>
      case ArrayOf(e) => WriteItemsFlag(e, v.items, skipped);
      case OptionalOf(e) => if !v.Null? { WriteKeepsFlag(e, v, skipped); }
      case ExtensionOf(e) => WriteKeepsFlag(e, v, skipped);
      case Variant(fs) => WriteKeepsFlag(fs[FindOption(fs, v.items[0].s).value].ty, v.items[1], skipped);
      case Struct(base, fs) =>
        if base.Some? {
          WriteKeepsFlag(base.value, v, skipped);
        }
        WriteFieldsFlag(fs, v, skipped);
    }
  }

  lemma {:induction false} WriteItemsFlag(e: Type, items: seq<Value>, skipped: bool)
    ensures WriteItems(e, items, skipped).Success? ==> WriteItems(e, items, skipped).value.skipped == skipped
    decreases e, 1, |items|
  {
    if items != [] {
      WriteKeepsFlag(e, items[0], skipped);
      WriteItemsFlag(e, items[1..], skipped);
    }
  }

  lemma {:induction false} WriteFieldsFlag(fs: seq<Field>, v: Value, skipped: bool)
    ensures WriteFields(fs, v, skipped, false).Success? ==> WriteFields(fs, v, skipped, false).value.skipped == skipped
    decreases fs, 1
  {
    if fs != [] && Property(v, fs[0].name).Some? {
      WriteKeepsFlag(fs[0].ty, Property(v, fs[0].name).value, skipped);
      WriteFieldsFlag(fs[1..], v, skipped);
    }
  }

  lemma {:induction false} WriteItemsKeepsFlag(e: Type, items: seq<Value>)
    requires items != [] && WriteItems(e, items, false).Success?
    ensures Write(e, items[0], false, false).Success?
    ensures WriteItems(e, items[1..], false).Success?
    ensures WriteItems(e, items, false).value.bytes ==
            Write(e, items[0], false, false).value.bytes + WriteItems(e, items[1..], false).value.bytes
  {
    WriteKeepsFlag(e, items[0], false);
  }

  /** Once an extension is skipped, nothing more is written. */
  lemma {:induction false} NothingAfterSkip(fs: seq<Field>, v: Value, allow: bool)
    requires WriteFields(fs, v, true, allow).Success?
    ensures WriteFields(fs, v, true, allow).value == Written([], true)
    decreases |fs|
  {
    if fs != [] {
      NothingAfterSkip(fs[1..], v, allow);
    }
  }

  // ---- the round trip

  /** What an accepted object comes back as is an object, so derived fields can be stored in it. */
  lemma {:induction false} ReturnedObject(t: Type, v: Value, writerAllow: bool, allow: bool, end: bool)
    requires v.Obj? && Write(t, v, false, writerAllow).Success?
    ensures Returned(t, v, writerAllow, allow, end).Obj?
    decreases t, 0
  {
    match t
    case Primitive(p) => assert false;
    case OptionalOf(e) => ReturnedObject(e, v, writerAllow, allow, end);
    case ExtensionOf(e) => ReturnedObject(e, v, writerAllow, allow, end);
    case Struct(base, fs) =>
      var b := if base.Some? then Write(base.value, v, false, writerAllow).value else Written([], false);
      var tail := WriteFields(fs, v, b.skipped, writerAllow).value.bytes;
      if base.Some? {
        ReturnedObject(base.value, v, writerAllow, allow, end && tail == []);
        ReturnedFieldsObject(fs, v, Returned(base.value, v, writerAllow, allow, end && tail == []), b.skipped,
                             writerAllow, allow, end);
      } else {
        ReturnedFieldsObject(fs, v, Obj(map[]), false, writerAllow, allow, end);
      }
  }

  lemma {:induction false} ReturnedFieldsObject(fs: seq<Field>, v: Value, acc: Value, skipped: bool,
                                                writerAllow: bool, allow: bool, end: bool)
    requires acc.Obj? && WriteFields(fs, v, skipped, writerAllow).Success?
    ensures ReturnedFields(fs, v, acc, skipped, writerAllow, allow, end).Obj?
    decreases |fs|
  {
    if fs != [] {
      match Property(v, fs[0].name)
      case None => ReturnedFieldsObject(fs[1..], v, acc, true, writerAllow, allow, end);
      case Some(x) =>
        var f := fs[0];
        var last := writerAllow && |fs| == 1;
        var w := Write(f.ty, x, false, last).value;
        var tail := WriteFields(fs[1..], v, w.skipped, writerAllow).value.bytes;
        var acc' :=
          if allow && f.ty.ExtensionOf? && end && w.bytes + tail == [] then acc
          else Obj(acc.fields[f.name := Returned(f.ty, x, last, allow, end && tail == [])]);
        ReturnedFieldsObject(fs[1..], v, acc', w.skipped, writerAllow, allow, end);
    }
  }

  /**
   * The ABI round trip. Reading what the serializer accepted gives `Returned` and leaves exactly
   * the suffix: any suffix when no extension was skipped, and the end of the data when one was.
   * There is no condition on the type, on field names or on extension bodies.
   */
  lemma {:induction false} RoundTrip(t: Type, v: Value, writerAllow: bool, allow: bool, rest: seq<byte>)
    requires WellFormed(t) && Write(t, v, false, writerAllow).Success?
    requires writerAllow ==> allow
    requires Write(t, v, false, writerAllow).value.skipped ==> rest == []
    ensures Take(t, Write(t, v, false, writerAllow).value.bytes + rest, allow)
            == Success(Read(Returned(t, v, writerAllow, allow, rest == []), rest))
    decreases t, 1
  {
    var w := Write(t, v, false, writerAllow).value;
    match t
    case Primitive(p) =>
      PrimRoundTrip(p, v, rest);
    case ArrayOf(e) =>
      ItemsRoundTrip(e, v.items, rest);
      ArrayRoundTrip(e, v, writerAllow, allow, rest);
    case OptionalOf(e) =>
      if v.Null? {
        assert ([0] + rest)[1..] == rest;
      } else {
        var b := Write(e, v, false, writerAllow).value.bytes;
        ConcatAssoc([1], b, rest);
        assert ([1] + (b + rest))[1..] == b + rest;
        RoundTrip(e, v, writerAllow, allow, rest);
      }
    case ExtensionOf(e) =>
      RoundTrip(e, v, writerAllow, allow, rest);
    case Variant(fs) =>
      var i := FindOption(fs, v.items[0].s).value;
      WellFormedAt(fs, i);
      RoundTrip(fs[i].ty, v.items[1], writerAllow, allow, rest);
      VariantRoundTrip(fs, i, v, writerAllow, allow, rest);
    case Struct(base, fs) =>
      StructRoundTrip(t, v, writerAllow, allow, rest);
  }

  /** The length prefix of an array. */
  lemma {:induction false} ArrayRoundTrip(e: Type, v: Value, writerAllow: bool, allow: bool, rest: seq<byte>)
    requires WellFormed(e) && Write(ArrayOf(e), v, false, writerAllow).Success?
    requires TakeItems(e, WriteItems(e, v.items, false).value.bytes + rest, |v.items|)
             == Success(Read(ReturnedItems(e, v.items), rest))
    ensures Take(ArrayOf(e), Write(ArrayOf(e), v, false, writerAllow).value.bytes + rest, allow)
            == Success(Read(Returned(ArrayOf(e), v, writerAllow, allow, rest == []), rest))
  {
    var items := WriteItems(e, v.items, false).value.bytes;
    ConcatAssoc(Leb128.Encode(|v.items|), items, rest);
    ReadVaruint32Of(|v.items|, items + rest);
  }

  /** The index prefix of a variant. */
  lemma {:induction false} VariantRoundTrip(fs: seq<Field>, i: nat, v: Value, writerAllow: bool, allow: bool, rest: seq<byte>)
    requires WellFormedFields(fs) && Write(Variant(fs), v, false, writerAllow).Success?
    requires FindOption(fs, v.items[0].s) == Some(i) && WellFormed(fs[i].ty)
    requires Take(fs[i].ty, Write(fs[i].ty, v.items[1], false, writerAllow).value.bytes + rest, allow)
             == Success(Read(Returned(fs[i].ty, v.items[1], writerAllow, allow, rest == []), rest))
    ensures Take(Variant(fs), Write(Variant(fs), v, false, writerAllow).value.bytes + rest, allow)
            == Success(Read(Returned(Variant(fs), v, writerAllow, allow, rest == []), rest))
  {
    var b := Write(fs[i].ty, v.items[1], false, writerAllow).value.bytes;
    ConcatAssoc(Leb128.Encode(i), b, rest);
    ReadVaruint32Of(i, b + rest);
  }

  lemma {:induction false} StructRoundTrip(t: Type, v: Value, writerAllow: bool, allow: bool, rest: seq<byte>)
    requires t.Struct? && WellFormed(t) && Write(t, v, false, writerAllow).Success?
    requires writerAllow ==> allow
    requires Write(t, v, false, writerAllow).value.skipped ==> rest == []
    ensures Take(t, Write(t, v, false, writerAllow).value.bytes + rest, allow)
            == Success(Read(Returned(t, v, writerAllow, allow, rest == []), rest))
    decreases t, 0
  {
    var base, fs := t.base, t.fields;
    if base.None? {
      var tail := WriteFields(fs, v, false, writerAllow).value;
      assert [] + tail.bytes == tail.bytes;
      FieldsRoundTrip(fs, v, Obj(map[]), false, writerAllow, allow, rest);
    } else {
      var b := Write(base.value, v, false, writerAllow).value;
      var tail := WriteFields(fs, v, b.skipped, writerAllow).value;
      if b.skipped {
        NothingAfterSkip(fs, v, writerAllow);
      }
      ConcatAssoc(b.bytes, tail.bytes, rest);
      RoundTrip(base.value, v, writerAllow, allow, tail.bytes + rest);
      var acc := Returned(base.value, v, writerAllow, allow, rest == [] && tail.bytes == []);
      if v.Obj? {
        ReturnedObject(base.value, v, writerAllow, allow, rest == [] && tail.bytes == []);
      }
      FieldsRoundTrip(fs, v, acc, b.skipped, writerAllow, allow, rest);
    }
  }

  lemma {:induction false} ItemsRoundTrip(e: Type, items: seq<Value>, rest: seq<byte>)
    requires WellFormed(e) && WriteItems(e, items, false).Success?
    ensures TakeItems(e, WriteItems(e, items, false).value.bytes + rest, |items|)
            == Success(Read(ReturnedItems(e, items), rest))
    decreases e, 2, |items|
  {
    hide Take, Write, Returned, WriteItems, TakeItems, ReturnedItems;
    if items == [] {
      NoItems(e, rest);
    } else {
      WriteItemsKeepsFlag(e, items);
      WriteKeepsFlag(e, items[0], false);
      var w := Write(e, items[0], false, false).value.bytes;
      var tail := WriteItems(e, items[1..], false).value.bytes;
      assert Take(e, w + (tail + rest), false)
             == Success(Read(Returned(e, items[0], false, false, false), tail + rest)) by {
        RoundTrip(e, items[0], false, false, tail + rest);
        ReturnedEndFree(e, items[0], tail + rest == []);
      }
      ItemsRoundTrip(e, items[1..], rest);
      TakeItemsCons(e, |items|, w, tail, rest);
      ReturnedItemsCons(e, items);
    }
  }

  lemma NoItems(e: Type, rest: seq<byte>)
    requires WellFormed(e)
    ensures WriteItems(e, [], false) == Success(Written([], false)) && ReturnedItems(e, []) == []
    ensures TakeItems(e, [] + rest, 0) == Success(Read([], rest))
  {
    assert [] + rest == rest;
  }

  lemma {:induction false} ReturnedItemsCons(e: Type, items: seq<Value>)
    requires items != [] && WriteItems(e, items, false).Success?
    requires Write(e, items[0], false, false).Success? && WriteItems(e, items[1..], false).Success?
    ensures ReturnedItems(e, items) == [Returned(e, items[0], false, false, false)] + ReturnedItems(e, items[1..])
  {
    hide Write, WriteItems, Returned;
  }

  lemma {:induction false} TakeItemsCons(e: Type, n: nat, w: seq<byte>, tail: seq<byte>, rest: seq<byte>)
    requires WellFormed(e) && n > 0
    requires Take(e, w + (tail + rest), false).Success?
    requires Take(e, w + (tail + rest), false).value.rest == tail + rest
    requires TakeItems(e, tail + rest, n - 1).Success?
    ensures TakeItems(e, w + tail + rest, n)
            == Success(Read([Take(e, w + (tail + rest), false).value.value] + TakeItems(e, tail + rest, n - 1).value.value,
                            TakeItems(e, tail + rest, n - 1).value.rest))
  {
    ConcatAssoc(w, tail, rest);
  }

  /** Without the reader's permission, what follows does not matter. */
  lemma {:induction false} ReturnedEndFree(t: Type, v: Value, end: bool)
    requires Write(t, v, false, false).Success?
    ensures Returned(t, v, false, false, end) == Returned(t, v, false, false, false)
    decreases t, 0
  {
    match t
    case Primitive(p) =>
    case ArrayOf(e) =>
    case OptionalOf(e) => if !v.Null? { ReturnedEndFree(e, v, end); }
    case ExtensionOf(e) => ReturnedEndFree(e, v, end);
    case Variant(fs) => ReturnedEndFree(fs[FindOption(fs, v.items[0].s).value].ty, v.items[1], end);
    case Struct(base, fs) =>
      if base.Some? {
        var b := Write(base.value, v, false, false).value;
        var tail := WriteFields(fs, v, b.skipped, false).value.bytes;
        ReturnedEndFree(base.value, v, end && tail == []);
        ReturnedFieldsEndFree(fs, v, Returned(base.value, v, false, false, false), b.skipped, end);
      } else {
        ReturnedFieldsEndFree(fs, v, Obj(map[]), false, end);
      }
  }

  lemma {:induction false} ReturnedFieldsEndFree(fs: seq<Field>, v: Value, acc: Value, skipped: bool, end: bool)
    requires WriteFields(fs, v, skipped, false).Success?
    ensures ReturnedFields(fs, v, acc, skipped, false, false, end)
            == ReturnedFields(fs, v, acc, skipped, false, false, false)
    decreases fs, 1
  {
    if fs != [] && Property(v, fs[0].name).Some? {
      var f, x := fs[0], Property(v, fs[0].name).value;
      var w := Write(f.ty, x, false, false).value;
      var tail := WriteFields(fs[1..], v, w.skipped, false).value.bytes;
      ReturnedEndFree(f.ty, x, end && tail == []);
      var acc' := if acc.Obj? then Obj(acc.fields[f.name := Returned(f.ty, x, false, false, false)]) else acc;
      ReturnedFieldsEndFree(fs[1..], v, acc', w.skipped, end);
    }
  }

  lemma {:induction false} FieldsRoundTrip(fs: seq<Field>, v: Value, acc: Value, skipped: bool,
                                           writerAllow: bool, allow: bool, rest: seq<byte>)
    requires WellFormedFields(fs) && WriteFields(fs, v, skipped, writerAllow).Success?
    requires writerAllow ==> allow
    requires WriteFields(fs, v, skipped, writerAllow).value.skipped ==> rest == []
    requires v.Obj? ==> acc.Obj?
    ensures TakeFields(fs, WriteFields(fs, v, skipped, writerAllow).value.bytes + rest, acc, allow)
            == Success(Read(ReturnedFields(fs, v, acc, skipped, writerAllow, allow, rest == []), rest))
    decreases fs, 1
  {
    if fs == [] {
      assert [] + rest == rest;
    } else {
      match Property(v, fs[0].name)
      case None =>
        NothingAfterSkip(fs[1..], v, writerAllow);
        FieldsRoundTrip(fs[1..], v, acc, true, writerAllow, allow, rest);
      case Some(x) =>
        PresentRoundTrip(fs, v, x, acc, writerAllow, allow, rest);
    }
  }

  lemma {:induction false} PresentRoundTrip(fs: seq<Field>, v: Value, x: Value, acc: Value,
                                            writerAllow: bool, allow: bool, rest: seq<byte>)
    requires fs != [] && Property(v, fs[0].name) == Some(x)
    requires WellFormedFields(fs) && WriteFields(fs, v, false, writerAllow).Success?
    requires writerAllow ==> allow
    requires WriteFields(fs, v, false, writerAllow).value.skipped ==> rest == []
    requires v.Obj? ==> acc.Obj?
    ensures TakeFields(fs, WriteFields(fs, v, false, writerAllow).value.bytes + rest, acc, allow)
            == Success(Read(ReturnedFields(fs, v, acc, false, writerAllow, allow, rest == []), rest))
    decreases fs, 0
  {
    var f := fs[0];
    var last := writerAllow && |fs| == 1;
    var w := Write(f.ty, x, false, last).value;
    var tail := WriteFields(fs[1..], v, w.skipped, writerAllow).value;
    ConcatAssoc(w.bytes, tail.bytes, rest);
    var s := w.bytes + (tail.bytes + rest);
    if !last {
      WriteKeepsFlag(f.ty, x, false);
    }
    if allow && f.ty.ExtensionOf? && s == [] {
      assert tail.bytes + rest == s;
      FieldsRoundTrip(fs[1..], v, acc, w.skipped, writerAllow, allow, rest);
    } else {
      RoundTrip(f.ty, x, last, allow, tail.bytes + rest);
      var acc' := Obj(acc.fields[f.name := Returned(f.ty, x, last, allow, rest == [] && tail.bytes == [])]);
      FieldsRoundTrip(fs[1..], v, acc', w.skipped, writerAllow, allow, rest);
    }
  }

  // ---- values that encode to nothing

  /** The encoding of `v` is empty: only structs have one, whose bases and present fields have empty ones. */
  ghost predicate EncodesEmpty(t: Type, v: Value)
    decreases t, 0
  {
    match t
    case ExtensionOf(e) => EncodesEmpty(e, v)
    case Struct(base, fs) => (base.Some? ==> EncodesEmpty(base.value, v)) && EmptyFields(fs, v)
    case _ => false
  }

  ghost predicate EmptyFields(fs: seq<Field>, v: Value)
    decreases fs, 1
  {
    fs == []
    || ((Property(v, fs[0].name).Some? ==> EncodesEmpty(fs[0].ty, Property(v, fs[0].name).value)) && EmptyFields(fs[1..], v))
  }

  lemma {:induction false} EmptyIs(t: Type, v: Value, skipped: bool, allow: bool)
    requires WellFormed(t) && Write(t, v, skipped, allow).Success?
    ensures Write(t, v, skipped, allow).value.bytes == [] <==> EncodesEmpty(t, v)
    decreases t, 0
  {
    match t
    case Primitive(p) => PrimRoundTrip(p, v, []);
    case ArrayOf(e) =>
    case OptionalOf(e) =>
    case ExtensionOf(e) => EmptyIs(e, v, skipped, allow);
    case Variant(fs) =>
    case Struct(base, fs) =>
      var b := if base.Some? then Write(base.value, v, skipped, allow).value else Written([], skipped);
      if base.Some? {
        EmptyIs(base.value, v, skipped, allow);
      }
      EmptyFieldsIs(fs, v, b.skipped, allow);
  }

  lemma {:induction false} EmptyFieldsIs(fs: seq<Field>, v: Value, skipped: bool, allow: bool)
    requires WellFormedFields(fs) && WriteFields(fs, v, skipped, allow).Success?
    ensures WriteFields(fs, v, skipped, allow).value.bytes == [] <==> EmptyFields(fs, v)
    decreases fs, 1
  {
    if fs != [] {
      match Property(v, fs[0].name)
      case None => EmptyFieldsIs(fs[1..], v, true, allow);
      case Some(x) =>
        EmptyIs(fs[0].ty, x, false, allow && |fs| == 1);
        EmptyFieldsIs(fs[1..], v, Write(fs[0].ty, x, false, allow && |fs| == 1).value.skipped, allow);
    }
  }

  /** Both parts of a present field and what follows it. */
  lemma {:induction false} EmptyHere(fs: seq<Field>, v: Value, x: Value, writerAllow: bool)
    requires fs != [] && Property(v, fs[0].name) == Some(x)
    requires WellFormedFields(fs) && WriteFields(fs, v, false, writerAllow).Success?
    ensures var w := Write(fs[0].ty, x, false, writerAllow && |fs| == 1).value;
      var tail := WriteFields(fs[1..], v, w.skipped, writerAllow).value.bytes;
      && (w.bytes == [] <==> EncodesEmpty(fs[0].ty, x))
      && (tail == [] <==> EmptyFields(fs[1..], v))
      && (w.bytes + tail == [] <==> EncodesEmpty(fs[0].ty, x) && EmptyFields(fs[1..], v))
  {
    EmptyIs(fs[0].ty, x, false, writerAllow && |fs| == 1);
    EmptyFieldsIs(fs[1..], v, Write(fs[0].ty, x, false, writerAllow && |fs| == 1).value.skipped, writerAllow);
  }

  // ---- when nothing is lost

  /** The value of a variant's option, and its type. */
  ghost function Chosen(fs: seq<Field>, v: Value): (r: Option<nat>)
    ensures r.Some? ==> r.value < |fs| && v.List? && |v.items| == 2
  {
    if v.List? && |v.items| == 2 && v.items[0].Str? then FindOption(fs, v.items[0].s) else None
  }

  /** Some present extension of `v`, and everything after it, encodes to nothing, so that a reader who may skip
      takes it for absent at the end of the data. */
  ghost predicate Lossy(t: Type, v: Value)
    decreases t, 0
  {
    match t
    case Primitive(p) => false
    case ArrayOf(e) => false
    case OptionalOf(e) => !v.Null? && Lossy(e, v)
    case ExtensionOf(e) => Lossy(e, v)
    case Variant(fs) => var i := Chosen(fs, v); i.Some? && Lossy(fs[i.value].ty, v.items[1])
    case Struct(base, fs) => (base.Some? && EmptyFields(fs, v) && Lossy(base.value, v)) || LossyFields(fs, v)
  }

  ghost predicate LossyFields(fs: seq<Field>, v: Value)
    decreases fs, 1
  {
    if fs == [] then false
    else
      match Property(v, fs[0].name)
      case None => LossyFields(fs[1..], v)
      case Some(x) => LossyFirst(fs, v, x) || LossyFields(fs[1..], v)
  }

  /** The first field is lost, or loses something inside. */
  ghost predicate LossyFirst(fs: seq<Field>, v: Value, x: Value)
    requires fs != []
    decreases fs, 0
  {
    && EmptyFields(fs[1..], v)
    && ((fs[0].ty.ExtensionOf? && EncodesEmpty(fs[0].ty, x)) || Lossy(fs[0].ty, x))
  }

  // ---- types on which nothing is ever lost

  /** No accepted value has an empty encoding: some base or some field that may not be left out never does. */
  predicate NeverEmpty(t: Type)
    decreases t, 0
  {
    match t
    case ExtensionOf(e) => NeverEmpty(e)
    case Struct(base, fs) => (base.Some? && NeverEmpty(base.value)) || HasBody(fs)
    case _ => true
  }

  predicate HasBody(fs: seq<Field>)
    decreases fs, 1
  {
    fs != [] && ((!fs[0].ty.ExtensionOf? && NeverEmpty(fs[0].ty)) || HasBody(fs[1..]))
  }

  /** Every extension in the type has a content of at least one byte. */
  predicate FullExtensions(t: Type)
    decreases t, 0
  {
    match t
    case Primitive(p) => true
    case ArrayOf(e) => FullExtensions(e)
    case OptionalOf(e) => FullExtensions(e)
    case ExtensionOf(e) => NeverEmpty(e) && FullExtensions(e)
    case Variant(fs) => FullInFields(fs)
    case Struct(base, fs) => (base.Some? ==> FullExtensions(base.value)) && FullInFields(fs)
  }

  predicate FullInFields(fs: seq<Field>)
    decreases fs, 1
  {
    fs == [] || (FullExtensions(fs[0].ty) && FullInFields(fs[1..]))
  }

  lemma {:induction false} NeverEmptyIs(t: Type, v: Value, skipped: bool, allow: bool)
    requires NeverEmpty(t) && Write(t, v, skipped, allow).Success?
    ensures !EncodesEmpty(t, v)
    decreases t, 0
  {
    match t
    case ExtensionOf(e) => NeverEmptyIs(e, v, skipped, allow);
    case Struct(base, fs) =>
      if base.Some? && NeverEmpty(base.value) {
        NeverEmptyIs(base.value, v, skipped, allow);
      } else {
        BodyIs(fs, v, if base.Some? then Write(base.value, v, skipped, allow).value.skipped else skipped, allow);
      }
    case _ =>
  }

  lemma {:induction false} BodyIs(fs: seq<Field>, v: Value, skipped: bool, allow: bool)
    requires HasBody(fs) && WriteFields(fs, v, skipped, allow).Success?
    ensures !EmptyFields(fs, v)
    decreases fs, 1
  {
    match Property(v, fs[0].name)
    case None => BodyIs(fs[1..], v, true, allow);
    case Some(x) =>
      if !fs[0].ty.ExtensionOf? && NeverEmpty(fs[0].ty) {
        NeverEmptyIs(fs[0].ty, x, skipped, allow && |fs| == 1);
      } else {
        BodyIs(fs[1..], v, Write(fs[0].ty, x, skipped, allow && |fs| == 1).value.skipped, allow);
      }
  }

  /** With such extensions no accepted value loses anything. */
  lemma {:induction false} FullLossless(t: Type, v: Value, skipped: bool, allow: bool)
    requires FullExtensions(t) && Write(t, v, skipped, allow).Success?
    ensures !Lossy(t, v)
    decreases t, 0
  {
    match t
    case OptionalOf(e) => if !v.Null? { FullLossless(e, v, skipped, allow); }
    case ExtensionOf(e) => FullLossless(e, v, skipped, allow);
    case Variant(fs) =>
      var i := FindOption(fs, v.items[0].s).value;
      FullAt(fs, i);
      FullLossless(fs[i].ty, v.items[1], skipped, allow);
    case Struct(base, fs) =>
      if base.Some? {
        FullLossless(base.value, v, skipped, allow);
      }
      FullFieldsLossless(fs, v, if base.Some? then Write(base.value, v, skipped, allow).value.skipped else skipped, allow);
    case _ =>
  }

  lemma {:induction false} FullFieldsLossless(fs: seq<Field>, v: Value, skipped: bool, allow: bool)
    requires FullInFields(fs) && WriteFields(fs, v, skipped, allow).Success?
    ensures !LossyFields(fs, v)
    decreases fs, 1
  {
    if fs != [] {
      match Property(v, fs[0].name)
      case None => FullFieldsLossless(fs[1..], v, true, allow);
      case Some(x) =>
        FullLossless(fs[0].ty, x, skipped, allow && |fs| == 1);
        if fs[0].ty.ExtensionOf? {
          NeverEmptyIs(fs[0].ty, x, skipped, allow && |fs| == 1);
        }
        FullFieldsLossless(fs[1..], v, Write(fs[0].ty, x, skipped, allow && |fs| == 1).value.skipped, allow);
    }
  }

  lemma {:induction false} FullAt(fs: seq<Field>, i: nat)
    requires FullInFields(fs) && i < |fs|
    ensures FullExtensions(fs[i].ty)
    decreases |fs|
  {
    if i > 0 {
      FullAt(fs[1..], i - 1);
    }
  }

  // ---- names

  /** The property names that a type can give its object. */
  ghost function Names(t: Type): set<string>
    decreases t, 0
  {
    match t
    case OptionalOf(e) => Names(e)
    case ExtensionOf(e) => Names(e)
    case Struct(base, fs) => (if base.Some? then Names(base.value) else {}) + FieldNames(fs)
    case _ => {}
  }

  ghost function FieldNames(fs: seq<Field>): set<string> {
    set i | 0 <= i < |fs| :: fs[i].name
  }

  /** No struct declares a name twice, counting its bases. */
  ghost predicate DistinctNames(t: Type)
    decreases t, 0
  {
    match t
    case Primitive(p) => true
    case ArrayOf(e) => DistinctNames(e)
    case OptionalOf(e) => DistinctNames(e)
    case ExtensionOf(e) => DistinctNames(e)
    case Variant(fs) => DistinctInFields(fs)
    case Struct(base, fs) =>
      && (base.Some? ==> DistinctNames(base.value) && Names(base.value) !! FieldNames(fs))
      && DistinctInFields(fs)
      && forall i, j :: 0 <= i < j < |fs| ==> fs[i].name != fs[j].name
  }

  ghost predicate DistinctInFields(fs: seq<Field>)
    decreases fs, 1
  {
    fs == [] || (DistinctNames(fs[0].ty) && DistinctInFields(fs[1..]))
  }

  /** If nothing is lossy, the end of the data changes nothing. */
  lemma {:induction false} LosslessKeeps(t: Type, v: Value, writerAllow: bool, allow: bool)
    requires WellFormed(t) && Write(t, v, false, writerAllow).Success? && !(allow && Lossy(t, v))
    ensures Returned(t, v, writerAllow, allow, true) == Returned(t, v, writerAllow, allow, false)
    decreases t, 0
  {
    match t
    case Primitive(p) =>
    case ArrayOf(e) =>
    case OptionalOf(e) => if !v.Null? { LosslessKeeps(e, v, writerAllow, allow); }
    case ExtensionOf(e) => LosslessKeeps(e, v, writerAllow, allow);
    case Variant(fs) =>
      var i := FindOption(fs, v.items[0].s).value;
      WellFormedAt(fs, i);
      LosslessKeeps(fs[i].ty, v.items[1], writerAllow, allow);
    case Struct(base, fs) =>
      if base.Some? {
        var b := Write(base.value, v, false, writerAllow).value;
        EmptyFieldsIs(fs, v, b.skipped, writerAllow);
        if EmptyFields(fs, v) {
          LosslessKeeps(base.value, v, writerAllow, allow);
        }
        LosslessFieldsKeep(fs, v, Returned(base.value, v, writerAllow, allow, false), b.skipped, writerAllow, allow);
      } else {
        LosslessFieldsKeep(fs, v, Obj(map[]), false, writerAllow, allow);
      }
  }

  lemma {:induction false} LosslessFieldsKeep(fs: seq<Field>, v: Value, acc: Value, skipped: bool,
                                              writerAllow: bool, allow: bool)
    requires WellFormedFields(fs) && WriteFields(fs, v, skipped, writerAllow).Success? && !(allow && LossyFields(fs, v))
    ensures ReturnedFields(fs, v, acc, skipped, writerAllow, allow, true)
            == ReturnedFields(fs, v, acc, skipped, writerAllow, allow, false)
    decreases fs, 1
  {
    if fs != [] {
      match Property(v, fs[0].name)
      case None => LosslessFieldsKeep(fs[1..], v, acc, true, writerAllow, allow);
      case Some(x) =>
        var f := fs[0];
        var last := writerAllow && |fs| == 1;
        var w := Write(f.ty, x, false, last).value;
        EmptyHere(fs, v, x, writerAllow);
        if EmptyFields(fs[1..], v) {
          LosslessKeeps(f.ty, x, last, allow);
        }
        var acc' := if acc.Obj? then Obj(acc.fields[f.name := Returned(f.ty, x, last, allow, false)]) else acc;
        LosslessFieldsKeep(fs[1..], v, acc', w.skipped, writerAllow, allow);
    }
  }

  /** Fields beyond `fs` are left as they are. */
  lemma {:induction false} OtherKeysKept(fs: seq<Field>, v: Value, acc: Value, skipped: bool,
                                         writerAllow: bool, allow: bool, end: bool, k: string)
    requires WriteFields(fs, v, skipped, writerAllow).Success? && k !in FieldNames(fs)
    ensures Property(ReturnedFields(fs, v, acc, skipped, writerAllow, allow, end), k) == Property(acc, k)
    decreases |fs|
  {
    if fs != [] {
      var f := fs[0];
      assert f.name in FieldNames(fs);
      TailNames(fs);
      match Property(v, f.name)
      case None => OtherKeysKept(fs[1..], v, acc, true, writerAllow, allow, end, k);
      case Some(x) =>
        var last := writerAllow && |fs| == 1;
        var w := Write(f.ty, x, false, last).value;
        var tail := WriteFields(fs[1..], v, w.skipped, writerAllow).value.bytes;
        var acc' :=
          if allow && f.ty.ExtensionOf? && end && w.bytes + tail == [] then acc
          else if acc.Obj? then Obj(acc.fields[f.name := Returned(f.ty, x, last, allow, end && tail == [])])
          else acc;
        OtherKeysKept(fs[1..], v, acc', w.skipped, writerAllow, allow, end, k);
    }
  }

  lemma {:induction false} TailNames(fs: seq<Field>)
    requires fs != []
    ensures FieldNames(fs[1..]) <= FieldNames(fs)
  {
    forall k | k in FieldNames(fs[1..])
      ensures k in FieldNames(fs)
    {
      var i :| 0 <= i < |fs[1..]| && fs[1..][i].name == k;
      assert fs[i + 1].name == k;
    }
  }

  /** A lossy field makes the two results differ at one of the names of `fs`. */
  lemma {:induction false} LossyFieldsDiffer(fs: seq<Field>, v: Value, acc: Value, acc2: Value, skipped: bool,
                                             writerAllow: bool) returns (k: string)
    requires WellFormedFields(fs) && WriteFields(fs, v, skipped, writerAllow).Success? && LossyFields(fs, v)
    requires acc.Obj? && acc2.Obj?
    requires acc.fields.Keys !! FieldNames(fs)
    requires DistinctInFields(fs) && forall i, j :: 0 <= i < j < |fs| ==> fs[i].name != fs[j].name
    ensures k in FieldNames(fs)
    ensures Property(ReturnedFields(fs, v, acc, skipped, writerAllow, true, true), k)
            != Property(ReturnedFields(fs, v, acc2, skipped, writerAllow, true, false), k)
    decreases fs, 1
  {
    var f := fs[0];
    FieldNamesCons(fs);
    match Property(v, f.name)
    case None =>
      k := LossyFieldsDiffer(fs[1..], v, acc, acc2, true, writerAllow);
    case Some(x) =>
      var last := writerAllow && |fs| == 1;
      var w := Write(f.ty, x, false, last).value;
      var tail := WriteFields(fs[1..], v, w.skipped, writerAllow).value.bytes;
      if LossyFirst(fs, v, x) {
        k := f.name;
        LossyHere(fs, v, x, acc, acc2, writerAllow);
      } else {
        EmptyHere(fs, v, x, writerAllow);
        var kept := Obj(acc2.fields[f.name := Returned(f.ty, x, last, true, false)]);
        var acc' := Obj(acc.fields[f.name := Returned(f.ty, x, last, true, tail == [])]);
        k := LossyFieldsDiffer(fs[1..], v, acc', kept, w.skipped, writerAllow);
      }
  }

  lemma {:induction false} LossyHere(fs: seq<Field>, v: Value, x: Value, acc: Value, acc2: Value, writerAllow: bool)
    requires fs != [] && Property(v, fs[0].name) == Some(x) && fs[0].name !in FieldNames(fs[1..])
    requires WellFormedFields(fs) && WriteFields(fs, v, false, writerAllow).Success? && DistinctNames(fs[0].ty)
    requires acc.Obj? && acc2.Obj? && fs[0].name !in acc.fields && LossyFirst(fs, v, x)
    ensures Property(ReturnedFields(fs, v, acc, false, writerAllow, true, true), fs[0].name)
            != Property(ReturnedFields(fs, v, acc2, false, writerAllow, true, false), fs[0].name)
    decreases fs, 0
  {
    var f := fs[0];
    var last := writerAllow && |fs| == 1;
    var w := Write(f.ty, x, false, last).value;
    EmptyHere(fs, v, x, writerAllow);
    var kept := Obj(acc2.fields[f.name := Returned(f.ty, x, last, true, false)]);
    OtherKeysKept(fs[1..], v, kept, w.skipped, writerAllow, true, false, f.name);
    if f.ty.ExtensionOf? && EncodesEmpty(f.ty, x) {
      OtherKeysKept(fs[1..], v, acc, w.skipped, writerAllow, true, true, f.name);
    } else {
      LossyDiffers(f.ty, x, last);
      var acc' := Obj(acc.fields[f.name := Returned(f.ty, x, last, true, true)]);
      OtherKeysKept(fs[1..], v, acc', w.skipped, writerAllow, true, true, f.name);
    }
  }

  /** With distinct names, a lossy value does not come back whole to a reader who may skip. */
  lemma {:induction false} LossyDiffers(t: Type, v: Value, writerAllow: bool)
    requires WellFormed(t) && Write(t, v, false, writerAllow).Success? && Lossy(t, v) && DistinctNames(t)
    ensures Returned(t, v, writerAllow, true, true) != Returned(t, v, writerAllow, true, false)
    decreases t, 1
  {
    match t
    case OptionalOf(e) => LossyDiffers(e, v, writerAllow);
    case ExtensionOf(e) => LossyDiffers(e, v, writerAllow);
    case Variant(fs) =>
      var i := FindOption(fs, v.items[0].s).value;
      DistinctAt(fs, i);
      WellFormedAt(fs, i);
      LossyDiffers(fs[i].ty, v.items[1], writerAllow);
    case Struct(base, fs) =>
      LossyStructDiffers(base, fs, v, writerAllow);
  }

  lemma {:induction false} LossyStructDiffers(base: Option<Type>, fs: seq<Field>, v: Value, writerAllow: bool)
    requires WellFormed(Struct(base, fs)) && DistinctNames(Struct(base, fs)) && Lossy(Struct(base, fs), v)
    requires Write(Struct(base, fs), v, false, writerAllow).Success?
    ensures Returned(Struct(base, fs), v, writerAllow, true, true) != Returned(Struct(base, fs), v, writerAllow, true, false)
    decreases Struct(base, fs), 0
  {
    var b := if base.Some? then Write(base.value, v, false, writerAllow).value else Written([], false);
    var tail := WriteFields(fs, v, b.skipped, writerAllow).value.bytes;
    EmptyFieldsIs(fs, v, b.skipped, writerAllow);
    var whole := if base.Some? then Returned(base.value, v, writerAllow, true, false) else Obj(map[]);
    var cut := if base.Some? then Returned(base.value, v, writerAllow, true, tail == []) else Obj(map[]);
    if LossyFields(fs, v) {
      LossyHasObject(fs, v);
      if base.Some? {
        ReturnedObject(base.value, v, writerAllow, true, false);
        ReturnedObject(base.value, v, writerAllow, true, tail == []);
        ReturnedNames(base.value, v, writerAllow, true, tail == []);
      }
      var k := LossyFieldsDiffer(fs, v, cut, whole, b.skipped, writerAllow);
    } else {
      LossyDiffers(base.value, v, writerAllow);
      if v.Obj? {
        ReturnedObject(base.value, v, writerAllow, true, false);
        ReturnedObject(base.value, v, writerAllow, true, true);
        ReturnedNames(base.value, v, writerAllow, true, false);
        ReturnedNames(base.value, v, writerAllow, true, true);
        var k :| Property(cut, k) != Property(whole, k) && k in Names(base.value) by {
          DifferAt(cut.fields, whole.fields, Names(base.value));
        }
        OtherKeysKept(fs, v, cut, b.skipped, writerAllow, true, true, k);
        OtherKeysKept(fs, v, whole, b.skipped, writerAllow, true, false, k);
      } else {
        NothingReturned(fs, v, cut, b.skipped, writerAllow, true, true);
        NothingReturned(fs, v, whole, b.skipped, writerAllow, true, false);
      }
    }
  }

  lemma {:induction false} DifferAt(m: map<string, Value>, n: map<string, Value>, names: set<string>)
    requires m != n && m.Keys <= names && n.Keys <= names
    ensures exists k :: Property(Obj(m), k) != Property(Obj(n), k) && k in names
  {
    if m.Keys == n.Keys {
      var k :| k in m.Keys && m[k] != n[k];
      assert Property(Obj(m), k) != Property(Obj(n), k);
    } else {
      var k :| k in m.Keys + n.Keys && !(k in m.Keys && k in n.Keys);
      assert Property(Obj(m), k) != Property(Obj(n), k);
    }
  }

  lemma {:induction false} DistinctAt(fs: seq<Field>, i: nat)
    requires DistinctInFields(fs) && i < |fs|
    ensures DistinctNames(fs[i].ty)
    decreases |fs|
  {
    if i > 0 {
      DistinctAt(fs[1..], i - 1);
    }
  }

  /** Only a present property can be lost. */
  lemma {:induction false} LossyHasObject(fs: seq<Field>, v: Value)
    requires LossyFields(fs, v)
    ensures v.Obj?
    decreases |fs|
  {
    if Property(v, fs[0].name).None? {
      LossyHasObject(fs[1..], v);
    }
  }

  lemma {:induction false} NothingReturned(fs: seq<Field>, v: Value, acc: Value, skipped: bool,
                                           writerAllow: bool, allow: bool, end: bool)
    requires WriteFields(fs, v, skipped, writerAllow).Success? && !v.Obj?
    ensures ReturnedFields(fs, v, acc, skipped, writerAllow, allow, end) == acc
    decreases |fs|
  {
    if fs != [] {
      NothingReturned(fs[1..], v, acc, true, writerAllow, allow, end);
    }
  }

  /** A returned object has only declared properties. */
  lemma {:induction false} ReturnedNames(t: Type, v: Value, writerAllow: bool, allow: bool, end: bool)
    requires v.Obj? && Write(t, v, false, writerAllow).Success?
    ensures Returned(t, v, writerAllow, allow, end).Obj?
    ensures Returned(t, v, writerAllow, allow, end).fields.Keys <= Names(t)
    decreases t
  {
    ReturnedObject(t, v, writerAllow, allow, end);
    match t
    case Primitive(p) => assert false;
    case OptionalOf(e) => ReturnedNames(e, v, writerAllow, allow, end);
    case ExtensionOf(e) => ReturnedNames(e, v, writerAllow, allow, end);
    case Struct(base, fs) =>
      var b := if base.Some? then Write(base.value, v, false, writerAllow).value else Written([], false);
      var tail := WriteFields(fs, v, b.skipped, writerAllow).value.bytes;
      var acc := if base.Some? then Returned(base.value, v, writerAllow, allow, end && tail == []) else Obj(map[]);
      if base.Some? {
        ReturnedNames(base.value, v, writerAllow, allow, end && tail == []);
      }
      forall k | k !in Names(t)
        ensures k !in Returned(t, v, writerAllow, allow, end).fields
      {
        OtherKeysKept(fs, v, acc, b.skipped, writerAllow, allow, end, k);
      }
  }

  /**
   * Exactly when an accepted value comes back whole from the end of the data: unless an
   * extension that is present, and everything after it, encodes to no bytes at all.
   */
  lemma {:induction false} WholeAtEnd(t: Type, v: Value, allow: bool)
    requires WellFormed(t) && DistinctNames(t) && Write(t, v, false, allow).Success?
    ensures Take(t, Write(t, v, false, allow).value.bytes, allow)
            == Success(Read(Returned(t, v, allow, allow, false), []))
            <==> !(allow && Lossy(t, v))
  {
    var b := Write(t, v, false, allow).value.bytes;
    assert b + [] == b;
    RoundTrip(t, v, allow, allow, []);
    if allow && Lossy(t, v) {
      LossyDiffers(t, v, allow);
    } else {
      LosslessKeeps(t, v, allow, allow);
    }
  }

  /** In particular always if every extension has a content of at least one byte. */
  lemma {:induction false} FullWhole(t: Type, v: Value, allow: bool)
    requires WellFormed(t) && DistinctNames(t) && FullExtensions(t) && Write(t, v, false, allow).Success?
    ensures Take(t, Write(t, v, false, allow).value.bytes, allow)
            == Success(Read(Returned(t, v, allow, allow, false), []))
  {
    FullLossless(t, v, false, allow);
    WholeAtEnd(t, v, allow);
  }

  // ---- what comes back, stated on values alone

  /** `r` is `v` in canonical form: the same items, and for objects exactly the declared
      properties that `v` has. */
  ghost predicate Agrees(t: Type, v: Value, r: Value)
    decreases t, 1
  {
    match t
    case Primitive(p) => r == CanonPrim(p, v)
    case ArrayOf(e) =>
      && v.List? && r.List? && |v.items| == |r.items|
      && forall i :: 0 <= i < |v.items| ==> Agrees(e, v.items[i], r.items[i])
    case OptionalOf(e) => if v.Null? then r.Null? else Agrees(e, v, r)
    case ExtensionOf(e) => Agrees(e, v, r)
    case Variant(fs) =>
      && v.List? && r.List? && |v.items| == |r.items| == 2 && r.items[0] == v.items[0] && v.items[0].Str?
      && var i := FindOption(fs, v.items[0].s); i.Some? && Agrees(fs[i.value].ty, v.items[1], r.items[1])
    case Struct(base, fs) =>
      if v.Obj? then r.Obj? && r.fields.Keys == v.fields.Keys * Names(t) && Carries(t, v.fields, r.fields)
      else if base.Some? then Agrees(base.value, v, r) else r == Obj(map[])
  }

  /** Every declared property of `v`, bases included, agrees in `r`. */
  ghost predicate Carries(t: Type, v: map<string, Value>, r: map<string, Value>)
    decreases t, 0
  {
    match t
    case OptionalOf(e) => Carries(e, v, r)
    case ExtensionOf(e) => Carries(e, v, r)
    case Struct(base, fs) =>
      && (base.Some? ==> Carries(base.value, v, r))
      && CarriesFields(fs, v, r)
    case _ => false
  }

  ghost predicate CarriesFields(fs: seq<Field>, v: map<string, Value>, r: map<string, Value>)
    decreases fs, 0
  {
    fs == [] || (
      && CarriesFields(fs[1..], v, r)
      && (fs[0].name in v ==> fs[0].name in r && Agrees(fs[0].ty, v[fs[0].name], r[fs[0].name])))
  }

  lemma {:induction false} ReturnedAgrees(t: Type, v: Value, writerAllow: bool, allow: bool)
    requires Write(t, v, false, writerAllow).Success? && DistinctNames(t)
    ensures Agrees(t, v, Returned(t, v, writerAllow, allow, false))
    decreases t, 1
  {
    match t
    case Primitive(p) =>
    case ArrayOf(e) => ItemsAgree(e, v.items);
    case OptionalOf(e) => if !v.Null? { ReturnedAgrees(e, v, writerAllow, allow); }
    case ExtensionOf(e) => ReturnedAgrees(e, v, writerAllow, allow);
    case Variant(fs) =>
      var i := FindOption(fs, v.items[0].s).value;
      DistinctAt(fs, i);
      ReturnedAgrees(fs[i].ty, v.items[1], writerAllow, allow);
    case Struct(base, fs) =>
      var b := if base.Some? then Write(base.value, v, false, writerAllow).value else Written([], false);
      var acc := if base.Some? then Returned(base.value, v, writerAllow, allow, false) else Obj(map[]);
      if v.Obj? {
        StructAgrees(t, v, writerAllow, allow);
      } else {
        if base.Some? {
          ReturnedAgrees(base.value, v, writerAllow, allow);
        }
        NothingReturned(fs, v, acc, b.skipped, writerAllow, allow, false);
      }
  }

  lemma {:induction false} ItemsAgree(e: Type, items: seq<Value>)
    requires WriteItems(e, items, false).Success? && DistinctNames(e)
    ensures forall i :: 0 <= i < |items| ==> Agrees(e, items[i], ReturnedItems(e, items)[i])
    decreases e, 2, |items|
  {
    if items != [] {
      WriteItemsKeepsFlag(e, items);
      ReturnedAgrees(e, items[0], false, false);
      ItemsAgree(e, items[1..]);
      var r := ReturnedItems(e, items);
      forall i | 0 <= i < |items|
        ensures Agrees(e, items[i], r[i])
      {
        if i > 0 {
          assert items[i] == items[1..][i - 1];
          assert r[i] == ReturnedItems(e, items[1..])[i - 1];
        }
      }
    }
  }

  /** An object comes back as an object with the declared properties that it had. */
  lemma {:induction false} StructAgrees(t: Type, v: Value, writerAllow: bool, allow: bool)
    requires v.Obj? && Write(t, v, false, writerAllow).Success? && DistinctNames(t)
    ensures Returned(t, v, writerAllow, allow, false).Obj?
    ensures Returned(t, v, writerAllow, allow, false).fields.Keys == v.fields.Keys * Names(t)
    ensures Carries(t, v.fields, Returned(t, v, writerAllow, allow, false).fields)
    decreases t, 0
  {
    match t
    case Primitive(p) => assert false;
    case OptionalOf(e) => StructAgrees(e, v, writerAllow, allow);
    case ExtensionOf(e) => StructAgrees(e, v, writerAllow, allow);
    case Struct(base, fs) =>
      var b := if base.Some? then Write(base.value, v, false, writerAllow).value else Written([], false);
      var acc := if base.Some? then Returned(base.value, v, writerAllow, allow, false) else Obj(map[]);
      if base.Some? {
        StructAgrees(base.value, v, writerAllow, allow);
      }
      FieldsAgree(fs, v, acc, b.skipped, writerAllow, allow);
      var r := ReturnedFields(fs, v, acc, b.skipped, writerAllow, allow, false);
      if base.Some? {
        forall k | k in Names(base.value)
          ensures Property(acc, k) == Property(r, k)
        {
          OtherKeysKept(fs, v, acc, b.skipped, writerAllow, allow, false, k);
        }
        CarriesSame(base.value, v.fields, acc.fields, r.fields);
      }
  }

  lemma {:induction false} FieldsAgree(fs: seq<Field>, v: Value, acc: Value, skipped: bool,
                                       writerAllow: bool, allow: bool)
    requires v.Obj? && acc.Obj? && WriteFields(fs, v, skipped, writerAllow).Success? && DistinctInFields(fs)
    requires forall i, j :: 0 <= i < j < |fs| ==> fs[i].name != fs[j].name
    ensures
      var r := ReturnedFields(fs, v, acc, skipped, writerAllow, allow, false);
      r.Obj? && r.fields.Keys == acc.fields.Keys + v.fields.Keys * FieldNames(fs) && CarriesFields(fs, v.fields, r.fields)
    decreases fs, 1
  {
    if fs == [] {
    } else {
      FieldNamesCons(fs);
      var f := fs[0];
      match Property(v, f.name)
      case None => FieldsAgree(fs[1..], v, acc, true, writerAllow, allow);
      case Some(x) =>
        var last := writerAllow && |fs| == 1;
        var w := Write(f.ty, x, false, last).value;
        var acc' := Obj(acc.fields[f.name := Returned(f.ty, x, last, allow, false)]);
        ReturnedAgrees(f.ty, x, last, allow);
        FieldsAgree(fs[1..], v, acc', w.skipped, writerAllow, allow);
        OtherKeysKept(fs[1..], v, acc', w.skipped, writerAllow, allow, false, f.name);
    }
  }

  lemma {:induction false} FieldNamesCons(fs: seq<Field>)
    requires fs != []
    requires forall i, j :: 0 <= i < j < |fs| ==> fs[i].name != fs[j].name
    ensures FieldNames(fs) == {fs[0].name} + FieldNames(fs[1..])
    ensures fs[0].name !in FieldNames(fs[1..])
  {
    TailNames(fs);
    assert fs[0].name in FieldNames(fs);
    forall k | k in FieldNames(fs)
      ensures k in {fs[0].name} + FieldNames(fs[1..])
    {
      var i :| 0 <= i < |fs| && fs[i].name == k;
      if i > 0 {
        assert fs[1..][i - 1].name == k;
      }
    }
  }

  /** Only the declared names matter. */
  lemma {:induction false} CarriesSame(t: Type, v: map<string, Value>, r: map<string, Value>, r': map<string, Value>)
    requires Carries(t, v, r)
    requires forall k :: k in Names(t) ==> Property(Obj(r), k) == Property(Obj(r'), k)
    ensures Carries(t, v, r')
    decreases t
  {
    match t
    case OptionalOf(e) => CarriesSame(e, v, r, r');
    case ExtensionOf(e) => CarriesSame(e, v, r, r');
    case Struct(base, fs) =>
      if base.Some? {
        CarriesSame(base.value, v, r, r');
      }
      CarriesFieldsSame(fs, v, r, r');
  }

  lemma {:induction false} CarriesFieldsSame(fs: seq<Field>, v: map<string, Value>, r: map<string, Value>, r': map<string, Value>)
    requires CarriesFields(fs, v, r)
    requires forall k :: k in FieldNames(fs) ==> Property(Obj(r), k) == Property(Obj(r'), k)
    ensures CarriesFields(fs, v, r')
    decreases |fs|
  {
    if fs != [] {
      TailNames(fs);
      CarriesFieldsSame(fs[1..], v, r, r');
      assert fs[0].name in FieldNames(fs);
      assert Property(Obj(r), fs[0].name) == Property(Obj(r'), fs[0].name);
    }
  }

  // ---- suffixes

  /** Some declared extension is absent from `v`. */
  ghost predicate Absent(t: Type, v: Value)
    decreases t, 0
  {
    match t
    case Primitive(p) => false
    case ArrayOf(e) => v.List? && exists i :: 0 <= i < |v.items| && Absent(e, v.items[i])
    case OptionalOf(e) => !v.Null? && Absent(e, v)
    case ExtensionOf(e) => Absent(e, v)
    case Variant(fs) => var i := Chosen(fs, v); i.Some? && Absent(fs[i.value].ty, v.items[1])
    case Struct(base, fs) => (base.Some? && Absent(base.value, v)) || AbsentFields(fs, v)
  }

  ghost predicate AbsentFields(fs: seq<Field>, v: Value)
    decreases fs, 1
  {
    if fs == [] then false
    else
      match Property(v, fs[0].name)
      case None => fs[0].ty.ExtensionOf? || AbsentFields(fs[1..], v)
      case Some(x) => Absent(fs[0].ty, x) || AbsentFields(fs[1..], v)
  }

  /** Accepting a value skips something exactly when a declared extension is absent from it. */
  lemma {:induction false} SkipIsAbsent(t: Type, v: Value, skipped: bool, allow: bool)
    requires Write(t, v, skipped, allow).Success?
    ensures Write(t, v, skipped, allow).value.skipped <==> skipped || Absent(t, v)
    ensures Absent(t, v) ==> allow
    decreases t, 0
  {
    match t
    case Primitive(p) =>
    case ArrayOf(e) => ItemsAbsent(e, v.items, skipped);
    case OptionalOf(e) => if !v.Null? { SkipIsAbsent(e, v, skipped, allow); }
    case ExtensionOf(e) => SkipIsAbsent(e, v, skipped, allow);
    case Variant(fs) => SkipIsAbsent(fs[FindOption(fs, v.items[0].s).value].ty, v.items[1], skipped, allow);
    case Struct(base, fs) =>
      if base.Some? {
        SkipIsAbsent(base.value, v, skipped, allow);
      }
      FieldsAbsent(fs, v, if base.Some? then Write(base.value, v, skipped, allow).value.skipped else skipped, allow);
  }

  lemma {:induction false} ItemsAbsent(e: Type, items: seq<Value>, skipped: bool)
    requires WriteItems(e, items, skipped).Success?
    ensures WriteItems(e, items, skipped).value.skipped == skipped
    ensures forall i :: 0 <= i < |items| ==> !Absent(e, items[i])
    decreases e, 1, |items|
  {
    if items != [] {
      SkipIsAbsent(e, items[0], skipped, false);
      ItemsAbsent(e, items[1..], skipped);
      assert items == [items[0]] + items[1..];
    }
  }

  lemma {:induction false} FieldsAbsent(fs: seq<Field>, v: Value, skipped: bool, allow: bool)
    requires WriteFields(fs, v, skipped, allow).Success?
    ensures WriteFields(fs, v, skipped, allow).value.skipped <==> skipped || AbsentFields(fs, v)
    ensures AbsentFields(fs, v) ==> allow
    decreases fs, 1
  {
    if fs != [] {
      match Property(v, fs[0].name)
      case None => FieldsAbsent(fs[1..], v, true, allow);
      case Some(x) =>
        SkipIsAbsent(fs[0].ty, x, skipped, allow && |fs| == 1);
        FieldsAbsent(fs[1..], v, Write(fs[0].ty, x, skipped, allow && |fs| == 1).value.skipped, allow);
    }
  }

  /** Reading fields only adds properties. */
  lemma {:induction false} TakeKeeps(fs: seq<Field>, s: seq<byte>, acc: Value, allow: bool)
    requires WellFormedFields(fs) && TakeFields(fs, s, acc, allow).Success?
    ensures var r := TakeFields(fs, s, acc, allow).value.value;
      && (acc.Obj? ==> r.Obj? && acc.fields.Keys <= r.fields.Keys)
      && (r == acc || (r.Obj? && exists f :: f in fs && f.name in r.fields))
    decreases |fs|
  {
    if fs != [] {
      if allow && fs[0].ty.ExtensionOf? && s == [] {
        TakeKeeps(fs[1..], s, acc, allow);
      } else {
        var r := Take(fs[0].ty, s, allow).value;
        TakeKeeps(fs[1..], r.rest, SetProperty(acc, fs[0].name, r.value).value, allow);
        assert fs[0] in fs;
      }
    }
  }

  /** What comes back as an object has only declared properties. */
  lemma {:induction false} ReturnedKeys(t: Type, v: Value, writerAllow: bool, allow: bool, end: bool)
    requires Write(t, v, false, writerAllow).Success?
    ensures var r := Returned(t, v, writerAllow, allow, end); r.Obj? ==> r.fields.Keys <= Names(t)
    decreases t
  {
    if v.Obj? {
      ReturnedNames(t, v, writerAllow, allow, end);
    } else {
      match t
      case OptionalOf(e) => if !v.Null? { ReturnedKeys(e, v, writerAllow, allow, end); }
      case ExtensionOf(e) => ReturnedKeys(e, v, writerAllow, allow, end);
      case Struct(base, fs) =>
        var b := if base.Some? then Write(base.value, v, false, writerAllow).value else Written([], false);
        var tail := WriteFields(fs, v, b.skipped, writerAllow).value.bytes;
        var acc := if base.Some? then Returned(base.value, v, writerAllow, allow, end && tail == []) else Obj(map[]);
        if base.Some? {
          ReturnedKeys(base.value, v, writerAllow, allow, end && tail == []);
        }
        NothingReturned(fs, v, acc, b.skipped, writerAllow, allow, end);
      case _ =>
    }
  }

  /** What reading a skipped value with a suffix gives: a failure, or another value. */
  ghost predicate Differs(r: Result<Read<Value>, SerialError>, v: Value) {
    r.Success? ==> r.value.value != v
  }

  /** If something was skipped, the reader takes the missing field from the suffix: it fails, or another value
      comes back. */
  lemma {:induction false} SkipDiffers(t: Type, v: Value, writerAllow: bool, allow: bool, rest: seq<byte>)
    requires WellFormed(t) && DistinctNames(t) && Write(t, v, false, writerAllow).Success?
    requires (writerAllow ==> allow) && rest != []
    requires Write(t, v, false, writerAllow).value.skipped
    ensures Differs(Take(t, Write(t, v, false, writerAllow).value.bytes + rest, allow), Returned(t, v, writerAllow, allow, false))
    decreases t, 1
  {
    match t
    case Primitive(p) =>
    case ArrayOf(e) => WriteItemsFlag(e, v.items, false);
    case OptionalOf(e) =>
      if !v.Null? {
        var b := Write(e, v, false, writerAllow).value.bytes;
        ConcatAssoc([1], b, rest);
        assert ([1] + (b + rest))[1..] == b + rest;
        SkipDiffers(e, v, writerAllow, allow, rest);
      }
    case ExtensionOf(e) => SkipDiffers(e, v, writerAllow, allow, rest);
    case Variant(fs) =>
      var i := FindOption(fs, v.items[0].s).value;
      WellFormedAt(fs, i);
      DistinctAt(fs, i);
      var b := Write(fs[i].ty, v.items[1], false, writerAllow).value.bytes;
      ConcatAssoc(Leb128.Encode(i), b, rest);
      ReadVaruint32Of(i, b + rest);
      SkipDiffers(fs[i].ty, v.items[1], writerAllow, allow, rest);
    case Struct(base, fs) =>
      if base.Some? && Write(base.value, v, false, writerAllow).value.skipped {
        SkipBaseDiffers(base.value, fs, v, writerAllow, allow, rest);
      } else {
        SkipStructDiffers(base, fs, v, writerAllow, allow, rest);
      }
  }

  /** The base skipped something, so nothing is written after it. */
  lemma {:induction false} SkipBaseDiffers(base: Type, fs: seq<Field>, v: Value, writerAllow: bool, allow: bool, rest: seq<byte>)
    requires
      var t := Struct(Some(base), fs);
      && WellFormed(t) && DistinctNames(t) && Write(t, v, false, writerAllow).Success?
    requires (writerAllow ==> allow) && rest != [] && Write(base, v, false, writerAllow).value.skipped
    ensures var t := Struct(Some(base), fs);
      Differs(Take(t, Write(t, v, false, writerAllow).value.bytes + rest, allow), Returned(t, v, writerAllow, allow, false))
    decreases Struct(Some(base), fs), 0
  {
    var t := Struct(Some(base), fs);
    var b := Write(base, v, false, writerAllow).value;
    NothingAfterSkip(fs, v, writerAllow);
    assert b.bytes + [] == b.bytes;
    SkipDiffers(base, v, writerAllow, allow, rest);
    var due := Returned(base, v, writerAllow, allow, false);
    NothingReturnedSkipped(fs, v, due, writerAllow, allow);
    var got := Take(base, b.bytes + rest, allow);
    if got.Success? && TakeFields(fs, got.value.rest, got.value.value, allow).Success? {
      TakeKeeps(fs, got.value.rest, got.value.value, allow);
      var r := TakeFields(fs, got.value.rest, got.value.value, allow).value.value;
      if r != got.value.value {
        var f :| f in fs && f.name in r.fields;
        assert f.name in FieldNames(fs);
        ReturnedKeys(base, v, writerAllow, allow, false);
      }
    }
  }

  lemma {:induction false} NothingReturnedSkipped(fs: seq<Field>, v: Value, acc: Value, writerAllow: bool, allow: bool)
    requires WriteFields(fs, v, true, writerAllow).Success?
    ensures ReturnedFields(fs, v, acc, true, writerAllow, allow, false) == acc
    decreases |fs|
  {
    if fs != [] {
      NothingReturnedSkipped(fs[1..], v, acc, writerAllow, allow);
    }
  }

  /** The struct's own fields skipped something. */
  lemma {:induction false} SkipStructDiffers(base: Option<Type>, fs: seq<Field>, v: Value, writerAllow: bool, allow: bool,
                                             rest: seq<byte>)
    requires
      var t := Struct(base, fs);
      && WellFormed(t) && DistinctNames(t) && Write(t, v, false, writerAllow).Success?
      && Write(t, v, false, writerAllow).value.skipped
    requires base.Some? ==> !Write(base.value, v, false, writerAllow).value.skipped
    requires (writerAllow ==> allow) && rest != []
    ensures var t := Struct(base, fs);
      Differs(Take(t, Write(t, v, false, writerAllow).value.bytes + rest, allow), Returned(t, v, writerAllow, allow, false))
    decreases Struct(base, fs), 0
  {
    var tail := WriteFields(fs, v, false, writerAllow).value;
    if base.None? {
      assert [] + tail.bytes == tail.bytes;
      SkipFieldsDiffer(fs, v, Obj(map[]), writerAllow, allow, rest);
    } else {
      var b := Write(base.value, v, false, writerAllow).value;
      ConcatAssoc(b.bytes, tail.bytes, rest);
      RoundTrip(base.value, v, writerAllow, allow, tail.bytes + rest);
      var acc := Returned(base.value, v, writerAllow, allow, false);
      if v.Obj? {
        ReturnedObject(base.value, v, writerAllow, allow, false);
      }
      ReturnedKeys(base.value, v, writerAllow, allow, false);
      SkipFieldsDiffer(fs, v, acc, writerAllow, allow, rest);
    }
  }

  lemma {:induction false} SkipFieldsDiffer(fs: seq<Field>, v: Value, acc: Value, writerAllow: bool, allow: bool, rest: seq<byte>)
    requires WellFormedFields(fs) && WriteFields(fs, v, false, writerAllow).Success?
    requires DistinctInFields(fs) && forall i, j :: 0 <= i < j < |fs| ==> fs[i].name != fs[j].name
    requires (writerAllow ==> allow) && rest != [] && WriteFields(fs, v, false, writerAllow).value.skipped
    requires if v.Obj? then acc.Obj? && acc.fields.Keys !! FieldNames(fs) else acc.Obj? ==> acc.fields.Keys !! FieldNames(fs)
    ensures Differs(TakeFields(fs, WriteFields(fs, v, false, writerAllow).value.bytes + rest, acc, allow),
                    ReturnedFields(fs, v, acc, false, writerAllow, allow, false))
    decreases fs, 1
  {
    FieldNamesCons(fs);
    match Property(v, fs[0].name)
    case None => SkipFirstDiffers(fs, v, acc, writerAllow, allow, rest);
    case Some(x) =>
      var f := fs[0];
      var last := writerAllow && |fs| == 1;
      var w := Write(f.ty, x, false, last).value;
      var tail := WriteFields(fs[1..], v, w.skipped, writerAllow).value;
      ConcatAssoc(w.bytes, tail.bytes, rest);
      if !last {
        WriteKeepsFlag(f.ty, x, false);
      }
      var acc' := Obj(acc.fields[f.name := Returned(f.ty, x, last, allow, false)]);
      if w.skipped {
        SkipDiffers(f.ty, x, last, allow, rest);
        assert fs[1..] == [] && tail.bytes + rest == rest;
        LastDiffers(fs, v, x, acc, writerAllow, allow, rest);
      } else {
        RoundTrip(f.ty, x, last, allow, tail.bytes + rest);
        SkipFieldsDiffer(fs[1..], v, acc', writerAllow, allow, rest);
      }
  }

  /** The first field is the one that is missing: the reader finds data and reads it. */
  lemma {:induction false} SkipFirstDiffers(fs: seq<Field>, v: Value, acc: Value, writerAllow: bool, allow: bool, rest: seq<byte>)
    requires fs != [] && Property(v, fs[0].name).None?
    requires WellFormedFields(fs) && WriteFields(fs, v, false, writerAllow).Success?
    requires rest != [] && (acc.Obj? ==> fs[0].name !in acc.fields) && fs[0].name !in FieldNames(fs[1..])
    ensures Differs(TakeFields(fs, WriteFields(fs, v, false, writerAllow).value.bytes + rest, acc, allow),
                    ReturnedFields(fs, v, acc, false, writerAllow, allow, false))
  {
    var f := fs[0];
    NothingAfterSkip(fs[1..], v, writerAllow);
    NothingReturnedSkipped(fs[1..], v, acc, writerAllow, allow);
    assert [] + rest == rest;
    var got := Take(f.ty, rest, allow);
    if got.Success? && acc.Obj? {
      var acc' := Obj(acc.fields[f.name := got.value.value]);
      if TakeFields(fs[1..], got.value.rest, acc', allow).Success? {
        TakeKeeps(fs[1..], got.value.rest, acc', allow);
        assert f.name in acc'.fields;
      }
    }
  }

  /** Something inside the last field is missing. */
  lemma {:induction false} LastDiffers(fs: seq<Field>, v: Value, x: Value, acc: Value, writerAllow: bool, allow: bool, rest: seq<byte>)
    requires |fs| == 1 && Property(v, fs[0].name) == Some(x) && acc.Obj? && rest != []
    requires WellFormedFields(fs) && WriteFields(fs, v, false, writerAllow).Success?
    requires
      var w := Write(fs[0].ty, x, false, writerAllow).value;
      Differs(Take(fs[0].ty, w.bytes + rest, allow), Returned(fs[0].ty, x, writerAllow, allow, false))
    ensures Differs(TakeFields(fs, WriteFields(fs, v, false, writerAllow).value.bytes + rest, acc, allow),
                    ReturnedFields(fs, v, acc, false, writerAllow, allow, false))
  {
    var f := fs[0];
    var w := Write(f.ty, x, false, writerAllow).value;
    assert fs[1..] == [] && w.bytes + [] == w.bytes;
    var due := Obj(acc.fields[f.name := Returned(f.ty, x, writerAllow, allow, false)]);
    assert ReturnedFields(fs, v, acc, false, writerAllow, allow, false) == ReturnedFields([], v, due, w.skipped, writerAllow, allow, false) == due;
    var got := Take(f.ty, w.bytes + rest, allow);
    if got.Success? {
      var acc' := Obj(acc.fields[f.name := got.value.value]);
      assert TakeFields(fs, w.bytes + rest, acc, allow) == TakeFields([], got.value.rest, acc', allow);
      assert acc'.fields[f.name] != due.fields[f.name];
    }
  }

  /** Before a suffix, exactly the values from which no declared extension is absent are read back. */
  lemma {:induction false} SkipNeedsEnd(t: Type, v: Value, writerAllow: bool, allow: bool, rest: seq<byte>)
    requires WellFormed(t) && DistinctNames(t) && Write(t, v, false, writerAllow).Success?
    requires (writerAllow ==> allow) && rest != []
    ensures Take(t, Write(t, v, false, writerAllow).value.bytes + rest, allow)
            == Success(Read(Returned(t, v, writerAllow, allow, false), rest))
            <==> !Absent(t, v)
  {
    hide Write, Take, Returned, Absent;
    SkipIsAbsent(t, v, false, writerAllow);
    if Absent(t, v) {
      SkipDiffers(t, v, writerAllow, allow, rest);
    } else {
      RoundTrip(t, v, writerAllow, allow, rest);
    }
  }
}
