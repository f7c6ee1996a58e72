/**
 * The growable buffer with a read cursor of packages/coin-eos/src/serialize.ts. Writing
 * appends to the contents, reading consumes the unread bytes exactly as the functions of
 * `EosSerial` say, and neither disturbs the other.
 */
module EosSerialBuffer {
  import opened Wrappers
  import opened Numerals
  import opened JsInt
  import opened JsBytes
  import Leb128
  import ZigZag
  import opened EosBignum
  import opened JsVarint
  import EosName
  import EosAsset
  import opened EosSerial
  import opened EosFixed

  // ---- growth

  /** `Math.ceil(l * 1.5)` */
  function Grow(l: nat): (r: nat)
    ensures l > 0 ==> r > l
  {
    (3 * l + 1) / 2
  }

  /** The first size from `l` on that holds `need` bytes. */
  function GrownTo(l: nat, need: nat): (r: nat)
    requires l > 0
    ensures r >= need && r >= l
    decreases need - l
  {
    if need <= l then l else GrownTo(Grow(l), need)
  }

  function GrowTimes(l: nat, n: nat): nat
    decreases n
  {
    if n == 0 then l else GrowTimes(Grow(l), n - 1)
  }

  /** The growth loop of `reserve` reaches any size from a non-empty array, and no size from an empty one. */
  lemma {:induction false} GrowReaches(l: nat, need: nat)
    ensures (exists n :: GrowTimes(l, n) >= need) <==> l > 0 || need == 0
  {
    if l > 0 {
      var n := GrowSteps(l, need);
    } else if need == 0 {
      assert GrowTimes(l, 0) >= need;
    } else {
      forall n
        ensures GrowTimes(0, n) == 0
      {
        GrowZero(n);
      }
    }
  }

  lemma {:induction false} GrowZero(n: nat)
    ensures GrowTimes(0, n) == 0
    decreases n
  {
    if n > 0 {
      GrowZero(n - 1);
    }
  }

  lemma {:induction false} GrowSteps(l: nat, need: nat) returns (n: nat)
    requires l > 0
    ensures GrowTimes(l, n) == GrownTo(l, need)
    decreases need - l
  {
    if need <= l {
      n := 0;
    } else {
      var m := GrowSteps(Grow(l), need);
      n := m + 1;
    }
  }

  // ---- contracts of the reading methods

  /** `r` is what `spec` reads, and after a success the bytes left are those that `spec` leaves. */
  ghost predicate Reads<T>(spec: Result<Read<T>, SerialError>, r: Result<T, SerialError>, left: seq<byte>) {
    match spec
    case Success(x) => r == Success(x.value) && left == x.rest
    case Failure(e) => r == Failure(e)
  }

  class SerialBuffer {
    var data: array<byte>
    var length: nat
    var readPos: nat

    ghost predicate Valid()
      reads this
    {
      readPos <= length <= data.Length
    }

    /** `reserve` can grow the array. */
    ghost predicate Growable()
      reads this
    {
      data.Length > 0
    }

    ghost function Contents(): seq<byte>
      requires Valid()
      reads this, data
    {
      data[..length]
    }

    ghost function Unread(): seq<byte>
      requires Valid()
      reads this, data
    {
      data[readPos..length]
    }

    constructor ()
      ensures Valid() && Growable() && fresh(data)
      ensures Contents() == [] && readPos == 0
    {
      data := new byte[1024];
      length, readPos := 0, 0;
    }

    constructor FromArray(a: array<byte>)
      ensures Valid() && data == a
      ensures Contents() == a[..] && Unread() == a[..] && readPos == 0
    {
      data := a;
      length, readPos := a.Length, 0;
    }

    method Reserve(size: nat)
      requires Valid() && (Growable() || size == 0)
      modifies this`data
      ensures Valid() && (old(Growable()) ==> Growable()) && Contents() == old(Contents())
      ensures length + size <= data.Length
      ensures data == old(data) || fresh(data)
      ensures data == old(data) <==> length + size <= old(data.Length)
      ensures old(Growable()) ==> data.Length == GrownTo(old(data.Length), length + size)
    {
      if length + size <= data.Length {
        return;
      }
      var l := data.Length;
      while length + size > l
        invariant l > 0 && l >= data.Length
        invariant GrownTo(l, length + size) == GrownTo(data.Length, length + size)
        decreases length + size - l
      {
        l := Grow(l);
      }
      var a := data;
      var newArray := new byte[l](i requires 0 <= i < l reads a => if i < a.Length then a[i] else 0);
      data := newArray;
    }

    method PushArray(v: seq<byte>)
      requires Valid() && (Growable() || v == [])
      modifies this`data, this`length, data
      ensures Valid() && (old(Growable()) ==> Growable()) && Contents() == old(Contents()) + v
      ensures data == old(data) || fresh(data)
    {
      Reserve(|v|);
      forall i | 0 <= i < |v| {
        data[length + i] := v[i];
      }
      length := length + |v|;
    }

    method Push(v: seq<int>)
      requires Valid() && Growable()
      modifies this`data, this`length, data
      ensures Valid() && Growable() && Contents() == old(Contents()) + AsBytes(v)
      ensures data == old(data) || fresh(data)
    {
      PushArray(AsBytes(v));
    }

    method HaveReadData() returns (r: bool)
      requires Valid()
      ensures r <==> Unread() != []
    {
      return readPos < length;
    }

    method RestartRead()
      requires Valid()
      modifies this`readPos
      ensures Valid() && Unread() == Contents()
    {
      readPos := 0;
    }

    method AsUint8Array() returns (b: seq<byte>)
      requires Valid()
      ensures b == Contents()
    {
      return data[..length];
    }

    method Get() returns (r: Result<byte, SerialError>)
      requires Valid()
      modifies this`readPos
      ensures Valid() && Reads(ReadByte(old(Unread())), r, Unread())
      ensures old(readPos) <= readPos && (r.Failure? ==> readPos == old(readPos))
    {
      if readPos < length {
        r := Success(data[readPos]);
        readPos := readPos + 1;
      } else {
        r := Failure(PastEnd);
      }
    }

    method GetUint8Array(len: nat) returns (r: Result<seq<byte>, SerialError>)
      requires Valid()
      modifies this`readPos
      ensures Valid() && Reads(ReadBytes(old(Unread()), len), r, Unread())
      ensures old(readPos) <= readPos && (r.Failure? ==> readPos == old(readPos))
    {
      if readPos + len > length {
        return Failure(PastEnd);
      }
      ghost var unread := Unread();
      var b := data[readPos..readPos + len];
      assert forall i :: 0 <= i < len ==> b[i] == unread[i];
      assert b == unread[..len];
      r := Success(b);
      readPos := readPos + len;
      assert Unread() == unread[len..];
    }

    method Skip(len: nat) returns (r: Result<(), SerialError>)
      requires Valid()
      modifies this`readPos
      ensures Valid()
      ensures r.Success? <==> len <= |old(Unread())|
      ensures r.Success? ==> Unread() == old(Unread())[len..]
      ensures r.Failure? ==> r == Failure(PastEnd) && readPos == old(readPos)
      ensures old(readPos) <= readPos
    {
      if readPos + len > length {
        return Failure(PastEnd);
      }
      readPos := readPos + len;
      return Success(());
    }

    // ---- fixed-width integers

    method PushUint16(v: int)
      requires Valid() && Growable()
      modifies this`data, this`length, data
      ensures Valid() && Growable() && Contents() == old(Contents()) + StoredFixed(v, 2)
      ensures data == old(data) || fresh(data)
    {
      PushedTwo(v);
      Push([And(Sar(v, 0), 0xff), And(Sar(v, 8), 0xff)]);
    }

    method PushUint32(v: int)
      requires Valid() && Growable()
      modifies this`data, this`length, data
      ensures Valid() && Growable() && Contents() == old(Contents()) + StoredFixed(v, 4)
      ensures data == old(data) || fresh(data)
    {
      PushedFour(v);
      Push([And(Sar(v, 0), 0xff), And(Sar(v, 8), 0xff), And(Sar(v, 16), 0xff), And(Sar(v, 24), 0xff)]);
    }

    method GetUint16() returns (r: Result<int, SerialError>)
      requires Valid()
      modifies this`readPos
      ensures Valid() && old(readPos) <= readPos
      ensures Reads(ReadFixed(old(Unread()), 2, false), r, Unread())
    {
      ghost var s := Unread();
      var b0 :- Get();
      var b1 :- Get();
      r := Success(Or(Or(0, Shl(b0, 0)), Shl(b1, 8)));
      JoinTwoIs([b0, b1]);
      assert s[..2] == [b0, b1] && s[2..] == Unread();
    }

    method GetUint32() returns (r: Result<int, SerialError>)
      requires Valid()
      modifies this`readPos
      ensures Valid() && old(readPos) <= readPos
      ensures Reads(ReadFixed(old(Unread()), 4, false), r, Unread())
    {
      hide Shl, Or, ToUint32;
      ghost var s := Unread();
      var b0 :- Get();
      var b1 :- Get();
      var b2 :- Get();
      var b3 :- Get();
      var v := Or(Or(0, Shl(b0, 0)), Shl(b1, 8));
      r := Success(ToUint32(Or(Or(v, Shl(b2, 16)), Shl(b3, 24))));
      assert s[..4] == [b0, b1, b2, b3] && s[4..] == Unread();
      assert [b0, b1, b2, b3][..2] == [b0, b1];
      JoinFourIs([b0, b1, b2, b3]);
    }

    // ---- variable-width integers

    method PushVaruint32(v0: int)
      requires Valid() && Growable()
      modifies this`data, this`length, data
      ensures Valid() && Growable() && Contents() == old(Contents()) + Leb128.Encode(ToUint32(v0))
      ensures data == old(data) || fresh(data)
    {
      hide ToUint32, ShrU, Or, And;
      var v := v0;
      ghost var all := Contents() + Leb128.Encode(ToUint32(v0));
      PushedGroup(v);
      while ShrU(v, 7) != 0
        invariant Valid() && Growable()
        invariant data == old(data) || fresh(data)
        invariant Contents() + Leb128.Encode(ToUint32(v)) == all && ShrU(v, 7) == ToUint32(v) / 128
        decreases ToUint32(v)
      {
        PushedGroup(v);
        ghost var before, u := Contents(), ToUint32(v);
        Push([Or(0x80, And(v, 0x7f))]);
        AppendStep(before, u % 128 + 128, Leb128.Encode(u / 128));
        v := ShrU(v, 7);
        PushedGroup(v);
      }
      PushedGroup(v);
      Push([v]);
    }

    method GetVaruint32() returns (r: Result<nat, SerialError>)
      requires Valid()
      modifies this`readPos
      ensures Valid() && old(readPos) <= readPos
      ensures Reads(ReadVaruint32(old(Unread())), r, Unread())
    {
      hide Accumulate, And, Or, Shl, ToUint32;
      ghost var s := Unread();
      AccumulateNone(s);
      var v, bit := 0, 0;
      ghost var i := 0;
      while true
        invariant Valid() && old(readPos) <= readPos
        invariant i <= |s| && Unread() == s[i..]
        invariant v == Accumulate(s[..i]) && bit == 7 * i
        invariant forall j :: 0 <= j < i ==> s[j] >= 128
        decreases |s| - i
      {
        var got := Get();
        if got.Failure? {
          Leb128.GroupLengthNone(s);
          return Failure(got.error);
        }
        var b := got.value;
        AccumulateNext(s, i);
        v := Or(v, Shl(And(b, 0x7f), bit));
        bit := bit + 7;
        i := i + 1;
        Mask7(b);
        if And(b, 0x80) == 0 {
          break;
        }
      }
      GroupRead(s, i);
      return Success(ToUint32(v));
    }

    method PushVarint32(v: int)
      requires Valid() && Growable()
      modifies this`data, this`length, data
      ensures Valid() && Growable() && Contents() == old(Contents()) + Leb128.Encode(ZigZag.Encode(ToInt32(v)))
      ensures data == old(data) || fresh(data)
    {
      hide Xor, Shl, Sar, ToUint32, ToInt32, ZigZag.Encode;
      ZigZag.EncodeAny(v);
      SelfWord(ZigZag.Encode(ToInt32(v)));
      PushVaruint32(ToUint32(Xor(Shl(v, 1), Sar(v, 31))));
    }

    method GetVarint32() returns (r: Result<int, SerialError>)
      requires Valid()
      modifies this`readPos
      ensures Valid() && old(readPos) <= readPos
      ensures Reads(ReadVarint32(old(Unread())), r, Unread())
    {
      var v :- GetVaruint32();
      ZigZag.Decode32Is(v);
      if And(v, 1) != 0 {
        return Success(Or(Sar(Not(v), 1), 0x8000_0000));
      } else {
        return Success(ShrU(v, 1));
      }
    }

    // ---- byte strings, names, assets

    method PushUint8ArrayChecked(v: seq<byte>, len: nat) returns (r: Result<(), SerialError>)
      requires Valid() && Growable()
      modifies this`data, this`length, data
      ensures Valid() && Growable() && (data == old(data) || fresh(data))
      ensures r == if |v| == len then Success(()) else Failure(WrongSize)
      ensures Contents() == if r.Success? then old(Contents()) + v else old(Contents())
    {
      if |v| != len {
        return Failure(WrongSize);
      }
      PushArray(v);
      return Success(());
    }

    method PushBytes(v: seq<byte>)
      requires Valid() && Growable() && |v| < 0x1_0000_0000
      modifies this`data, this`length, data
      ensures Valid() && Growable() && (data == old(data) || fresh(data))
      ensures Contents() == old(Contents()) + (Leb128.Encode(|v|) + v)
    {
      PushVaruint32(|v|);
      PushArray(v);
    }

    method GetBytes() returns (r: Result<seq<byte>, SerialError>)
      requires Valid()
      modifies this`readPos
      ensures Valid() && old(readPos) <= readPos
      ensures Reads(ReadBlob(old(Unread())), r, Unread())
    {
      var n :- GetVaruint32();
      r := GetUint8Array(n);
    }

    method PushName(s: string) returns (r: Result<(), SerialError>)
      requires Valid() && Growable()
      modifies this`data, this`length, data
      ensures Valid() && Growable() && (data == old(data) || fresh(data))
      ensures r == if EosName.IsName(s) then Success(()) else Failure(BadName)
      ensures Contents() == if r.Success? then old(Contents()) + EosName.Pack(s) else old(Contents())
    {
      var a := EosName.PackName(s);
      if a.None? {
        return Failure(BadName);
      }
      PushArray(a.value);
      return Success(());
    }

    method GetName() returns (r: Result<string, SerialError>)
      requires Valid()
      modifies this`readPos
      ensures Valid() && old(readPos) <= readPos
      ensures Reads(ReadName(old(Unread())), r, Unread())
    {
      var a :- GetUint8Array(8);
      var s := EosName.UnpackName(a);
      return Success(s);
    }

    /** The amount is pushed before the symbol is checked. */
    method PushAsset(s: string) returns (r: Result<(), EosAsset.AssetError>)
      requires Valid() && Growable()
      modifies this`data, this`length, data
      ensures Valid() && Growable() && (data == old(data) || fresh(data))
      ensures r.Success? <==> EosAsset.ParseAsset(s).Success?
      ensures r.Success? ==> Contents() == old(Contents()) + EosAsset.ParseAsset(s).value
      ensures r.Failure? ==> r.error == EosAsset.ParseAsset(s).error && old(Contents()) <= Contents()
    {
      var c := EosAsset.CutAsset(EosAsset.Trim(s));
      if c.whole == [] {
        return Failure(EosAsset.NoDigits);
      }
      var amount := SignedDecimalToBinary(8, EosAsset.Sign(c.minus) + c.whole + c.fraction);
      if amount.Failure? {
        return Failure(EosAsset.BadAmount(amount.error));
      }
      var a := amount.value[..];
      PushArray(a);
      var symbol :- EosAsset.PackSymbol(c.name, |c.fraction|);
      PushArray(symbol);
      ConcatAssoc(old(Contents()), a, symbol);
      return Success(());
    }

    method GetAsset() returns (r: Result<string, SerialError>)
      requires Valid()
      modifies this`readPos
      ensures Valid() && old(readPos) <= readPos
      ensures Reads(ReadAsset(old(Unread())), r, Unread())
    {
      ghost var s := Unread();
      var amount :- GetUint8Array(8);
      var precision :- Get();
      var letters :- GetUint8Array(7);
      var a := amount + [precision] + letters;
      assert s[..16] == a && s[16..] == Unread();
      var text := EosAsset.GetAssetString(a);
      return Success(text);
    }
  }

  // ---- what the composite readers take

  function ReadFixed(s: seq<byte>, size: nat, signed: bool): Result<Read<int>, SerialError> {
    var r := ReadBytes(s, size);
    if r.Failure? then Failure(r.error) else Success(Read(LoadedFixed(r.value.value, signed), r.value.rest))
  }

  function ReadVarint32(s: seq<byte>): Result<Read<int>, SerialError> {
    var r := ReadVaruint32(s);
    if r.Failure? then Failure(r.error) else Success(Read(ZigZag.Decode(r.value.value), r.value.rest))
  }

  function ReadBlob(s: seq<byte>): Result<Read<seq<byte>>, SerialError> {
    var k := ReadVaruint32(s);
    if k.Failure? then Failure(k.error) else ReadBytes(k.value.rest, k.value.value)
  }

  function ReadName(s: seq<byte>): Result<Read<string>, SerialError> {
    var r := ReadBytes(s, 8);
    if r.Failure? then Failure(r.error) else Success(Read(EosName.NameOf(r.value.value), r.value.rest))
  }

  function ReadAsset(s: seq<byte>): Result<Read<string>, SerialError> {
    var r := ReadBytes(s, 16);
    if r.Failure? then Failure(r.error) else Success(Read(EosAsset.PrintAsset(r.value.value), r.value.rest))
  }

  lemma AccumulateNone(s: seq<byte>)
    ensures Accumulate(s[..0]) == 0
  {
  }

  /** The accumulator after one more byte. */
  lemma {:induction false} AccumulateNext(s: seq<byte>, i: nat)
    requires i < |s|
    ensures Accumulate(s[..i + 1]) == Or(Accumulate(s[..i]), Shl(And(s[i], 0x7f), 7 * i))
  {
    assert s[..i + 1][..i] == s[..i] && s[..i + 1][i] == s[i];
  }

  /** The group that ends with byte `i - 1`. */
  lemma {:induction false} GroupRead(s: seq<byte>, i: nat)
    requires 0 < i <= |s| && s[i - 1] < 128 && forall j :: 0 <= j < i - 1 ==> s[j] >= 128
    ensures ReadVaruint32(s) == Success(Read(ToUint32(Accumulate(s[..i])), s[i..]))
  {
    hide Accumulate, ToUint32;
    Leb128.GroupLengthIs(s, i);
  }

  /** The byte that `pushVaruint32` pushes in one step, and what it goes on with. */
  lemma {:induction false} PushedGroup(v: int)
    ensures var u := ToUint32(v);
      && ShrU(v, 7) == u / 128 == ToUint32(u / 128)
      && (u >= 128 ==> AsBytes([Or(0x80, And(v, 0x7f))]) == [u % 128 + 128])
      && (u < 128 ==> AsBytes([v]) == [u] == Leb128.Encode(u))
  {
    hide Or, And, ShrU, ToUint32;
    var u: nat := ToUint32(v);
    GroupBits(v);
    SelfWord(u / 128);
    ByteKept(u % 128 + 128);
    if u < 128 {
      LowestByte(v);
    }
  }

  lemma {:induction false} GroupBits(v: int)
    ensures ShrU(v, 7) == ToUint32(v) / 128 && Or(0x80, And(v, 0x7f)) == ToUint32(v) % 128 + 128
  {
    Two7();
    ShrUIs(ToUint32(v), 7, 128);
    assert ShrU(v, 7) == ShrU(ToUint32(v), 7);
    MaskIs(v, ToUint32(v), 7, 128);
    SetBit7(ToUint32(v) % 128);
  }

  lemma {:induction false} LowestByte(v: int)
    requires ToUint32(v) < 128
    ensures AsBytes([v]) == [ToUint32(v)] == Leb128.Encode(ToUint32(v))
  {
    WordMod(v, v / 0x1_0000_0000, ToUint32(v));
  }

  lemma {:induction false} ByteKept(b: byte)
    ensures AsBytes([b]) == [b]
  {
  }
}
