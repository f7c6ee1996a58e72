/**
 * Protobuf varints of packages/coin-cosmos/src/varint.ts. A 64-bit number is a pair of
 * 32-bit halves, each of which may be held signed or unsigned.
 */
module CosmosVarint {
  import opened Wrappers
  import opened Numerals
  import opened JsInt
  import opened JsBytes
  import Leb128
  import ZigZag

  /** A half as JavaScript holds it, with or without sign. */
  type half = x: int | -0x8000_0000 <= x < 0x1_0000_0000

  /** The 64-bit word of two halves. */
  function Word(lo: int, hi: int): (w: nat)
    ensures w < 0x1_0000_0000_0000_0000
  {
    ToUint32(lo) + 0x1_0000_0000 * ToUint32(hi)
  }

  /** The two's-complement reading of a 64-bit word. */
  function Signed64(w: nat): int {
    if w < 0x8000_0000_0000_0000 then w else w - 0x1_0000_0000_0000_0000
  }

  // ---- int64Length

  function Part1(lo: int, hi: int): int {
    ToUint32(Or(ShrU(lo, 28), Shl(hi, 4)))
  }

  function Int64Length(lo: int, hi: int): nat {
    var part0, part1, part2 := lo, Part1(lo, hi), ShrU(hi, 24);
    if part2 == 0 then
      if part1 == 0 then
        (if part0 < 16384 then (if part0 < 128 then 1 else 2) else if part0 < 2097152 then 3 else 4)
      else if part1 < 16384 then (if part1 < 128 then 5 else 6)
      else if part1 < 2097152 then 7 else 8
    else if part2 < 128 then 9 else 10
  }

  /** The bits from 28 on, below 2^32. */
  lemma {:induction false} Part1Is(lo: int, hi: int, l: nat, h: nat)
    requires ToUint32(lo) == l && ToUint32(hi) == h
    ensures Part1(lo, hi) == l / 0x1000_0000 + 16 * (h % 0x1000_0000)
  {
    Two28();
    assert ShrU(lo, 28) == l / 0x1000_0000;
    Two4();
    var m := ShlWraps(hi, 4, 16);
    var q := hi / 0x1_0000_0000;
    assert hi == h + 0x1_0000_0000 * q;
    assert h == 0x1000_0000 * (h / 0x1000_0000) + h % 0x1000_0000;
    var y := Shl(hi, 4);
    FloorUnique(y, 0x1_0000_0000, 16 * q + m + h / 0x1000_0000, 16 * (h % 0x1000_0000));
    OrJoin(ShrU(lo, 28), y, l / 0x1000_0000, h % 0x1000_0000, 4, 16);
  }

  lemma {:induction false} Pow128Literals()
    ensures Pow(128, 1) == 0x80 && Pow(128, 2) == 0x4000 && Pow(128, 3) == 0x20_0000 && Pow(128, 4) == 0x1000_0000
    ensures Pow(128, 5) == 0x8_0000_0000 && Pow(128, 6) == 0x400_0000_0000 && Pow(128, 7) == 0x2_0000_0000_0000
    ensures Pow(128, 8) == 0x100_0000_0000_0000 && Pow(128, 9) == 0x8000_0000_0000_0000
  {
    assert Pow(128, 1) == 128 * Pow(128, 0);
    assert Pow(128, 2) == 128 * Pow(128, 1);
    assert Pow(128, 3) == 128 * Pow(128, 2);
    assert Pow(128, 4) == 128 * Pow(128, 3);
    assert Pow(128, 5) == 128 * Pow(128, 4);
    assert Pow(128, 6) == 128 * Pow(128, 5);
    assert Pow(128, 7) == 128 * Pow(128, 6);
    assert Pow(128, 8) == 128 * Pow(128, 7);
    assert Pow(128, 9) == 128 * Pow(128, 8);
  }

  /** The number of groups, by thresholds. */
  function Groups(w: nat): nat {
    if w < 0x80 then 1 else if w < 0x4000 then 2 else if w < 0x20_0000 then 3 else if w < 0x1000_0000 then 4
    else if w < 0x8_0000_0000 then 5 else if w < 0x400_0000_0000 then 6 else if w < 0x2_0000_0000_0000 then 7
    else if w < 0x100_0000_0000_0000 then 8 else if w < 0x8000_0000_0000_0000 then 9 else 10
  }

  lemma {:induction false} GroupsIs(w: nat)
    requires w < 0x1_0000_0000_0000_0000
    ensures |Leb128.Encode(w)| == Groups(w)
  {
    Pow128Literals();
    assert Pow(128, 10) == 128 * Pow(128, 9);
    var n := Groups(w);
    Leb128.EncodeLength(w, n);
    if n > 1 {
      Leb128.EncodeLength(w, n - 1);
    }
  }

  /** `int64Length` is exact for every pair of halves, signed or not. */
  lemma {:induction false} LengthExact(lo: half, hi: half)
    ensures Int64Length(lo, hi) == |Leb128.Encode(Word(lo, hi))|
  {
    var l, h := ToUint32(lo), ToUint32(hi);
    Part1Is(lo, hi, l, h);
    assert ShrU(hi, 24) == h / 0x100_0000 by { Two24(); }
    GroupsIs(Word(lo, hi));
    LengthByParts(lo, l, h, Part1(lo, hi), ShrU(hi, 24), Word(lo, hi));
  }

  lemma {:induction false} LengthByParts(lo: half, l: nat, h: nat, part1: int, part2: int, w: nat)
    requires l == ToUint32(lo) && h < 0x1_0000_0000 && w == l + 0x1_0000_0000 * h
    requires part1 == l / 0x1000_0000 + 16 * (h % 0x1000_0000) && part2 == h / 0x100_0000
    ensures Groups(w) ==
      if part2 == 0 then
        if part1 == 0 then (if lo < 16384 then (if lo < 128 then 1 else 2) else if lo < 2097152 then 3 else 4)
        else if part1 < 16384 then (if part1 < 128 then 5 else 6)
        else if part1 < 2097152 then 7 else 8
      else if part2 < 128 then 9 else 10
  {
    if part2 == 0 {
      assert h % 0x1000_0000 == h;
      assert w == 0x1000_0000 * part1 + l % 0x1000_0000;
    }
  }

  // ---- the writers

  /** `b` written over `before` at `pos`. */
  function Placed(before: seq<byte>, pos: nat, b: seq<byte>): (after: seq<byte>)
    requires pos + |b| <= |before|
    ensures |after| == |before|
  {
    before[..pos] + b + before[pos + |b|..]
  }

  /** A mutable pair of halves: the `{ lo, hi }` object that a writing operation holds. */
  class Bits {
    var lo: half
    var hi: half

    constructor (lo: half, hi: half)
      ensures this.lo == lo && this.hi == hi
    {
      this.lo, this.hi := lo, hi;
    }
  }

  /** The `lo` for which `writeVarint64` stops early: signed, with nothing in `hi`. */
  predicate StopsEarly(lo: half, hi: half) {
    lo < 0 && hi == 0
  }

  /** The bytes that `writeVarint64` writes. */
  function Emitted(lo: half, hi: half): seq<byte> {
    if StopsEarly(lo, hi) then [lo % 256] else Leb128.Encode(Word(lo, hi))
  }

  /** What `writeVarint64` leaves in `lo`; `hi` ends as zero. */
  function Remnant(lo: half, hi: half): half {
    if StopsEarly(lo, hi) then lo else LastGroup(Word(lo, hi))
  }

  /** The most significant group. */
  function LastGroup(w: nat): (g: nat)
    ensures g < 128
    decreases w
  {
    if w < 128 then w else LastGroup(w / 128)
  }

  /** One step of the first loop: the group to write, and the halves shifted down. */
  method NextGroup64(lo: half, hi: half) returns (b: byte, lo': half, hi': half)
    requires hi != 0
    ensures Emitted(lo, hi) == [b] + Emitted(lo', hi')
    ensures lo' >= 0 && hi' >= 0 && Remnant(lo, hi) == Remnant(lo', hi')
    ensures Word(lo', hi') < Word(lo, hi)
  {
    GroupByte(lo);
    ShiftHalves(lo, hi);
    b := Or(And(lo, 127), 128);
    lo', hi' := ToUint32(Or(ShrU(lo, 7), Shl(hi, 25))), ShrU(hi, 7);
    StepOf(Word(lo, hi), Word(lo', hi'), b);
  }

  /** One step of the second loop. */
  method NextGroup(lo: half) returns (b: byte, lo': half)
    requires lo > 127
    ensures 0 <= lo' < lo && LastGroup(lo) == LastGroup(lo')
    ensures Leb128.Encode(lo) == [b] + Leb128.Encode(lo')
  {
    LowGroup(lo);
    b := Or(And(lo, 127), 128);
    lo' := ShrU(lo, 7);
    StepOf(lo, lo', b);
  }

  lemma {:induction false} StepOf(w: nat, w': nat, b: byte)
    requires w >= 128 && b == w % 128 + 128 && w' == w / 128
    ensures Leb128.Encode(w) == [b] + Leb128.Encode(w') && LastGroup(w) == LastGroup(w') && w' < w
  {
  }

  lemma {:induction false} LowGroup(lo: half)
    requires lo >= 0
    ensures Or(And(lo, 127), 128) == lo % 128 + 128 && ShrU(lo, 7) == lo / 128
  {
    assert ToUint32(lo) == lo;
    Two7();
    ShrUIs(lo, 7, 128);
    MaskIs(lo, lo, 7, 128);
    SetBit7(lo % 128);
  }

  lemma {:induction false} ShiftHalves(lo: half, hi: half)
    requires hi != 0
    ensures var l, h := ToUint32(Or(ShrU(lo, 7), Shl(hi, 25))), ShrU(hi, 7);
      && h < 0x1_0000_0000 && Word(l, h) == Word(lo, hi) / 128
    ensures Word(lo, hi) >= 128 && Word(lo, hi) % 128 == ToUint32(lo) % 128
  {
    hide *;
    var l, h := ToUint32(lo), ToUint32(hi);
    JoinHalves(lo, hi, l, h);
    ShiftedHigh(hi, h);
    var x, y := ToUint32(Or(ShrU(lo, 7), Shl(hi, 25))), ShrU(hi, 7);
    WordIs(x, y, x, y);
    WordIs(lo, hi, l, h);
    HalvesDivide(l, h);
  }

  lemma {:induction false} ShiftedHigh(hi: half, h: nat)
    requires h == ToUint32(hi)
    ensures ShrU(hi, 7) == h / 128 <= 0x1_0000_0000 && ToUint32(h / 128) == h / 128 && (hi != 0 ==> h > 0)
  {
    Two7();
  }

  lemma {:induction false} WordIs(x: int, y: int, l: nat, h: nat)
    requires (ToUint32(x) == l && ToUint32(y) == h) || (0 <= x == l < 0x1_0000_0000 && 0 <= y == h < 0x1_0000_0000)
    ensures Word(x, y) == l + 0x1_0000_0000 * h
  {
  }

  lemma {:induction false} UnsignedLow(lo: half)
    requires lo >= 0
    ensures Word(lo, 0) == lo && Emitted(lo, 0) == Leb128.Encode(lo) && Remnant(lo, 0) == LastGroup(lo)
  {
  }

  lemma {:induction false} JoinHalves(lo: int, hi: int, l: nat, h: nat)
    requires l == ToUint32(lo) && h == ToUint32(hi)
    ensures ToUint32(Or(ShrU(lo, 7), Shl(hi, 25))) == l / 128 + (h % 128) * 0x200_0000
  {
    ShlHigh(hi, h);
    assert ShrU(lo, 7) == l / 128 by { Two7(); }
    Two25();
    OrJoin(ShrU(lo, 7), Shl(hi, 25), l / 128, h % 128, 25, 0x200_0000);
  }

  lemma {:induction false} ShlHigh(hi: int, h: nat)
    requires h == ToUint32(hi)
    ensures ToUint32(Shl(hi, 25)) == (h % 128) * 0x200_0000
  {
    Two25();
    var m := ShlWraps(hi, 25, 0x200_0000);
    var q := hi / 0x1_0000_0000;
    assert hi == h + 0x1_0000_0000 * q;
    assert h == 128 * (h / 128) + h % 128;
    FloorUnique(Shl(hi, 25), 0x1_0000_0000, 0x200_0000 * q + m + h / 128, 0x200_0000 * (h % 128));
  }

  lemma {:induction false} HalvesDivide(l: nat, h: nat)
    requires l < 0x1_0000_0000 && 0 < h < 0x1_0000_0000
    ensures (l + 0x1_0000_0000 * h) / 128 == l / 128 + (h % 128) * 0x200_0000 + 0x1_0000_0000 * (h / 128)
    ensures (l + 0x1_0000_0000 * h) % 128 == l % 128
  {
    assert l == 128 * (l / 128) + l % 128;
    assert h == 128 * (h / 128) + h % 128;
    FloorUnique(l + 0x1_0000_0000 * h, 128, l / 128 + 0x200_0000 * h, l % 128);
  }

  /** `(x & 127) | 128` */
  lemma {:induction false} GroupByte(x: int)
    ensures Or(And(x, 127), 128) == ToUint32(x) % 128 + 128
  {
    Two7();
    MaskIs(x, ToUint32(x), 7, 128);
    SetBit7(ToUint32(x) % 128);
  }

  lemma {:induction false} NegativeLow(lo: half)
    requires lo < 0
    ensures Emitted(lo, 0) == [lo % 256] && Remnant(lo, 0) == lo
  {
  }

  method WriteVarint64(val: Bits, buf: array<byte>, pos: nat)
    requires pos + |Emitted(val.lo, val.hi)| <= buf.Length
    modifies val, buf
    ensures buf[..] == Placed(old(buf[..]), pos, old(Emitted(val.lo, val.hi)))
    ensures val.lo == old(Remnant(val.lo, val.hi)) && val.hi == 0
  {
    hide Word, Emitted, Remnant;
    ghost var full := Emitted(val.lo, val.hi);
    ghost var was := buf[..];
    ghost var remnant := Remnant(val.lo, val.hi);
    var p := pos;
    while val.hi != 0
      invariant pos <= p <= pos + |full| && buf[..] == Placed(was, pos, full[..p - pos])
      invariant full[p - pos..] == Emitted(val.lo, val.hi) && remnant == Remnant(val.lo, val.hi)
      decreases Word(val.lo, val.hi)
    {
      var b, lo, hi := NextGroup64(val.lo, val.hi);
      PlacedNext(was, pos, full, p - pos, b);
      buf[p] := b;
      p := p + 1;
      val.lo := lo;
      val.hi := hi;
    }
    WriteLow(val, buf, p);
    PlacedRest(was, pos, full, p - pos);
  }

  /** The second loop, once nothing is left in `hi`. */
  method WriteLow(val: Bits, buf: array<byte>, pos: nat)
    requires val.hi == 0 && pos + |Emitted(val.lo, 0)| <= buf.Length
    modifies val, buf
    ensures buf[..] == Placed(old(buf[..]), pos, old(Emitted(val.lo, 0)))
    ensures val.lo == old(Remnant(val.lo, 0)) && val.hi == 0
  {
    hide *;
    if val.lo >= 0 {
      // a negative `lo` fails the loop condition at once
      UnsignedLow(val.lo);
      var p, rest := WriteGroups(val.lo, buf, pos);
      val.lo := rest;
      buf[p] := rest;
      PlacedRest(old(buf[..]), pos, old(Leb128.Encode(val.lo)), p - pos);
      PlacedOne(Placed(old(buf[..]), pos, old(Leb128.Encode(val.lo))[..p - pos]), p, rest);
    } else {
      NegativeLow(val.lo);
      buf[pos] := val.lo % 256;
      PlacedOne(old(buf[..]), pos, val.lo % 256);
    }
  }

  /** The loop of `writeVarint32`, and of `writeVarint64` on an unsigned `lo`. */
  method WriteGroups(value: half, buf: array<byte>, pos: nat) returns (p: nat, val: half)
    requires value >= 0 && pos + |Leb128.Encode(value)| <= buf.Length
    modifies buf
    ensures p + 1 == pos + |Leb128.Encode(value)| && 0 <= val == LastGroup(value)
    ensures Leb128.Encode(value)[p - pos..] == [val]
    ensures buf[..] == Placed(old(buf[..]), pos, Leb128.Encode(value)[..p - pos])
  {
    hide *;
    ghost var full := Leb128.Encode(value);
    ghost var was := buf[..];
    PlacedNone(was, pos);
    p, val := pos, value;
    while val > 127
      invariant 0 <= val && LastGroup(val) == LastGroup(value)
      invariant pos <= p <= pos + |full| && buf[..] == Placed(was, pos, full[..p - pos])
      invariant full[p - pos..] == Leb128.Encode(val)
      decreases val
    {
      var b, rest := NextGroup(val);
      PlacedNext(was, pos, full, p - pos, b);
      buf[p] := b;
      p := p + 1;
      val := rest;
    }
    OneGroup(val);
  }

  lemma {:induction false} OneGroup(val: nat)
    requires val < 128
    ensures Leb128.Encode(val) == [val] && LastGroup(val) == val
  {
  }

  lemma {:induction false} PlacedNone(was: seq<byte>, pos: nat)
    requires pos <= |was|
    ensures Placed(was, pos, []) == was
  {
  }

  /** The unsigned 32-bit writer; its caller passes `value >>> 0`. */
  method WriteVarint32(value: half, buf: array<byte>, pos: nat)
    requires value >= 0
    requires pos + |Leb128.Encode(value)| <= buf.Length
    modifies buf
    ensures buf[..] == Placed(old(buf[..]), pos, Leb128.Encode(value))
  {
    var p, val := WriteGroups(value, buf, pos);
    buf[p] := val;
    PlacedOne(Placed(old(buf[..]), pos, Leb128.Encode(value)[..p - pos]), p, val);
    PlacedRest(old(buf[..]), pos, Leb128.Encode(value), p - pos);
  }

  lemma {:induction false} PlacedAt(before: seq<byte>, pos: nat, b: seq<byte>, after: seq<byte>)
    requires pos + |b| <= |before| == |after|
    requires forall k :: 0 <= k < |b| ==> after[pos + k] == b[k]
    requires forall k :: 0 <= k < |after| && (k < pos || k >= pos + |b|) ==> after[k] == before[k]
    ensures after == Placed(before, pos, b)
  {
    forall k | 0 <= k < |after|
      ensures after[k] == Placed(before, pos, b)[k]
    {
      if pos <= k < pos + |b| {
        assert after[pos + (k - pos)] == b[k - pos];
      }
    }
  }

  lemma {:induction false} PlacedOne(before: seq<byte>, pos: nat, b: byte)
    requires pos < |before|
    ensures before[pos := b] == Placed(before, pos, [b])
  {
  }

  lemma {:induction false} PlacedNext(was: seq<byte>, pos: nat, full: seq<byte>, i: nat, b: byte)
    requires i <= |full| && pos + |full| <= |was| && full[i..] != [] && full[i..][0] == b
    ensures i < |full| && full[i..][1..] == full[i + 1..]
    ensures Placed(was, pos, full[..i])[pos + i := b] == Placed(was, pos, full[..i + 1])
  {
    var now, next := Placed(was, pos, full[..i])[pos + i := b], Placed(was, pos, full[..i + 1]);
    assert forall k :: 0 <= k < |was| ==> now[k] == next[k];
  }

  lemma {:induction false} PlacedRest(was: seq<byte>, pos: nat, full: seq<byte>, i: nat)
    requires i <= |full| && pos + |full| <= |was|
    ensures Placed(Placed(was, pos, full[..i]), pos + i, full[i..]) == Placed(was, pos, full)
  {
    var now, next := Placed(Placed(was, pos, full[..i]), pos + i, full[i..]), Placed(was, pos, full);
    assert forall k :: 0 <= k < |was| ==> now[k] == next[k];
  }

  /** When the 64-bit writer writes the encoding it announced: for every pair except a signed `lo` alone. */
  lemma {:induction false} EmittedIsEncoding(lo: half, hi: half)
    ensures Emitted(lo, hi) == Leb128.Encode(Word(lo, hi)) <==> !StopsEarly(lo, hi)
    ensures |Emitted(lo, hi)| <= Int64Length(lo, hi)
    ensures |Emitted(lo, hi)| == Int64Length(lo, hi) <==> !StopsEarly(lo, hi)
  {
    hide Leb128.Encode, Word, Groups;
    LengthExact(lo, hi);
    if StopsEarly(lo, hi) {
      EarlyGroups(lo);
      GroupsIs(Word(lo, hi));
    }
  }

  lemma {:induction false} EarlyGroups(lo: half)
    requires lo < 0
    ensures Groups(Word(lo, 0)) == 5
  {
    WordIs(lo, 0, lo + 0x1_0000_0000, 0);
  }

  // ---- varint64write

  /** One pushed byte: `(more ? x | 0x80 : x) & 0xff`. */
  function PushedByte(x: int, more: bool): int {
    And(if more then Or(x, 0x80) else x, 0xff)
  }

  lemma {:induction false} PushedByteIs(x: nat, more: bool)
    requires x < 0x1_0000_0000 && (more || x < 128)
    ensures PushedByte(x, more) == if more then x % 128 + 128 else x
  {
    hide And, Or;
    if more {
      MarkedByte(x);
    } else {
      LowByte(x);
    }
  }

  /** A pushed byte is the next byte of the encoding of `rest`. */
  ghost predicate Pushes(b: int, more: bool, rest: nat) {
    (more <==> rest >= 128) && b == if more then rest % 128 + 128 else rest
  }

  /** A group inside the low half. */
  lemma {:induction false} LowStep(lo: half, hi: half, i: nat, p: nat)
    requires (i == 0 && p == 1) || (i == 7 && p == 0x80) || (i == 14 && p == 0x4000) || (i == 21 && p == 0x20_0000)
    ensures var x := ShrU(lo, i); var more := !(ShrU(x, 7) == 0 && hi == 0);
      Pushes(PushedByte(x, more), more, Word(lo, hi) / p)
  {
    hide *;
    var l, h := ToUint32(lo), ToUint32(hi);
    var x := ShrU(lo, i);
    LowShift(lo, i, p);
    SmallShift(x);
    assert hi == 0 <==> h == 0 by { ZeroHalf(hi); }
    WordIs(lo, hi, l, h);
    LowQuotient(l, h, p);
    var more := !(x / 128 == 0 && h == 0);
    assert more || x < 128;
    PushedByteIs(x, more);
    PushesBy(PushedByte(x, more), more, x, Word(lo, hi) / p);
  }

  lemma PushesBy(b: int, more: bool, x: nat, rest: nat)
    requires (more <==> rest >= 128) && rest % 128 == x % 128 && (rest < 128 ==> x == rest)
    requires b == if more then x % 128 + 128 else x
    ensures Pushes(b, more, rest)
  {
  }

  lemma {:induction false} LowShift(lo: half, i: nat, p: nat)
    requires (i == 0 && p == 1) || (i == 7 && p == 0x80) || (i == 14 && p == 0x4000) || (i == 21 && p == 0x20_0000)
    ensures ShrU(lo, i) == ToUint32(lo) / p < 0x1_0000_0000
  {
    Two7();
    Two14();
    Two21();
  }

  lemma {:induction false} SmallShift(x: nat)
    requires x < 0x1_0000_0000
    ensures ShrU(x, 7) == x / 128
  {
    Two7();
  }

  lemma ZeroHalf(hi: half)
    ensures hi == 0 <==> ToUint32(hi) == 0
  {
  }

  lemma {:induction false} LowQuotient(l: nat, h: nat, p: nat)
    requires l < 0x1_0000_0000 && (p == 1 || p == 0x80 || p == 0x4000 || p == 0x20_0000)
    ensures var w := (l + 0x1_0000_0000 * h) / p;
      && w % 128 == l / p % 128
      && (w >= 128 <==> !(l / p / 128 == 0 && h == 0))
      && (w < 128 ==> w == l / p)
  {
    if p == 1 {
      QuotientBy(l, h, 1, 0x1_0000_0000, 0x200_0000);
    } else if p == 0x80 {
      QuotientBy(l, h, 0x80, 0x200_0000, 0x4_0000);
    } else if p == 0x4000 {
      QuotientBy(l, h, 0x4000, 0x4_0000, 0x800);
    } else {
      QuotientBy(l, h, 0x20_0000, 0x800, 0x10);
    }
  }

  lemma {:induction false} QuotientBy(l: nat, h: nat, p: nat, q: nat, q7: nat)
    requires p > 0 && p * q == 0x1_0000_0000 && q == 128 * q7 && q7 > 0
    ensures var w := (l + 0x1_0000_0000 * h) / p;
      && w % 128 == l / p % 128
      && (w >= 128 <==> !(l / p / 128 == 0 && h == 0))
      && (w < 128 ==> w == l / p)
  {
    var w := (l + 0x1_0000_0000 * h) / p;
    assert l + 0x1_0000_0000 * h == p * (l / p + q * h) + l % p by {
      Associate(p, q, h);
      Distribute(p, l / p, q * h);
    }
    FloorUnique(l + 0x1_0000_0000 * h, p, l / p + q * h, l % p);
    Associate(128, q7, h);
    var x, t := l / p, q7 * h;
    assert w == x + 128 * t;
    FloorUnique(w, 128, x / 128 + t, x % 128);
    if h > 0 {
      MulMono(1, h, q7);
    } else {
      assert t == 0;
    }
  }

  /** The group that spans both halves. */
  lemma {:induction false} MiddleStep(lo: half, hi: half)
    ensures var x := Or(And(ShrU(lo, 28), 0x0f), Shl(And(hi, 0x07), 4)); var more := !(Sar(hi, 3) == 0);
      Pushes(PushedByte(x, more), more, Word(lo, hi) / 0x1000_0000)
    ensures Word(lo, hi) / 0x1000_0000 / 128 == ToUint32(hi) / 8
  {
    hide *;
    var l, h := ToUint32(lo), ToUint32(hi);
    WordIs(lo, hi, l, h);
    SplitBits(lo, hi, l, h);
    HighLeft(hi, h);
    MiddleQuotient(l, h);
    var x, more := l / 0x1000_0000 + 16 * (h % 8), h >= 8;
    PushedByteIs(x, more);
    PushesBy(PushedByte(x, more), more, x, Word(lo, hi) / 0x1000_0000);
  }

  lemma {:induction false} SplitBits(lo: half, hi: half, l: nat, h: nat)
    requires l == ToUint32(lo) && h == ToUint32(hi)
    ensures Or(And(ShrU(lo, 28), 0x0f), Shl(And(hi, 0x07), 4)) == l / 0x1000_0000 + 16 * (h % 8)
  {
    hide *;
    var u, d := l / 0x1000_0000, h % 8;
    assert ShrU(lo, 28) == u by { TopBits(lo, l); }
    assert And(u, 0x0f) == u by { Two4(); WordMask(u, 4, 16); }
    assert And(hi, 0x07) == d by { Two3(); MaskIs(hi, h, 3, 8); }
    assert ToUint32(Shl(d, 4)) == d * 16 by { Two4(); ShlByte(d, 4, 16); }
    assert ToUint32(u) == u by { SelfWord(u); }
    Two4();
    OrJoin(u, Shl(d, 4), u, d, 4, 16);
    OrRange(u, Shl(d, 4));
    SmallWord(Or(u, Shl(d, 4)));
  }

  lemma {:induction false} WordMask(u: nat, k: nat, p: nat)
    requires p == Pow(2, k) && u < p <= 0x8000_0000
    ensures And(u, p - 1) == u
  {
    MaskIs(u, u, k, p);
    FloorUnique(u, p, 0, u);
  }

  lemma {:induction false} TopBits(lo: half, l: nat)
    requires l == ToUint32(lo)
    ensures ShrU(lo, 28) == l / 0x1000_0000 < 16
  {
    Two28();
  }

  lemma {:induction false} HighLeft(hi: half, h: nat)
    requires h == ToUint32(hi)
    ensures Sar(hi, 3) == 0 <==> h < 8
  {
    Two3();
  }

  lemma {:induction false} MiddleQuotient(l: nat, h: nat)
    requires l < 0x1_0000_0000
    ensures var w := (l + 0x1_0000_0000 * h) / 0x1000_0000; var x := l / 0x1000_0000 + 16 * (h % 8);
      && w / 128 == h / 8 && w % 128 == x % 128 && (w >= 128 <==> h >= 8) && (w < 128 ==> x == w)
      && (h < 8 ==> x < 128) && x < 0x1_0000_0000
  {
    var u := l / 0x1000_0000;
    var w := u + 16 * h;
    FloorUnique(l + 0x1_0000_0000 * h, 0x1000_0000, w, l % 0x1000_0000);
    var x := u + 16 * (h % 8);
    assert h == 8 * (h / 8) + h % 8;
    assert x < 128;
    FloorUnique(w, 128, h / 8, x);
  }

  /** A group inside the high half. */
  lemma {:induction false} HighStep(hi: half, i: nat, p: nat, rest: nat)
    requires (i == 3 && p == 8) || (i == 10 && p == 0x400) || (i == 17 && p == 0x2_0000) || (i == 24 && p == 0x100_0000)
    requires rest == ToUint32(hi) / p
    ensures var x := ShrU(hi, i); var more := !(ShrU(x, 7) == 0); Pushes(PushedByte(x, more), more, rest)
  {
    hide *;
    HighShift(hi, i, p);
    SmallShift(rest);
    var more := !(rest / 128 == 0);
    PushedByteIs(rest, more);
    PushesBy(PushedByte(rest, more), more, rest, rest);
  }

  lemma {:induction false} HighShift(hi: half, i: nat, p: nat)
    requires (i == 3 && p == 8) || (i == 10 && p == 0x400) || (i == 17 && p == 0x2_0000) || (i == 24 && p == 0x100_0000)
    ensures ShrU(hi, i) == ToUint32(hi) / p < 0x1_0000_0000
  {
    Two3();
    Two10();
    Two7();
    assert Pow(2, 17) == 0x2_0000 by { PowAdd(2, 10, 7); }
    Two24();
  }

  /** The `bytes`-array writer is exact for every pair of halves. */
  method Varint64Write(lo: half, hi: half) returns (bytes: seq<byte>)
    ensures bytes == Leb128.Encode(Word(lo, hi))
  {
    hide *;
    ghost var w := Word(lo, hi);
    ghost var full := Leb128.Encode(w);
    ghost var p, rest := 1, w;
    bytes := [];
    var i := 0;
    while i < 28
      invariant (i == 0 && p == 1) || (i == 7 && p == 0x80) || (i == 14 && p == 0x4000) || (i == 21 && p == 0x20_0000)
                || (i == 28 && p == 0x1000_0000)
      invariant rest == w / p && bytes + Leb128.Encode(rest) == full
    {
      var shift := ShrU(lo, i);
      var hasNext := !(ShrU(shift, 7) == 0 && hi == 0);
      LowStep(lo, hi, i, p);
      EncodePush(bytes, rest, PushedByte(shift, hasNext), hasNext);
      bytes := bytes + [PushedByte(shift, hasNext)];
      if !hasNext {
        return;
      }
      DivDiv(w, p, 128);
      p, rest, i := p * 128, rest / 128, i + 7;
    }
    var splitBits := Or(And(ShrU(lo, 28), 0x0f), Shl(And(hi, 0x07), 4));
    var hasMoreBits := !(Sar(hi, 3) == 0);
    MiddleStep(lo, hi);
    EncodePush(bytes, rest, PushedByte(splitBits, hasMoreBits), hasMoreBits);
    bytes := bytes + [PushedByte(splitBits, hasMoreBits)];
    if !hasMoreBits {
      return;
    }
    var high := PushHigh(hi);
    bytes := bytes + high;
  }

  /** The groups of the high half from bit 3 on. */
  method PushHigh(hi: half) returns (bytes: seq<byte>)
    ensures bytes == Leb128.Encode(ToUint32(hi) / 8)
  {
    hide *;
    ghost var h := ToUint32(hi);
    ghost var full := Leb128.Encode(h / 8);
    ghost var p, rest := 8, h / 8;
    bytes := [];
    var i := 3;
    while i < 31
      invariant (i == 3 && p == 8) || (i == 10 && p == 0x400) || (i == 17 && p == 0x2_0000) || (i == 24 && p == 0x100_0000)
                || (i == 31 && p == 0x8000_0000)
      invariant rest == h / p && bytes + Leb128.Encode(rest) == full
    {
      var shift := ShrU(hi, i);
      var hasNext := !(ShrU(shift, 7) == 0);
      HighStep(hi, i, p, rest);
      EncodePush(bytes, rest, PushedByte(shift, hasNext), hasNext);
      bytes := bytes + [PushedByte(shift, hasNext)];
      if !hasNext {
        return;
      }
      DivDiv(h, p, 128);
      p, rest, i := p * 128, rest / 128, i + 7;
    }
    TopBit(hi);
    EncodePush(bytes, rest, And(ShrU(hi, 31), 0x01), false);
    bytes := bytes + [And(ShrU(hi, 31), 0x01)];
  }

  lemma {:induction false} TopBit(hi: half)
    ensures Pushes(And(ShrU(hi, 31), 0x01), false, ToUint32(hi) / 0x8000_0000)
  {
    Two31();
    Two1();
    WordMask(ToUint32(hi) / 0x8000_0000, 1, 2);
  }

  lemma {:induction false} EncodePush(bytes: seq<byte>, rest: nat, b: int, more: bool)
    requires Pushes(b, more, rest)
    ensures 0 <= b < 256
    ensures more ==> bytes + Leb128.Encode(rest) == bytes + [b] + Leb128.Encode(rest / 128)
    ensures !more ==> bytes + Leb128.Encode(rest) == bytes + [b]
  {
  }
}
