/**
 * The protobuf reader of packages/coin-cosmos/src/binary.ts with the varint readers of
 * packages/coin-cosmos/src/varint.ts. What a read takes is a function of the unread bytes.
 */
module CosmosReader {
  import opened Wrappers
  import opened Numerals
  import opened JsInt
  import opened JsBytes
  import opened JsVarint
  import Leb128
  import opened Decimal
  import ZigZag
  import opened CosmosVarint
  import opened CosmosZigZag
  import opened CosmosDecimal
  import opened CosmosUtf8

  datatype ReadError = PrematureEof | InvalidVarint | IndexOutOfRange | IllegalTag | InvalidWireType

  // ---- what reading takes from the unread bytes

  /** A group of at most ten bytes, and its payload. */
  function TakeGroup(s: seq<byte>): (r: Result<Read<nat>, ReadError>)
    ensures r.Success? ==> |r.value.rest| < |s|
  {
    match Leb128.GroupLength(s)
    case None => Failure(if |s| < 10 then PrematureEof else InvalidVarint)
    case Some(k) => if k > 10 then Failure(InvalidVarint) else Success(Read(Leb128.Payload(s[..k]), s[k..]))
  }

  /** A byte of the unread part; past the end the source reads `undefined`, which counts as zero. */
  function At(s: seq<byte>, j: nat): byte {
    if j < |s| then s[j] else 0
  }

  // ---- joining groups

  /** After `j` flagged bytes, `v` holds their payload modulo 2^32. */
  ghost predicate Partial(s: seq<byte>, j: nat, v: int) {
    && j <= |s| && (forall i :: 0 <= i < j ==> s[i] >= 128)
    && ToUint32(v) == Leb128.Payload(s[..j]) % 0x1_0000_0000
  }

  /** The group ends with byte `j`, and `n` is its payload. */
  ghost predicate Ends(s: seq<byte>, j: nat, n: nat) {
    && j < |s| && TakeGroup(s) == Success(Read(n, s[j + 1..]))
  }

  lemma {:induction false} FlagIs(b: byte)
    ensures And(b, 0x80) == 0 <==> b < 128
  {
    Mask7(b);
  }

  lemma {:induction false} PayloadNext(s: seq<byte>, j: nat)
    requires j < |s|
    ensures Leb128.Payload(s[..j + 1]) == Leb128.Payload(s[..j]) + Pow(2, 7 * j) * (s[j] % 128)
    ensures Leb128.Payload(s[..j]) < Pow(2, 7 * j)
  {
    assert s[..j + 1] == s[..j] + [s[j]];
    Leb128.PayloadAppend(s[..j], s[j]);
    Leb128.PayloadBound(s[..j]);
    Pow128(j);
  }

  lemma {:induction false} GroupEnds(s: seq<byte>, j: nat)
    requires j < |s| && j < 10 && (forall i :: 0 <= i < j ==> s[i] >= 128) && s[j] < 128
    ensures Ends(s, j, Leb128.Payload(s[..j + 1]))
  {
    Leb128.GroupLengthIs(s, j + 1);
  }

  lemma {:induction false} GroupRunsOut(s: seq<byte>)
    requires |s| < 10 && forall i :: 0 <= i < |s| ==> s[i] >= 128
    ensures TakeGroup(s) == Failure(PrematureEof)
  {
    Leb128.GroupLengthNone(s);
  }

  lemma {:induction false} GroupTooLong(s: seq<byte>)
    requires |s| >= 10 && forall i :: 0 <= i < 10 ==> s[i] >= 128
    ensures TakeGroup(s) == Failure(InvalidVarint)
  {
    Leb128.GroupLengthGroup(s);
    if Leb128.GroupLength(s).Some? {
      var k := Leb128.GroupLength(s).value;
      assert s[..k][k - 1] == s[k - 1];
    }
  }

  /** One of the first four bytes. */
  lemma {:induction false} LowGroupStep(s: seq<byte>, j: nat, v: int, b: byte)
    requires j < 4 && Partial(s, j, v) && b == At(s, j)
    ensures var w := Or(v, Shl(And(b, 0x7f), 7 * j));
      && (j < |s| && b >= 128 ==> Partial(s, j + 1, w))
      && (j < |s| && b < 128 ==> Ends(s, j, Leb128.Payload(s[..j + 1])) && w == Leb128.Payload(s[..j + 1]) < 0x1000_0000)
    ensures j >= |s| ==> b == 0 && TakeGroup(s) == Failure(PrematureEof)
  {
    if j >= |s| {
      GroupRunsOut(s);
    } else {
      LowAccumulates(s, j, v);
      if b < 128 {
        GroupEnds(s, j);
      }
    }
  }

  lemma {:induction false} LowAccumulates(s: seq<byte>, j: nat, v: int)
    requires j < 4 && j < |s| && Partial(s, j, v)
    ensures var w := Or(v, Shl(And(s[j], 0x7f), 7 * j));
      w == Leb128.Payload(s[..j + 1]) < 0x1000_0000
  {
    hide Or, Shl, And;
    Mask7(s[j]);
    PayloadNext(s, j);
    AccumulateStep(Leb128.Payload(s[..j]), s[j] % 128, j, v);
    Leb128.PayloadBound(s[..j + 1]);
    Pow128Literals();
    PowMono(128, j + 1, 4);
    var n := Leb128.Payload(s[..j + 1]);
    FloorUnique(n, 0x1_0000_0000, 0, n);
    OrRange(v, Shl(And(s[j], 0x7f), 7 * j));
    SmallWord(Or(v, Shl(And(s[j], 0x7f), 7 * j)));
  }

  /** The fifth byte: its low four bits complete the low half. */
  lemma {:induction false} FifthStep(s: seq<byte>, v: int)
    requires 4 < |s| && Partial(s, 4, v)
    ensures ToUint32(Or(v, Shl(And(s[4], 0x0f), 28))) == Leb128.Payload(s[..5]) % 0x1_0000_0000
  {
    hide Or, Shl, And;
    PayloadNext(s, 4);
    Two28();
    Two4();
    var b: nat := s[4];
    var u := Leb128.Payload(s[..4]);
    FloorUnique(u, 0x1_0000_0000, 0, u);
    SelfWord(b);
    MaskIs(b, b, 4, 16);
    var d := b % 16;
    ShlIs(d, 28, 0x1000_0000);
    FloorUnique(d * 0x1000_0000, 0x1_0000_0000, 0, d * 0x1000_0000);
    OrJoin(v, Shl(d, 28), u, d, 28, 0x1000_0000);
    FifthSum(u, b);
  }

  lemma {:induction false} FifthSum(u: nat, b: nat)
    requires u < 0x1000_0000 && b < 0x100
    ensures (u + 0x1000_0000 * (b % 128)) % 0x1_0000_0000 == u + (b % 16) * 0x1000_0000
  {
    var x := b % 128;
    assert x % 16 == b % 16;
    FloorUnique(u + 0x1000_0000 * x, 0x1_0000_0000, x / 16, u + (x % 16) * 0x1000_0000);
  }

  // ---- the high half

  /** After `j` flagged bytes, `h` holds bits 32 and up of their payload, modulo 2^32. */
  ghost predicate PartialHigh(s: seq<byte>, j: nat, h: int) {
    && 5 <= j <= |s| && j <= 10 && (forall i :: 0 <= i < j ==> s[i] >= 128)
    && ToUint32(h) == Leb128.Payload(s[..j]) / 0x1_0000_0000 % 0x1_0000_0000
  }

  /** `(b & 0x70) >> 4` */
  lemma {:induction false} HighBits(b: byte)
    ensures Sar(And(b, 0x70), 4) == b % 128 / 16
  {
    hide *;
    Mask70(b);
    var d := b / 16 % 8;
    assert b % 128 / 16 == d by { MiddleThree(b); }
    Two4();
    SarIs(d * 16, 4, 16);
  }

  lemma MiddleThree(b: byte)
    ensures b % 128 / 16 == b / 16 % 8
  {
  }

  lemma {:induction false} Mask70(b: byte)
    ensures And(b, 0x70) == b / 16 % 8 * 16
  {
    hide And, AndN, Pow;
    Two4();
    AndShifted(b, 7, 4, 16);
    Two3();
    AndMask(b / 16, 3, 8);
    AndIs(b, 0x70, b, 0x70);
  }

  lemma {:induction false} FifthHigh(s: seq<byte>)
    requires 4 < |s|
    ensures Sar(And(s[4], 0x70), 4) == Leb128.Payload(s[..5]) / 0x1_0000_0000 < 8
  {
    hide And, Sar;
    PayloadNext(s, 4);
    Two28();
    HighBits(s[4]);
    var u: nat, d: nat := Leb128.Payload(s[..4]), s[4] % 128;
    FloorUnique(u + 0x1000_0000 * d, 0x1_0000_0000, d / 16, u + 0x1000_0000 * (d % 16));
  }

  /** The powers by which the bytes from the sixth on are shifted. */
  lemma {:induction false} HighPower(j: nat) returns (p: nat)
    requires 5 <= j < 10
    ensures p == Pow(2, 7 * j - 32) <= 0x8000_0000 && (j < 9 ==> p <= 0x100_0000) && (j == 9 ==> p == 0x8000_0000)
    ensures Pow(2, 7 * j) == 0x1_0000_0000 * p
  {
    p := Pow(2, 7 * j - 32);
    Two32();
    PowAdd(2, 32, 7 * j - 32);
    Two31();
    Two24();
    if j < 9 {
      PowMono(2, 7 * j - 32, 24);
    }
  }

  /** The payload above bit 32 grows by the next group. */
  lemma {:induction false} HighPayload(s: seq<byte>, j: nat, p: nat, u: nat)
    requires j < |s| && Pow(2, 7 * j) == 0x1_0000_0000 * p && u == Leb128.Payload(s[..j]) / 0x1_0000_0000
    ensures Leb128.Payload(s[..j + 1]) / 0x1_0000_0000 == u + p * (s[j] % 128) && u < p
  {
    PayloadNext(s, j);
    var n, d := Leb128.Payload(s[..j]), s[j] % 128;
    Associate(0x1_0000_0000, p, d);
    var x := p * d;
    FloorUnique(n + 0x1_0000_0000 * x, 0x1_0000_0000, u + x, n % 0x1_0000_0000);
    MulCancel(u, p, 0x1_0000_0000);
  }

  /** The sixth to tenth byte. */
  lemma {:induction false} HighGroupStep(s: seq<byte>, j: nat, h: int)
    requires j < 10 && j < |s| && PartialHigh(s, j, h)
    ensures ToUint32(Or(h, Shl(And(s[j], 0x7f), 7 * j - 32))) == Leb128.Payload(s[..j + 1]) / 0x1_0000_0000 % 0x1_0000_0000
  {
    hide Or, Shl, And;
    Mask7(s[j]);
    var p := HighPower(j);
    var u, d := Leb128.Payload(s[..j]) / 0x1_0000_0000, s[j] % 128;
    HighPayload(s, j, p, u);
    FloorUnique(u, 0x1_0000_0000, 0, u);
    if j < 9 {
      JoinByte(h, u, d, 7 * j - 32, p);
      var x := p * d;
      assert u + x < 0x1_0000_0000 by {
        MulMono(p, 0x100_0000, d);
        MulMono(d, 127, 0x100_0000);
      }
      FloorUnique(u + x, 0x1_0000_0000, 0, u + x);
    } else {
      TopStep(h, u, d);
    }
  }

  lemma {:induction false} TopStep(h: int, u: nat, d: nat)
    requires ToUint32(h) == u < 0x8000_0000 && d < 128
    ensures ToUint32(Or(h, Shl(d, 31))) == (u + 0x8000_0000 * d) % 0x1_0000_0000
  {
    hide Or, Shl;
    SelfWord(d);
    ShlWord(d, d);
    Two31();
    OrJoin(h, Shl(d, 31), u, d % 2, 31, 0x8000_0000);
    FloorUnique(u + 0x8000_0000 * d, 0x1_0000_0000, d / 2, u + d % 2 * 0x8000_0000);
  }

  /** Two halves that hold the payload of the complete group. */
  lemma {:induction false} HalvesOf(n: nat, lo: int, hi: int)
    requires ToUint32(lo) == n % 0x1_0000_0000 && ToUint32(hi) == n / 0x1_0000_0000 % 0x1_0000_0000
    ensures Word(lo, hi) == n % 0x1_0000_0000_0000_0000
  {
    var q := n / 0x1_0000_0000;
    FloorUnique(n, 0x1_0000_0000_0000_0000, q / 0x1_0000_0000, n % 0x1_0000_0000 + 0x1_0000_0000 * (q % 0x1_0000_0000));
  }

  // ---- typed values of the unread bytes

  function TakeUint32(s: seq<byte>): (r: Result<Read<nat>, ReadError>)
    ensures r.Success? ==> |r.value.rest| < |s| && r.value.value < 0x1_0000_0000
  {
    var g := TakeGroup(s);
    if g.Failure? then g else Success(Read(g.value.value % 0x1_0000_0000, g.value.rest))
  }

  function TakeWord(s: seq<byte>): Result<Read<nat>, ReadError> {
    var g := TakeGroup(s);
    if g.Failure? then g else Success(Read(g.value.value % 0x1_0000_0000_0000_0000, g.value.rest))
  }

  /** `tag`: field number and wire type. */
  function TakeTag(s: seq<byte>): Result<Read<(nat, nat)>, ReadError> {
    var g := TakeUint32(s);
    if g.Failure? then Failure(g.error)
    else
      var tag := g.value.value;
      if tag / 8 == 0 || tag % 8 > 5 then Failure(IllegalTag) else Success(Read((tag / 8, tag % 8), g.value.rest))
  }

  function TakeBytes(s: seq<byte>): Result<Read<seq<byte>>, ReadError> {
    var g := TakeUint32(s);
    if g.Failure? then Failure(g.error)
    else if g.value.value > |g.value.rest| then Failure(PrematureEof)
    else Success(Read(g.value.rest[..g.value.value], g.value.rest[g.value.value..]))
  }

  /** The text of a byte string, as `utf8Read` gives it. */
  function Utf8Text(b: seq<byte>): seq<unit16> {
    ReadBack(CosmosUtf8.Groups(b, 0, |b|), [], 0)
  }

  function MapRead<T, U>(r: Result<Read<T>, ReadError>, f: T -> U): Result<Read<U>, ReadError> {
    if r.Failure? then Failure(r.error) else Success(Read(f(r.value.value), r.value.rest))
  }

  /** `readUInt32`: `None` stands for the `NaN` that a missing last byte gives. */
  function LoadUint32(s: seq<byte>): Option<nat> {
    if |s| >= 4 then Some(LoadWord(s)) else None
  }

  /** The word that `readInt32` holds: missing bytes count as zero. */
  function LoadWord(s: seq<byte>): nat {
    At(s, 0) + 0x100 * At(s, 1) + 0x1_0000 * At(s, 2) + 0x100_0000 * At(s, 3)
  }

  function LoadWord64(s: seq<byte>): (w: nat)
    ensures w < 0x1_0000_0000_0000_0000
  {
    LoadWord(s) + 0x1_0000_0000 * LoadWord(Beyond(s, 4))
  }

  /** What is left after moving on by `n` without a check. */
  function Beyond(s: seq<byte>, n: nat): seq<byte> {
    if n <= |s| then s[n..] else []
  }

  // ---- skipping

  /** `skip()`: past one group of any length. */
  function SkipGroup(s: seq<byte>): (r: Result<seq<byte>, ReadError>)
    ensures r.Success? ==> |r.value| < |s|
  {
    match Leb128.GroupLength(s)
    case None => Failure(IndexOutOfRange)
    case Some(k) => Success(s[k..])
  }

  /** `skip(length)` */
  function SkipBytes(s: seq<byte>, n: nat): (r: Result<seq<byte>, ReadError>)
    ensures r.Success? ==> |r.value| <= |s|
  {
    if n > |s| then Failure(IndexOutOfRange) else Success(s[n..])
  }

  /** `skipType` */
  function SkipField(s: seq<byte>, wireType: nat): (r: Result<seq<byte>, ReadError>)
    ensures r.Success? ==> |r.value| <= |s|
    decreases |s|, 1
  {
    if wireType == 0 then SkipGroup(s)
    else if wireType == 1 then SkipBytes(s, 8)
    else if wireType == 2 then
      var g := TakeUint32(s);
      if g.Failure? then Failure(g.error) else SkipBytes(g.value.rest, g.value.value)
    else if wireType == 3 then SkipToEnd(s)
    else if wireType == 5 then SkipBytes(s, 4)
    else Failure(InvalidWireType)
  }

  /** The loop of `skipType` on a group: fields up to the end tag. */
  function SkipToEnd(s: seq<byte>): (r: Result<seq<byte>, ReadError>)
    ensures r.Success? ==> |r.value| <= |s|
    decreases |s|, 0
  {
    var g := TakeUint32(s);
    if g.Failure? then Failure(g.error)
    else if g.value.value % 8 == 4 then Success(g.value.rest)
    else
      var inner := SkipField(g.value.rest, g.value.value % 8);
      if inner.Failure? then inner else SkipToEnd(inner.value)
  }

  ghost predicate Skips(spec: Result<seq<byte>, ReadError>, r: Result<(), ReadError>, left: seq<byte>) {
    match spec
    case Success(x) => r == Success(()) && left == x
    case Failure(e) => r == Failure(e)
  }

  /** `r` is what `spec` takes, and after a success the bytes left are those that `spec` leaves. */
  ghost predicate Takes<T>(spec: Result<Read<T>, ReadError>, r: Result<T, ReadError>, left: seq<byte>) {
    match spec
    case Success(x) => r == Success(x.value) && left == x.rest
    case Failure(e) => r == Failure(e)
  }

  class BinaryReader {
    const buf: array<byte>
    var pos: nat

    /** The bytes from `pos` on; none when an unchecked read has moved `pos` past the end. */
    ghost function Unread(): seq<byte>
      reads this, buf
    {
      if pos <= buf.Length then buf[pos..] else []
    }

    constructor (bytes: seq<byte>)
      ensures Unread() == bytes && pos == 0 && fresh(buf)
    {
      buf := new byte[|bytes|](i requires 0 <= i < |bytes| => bytes[i]);
      pos := 0;
    }

    method AssertBounds() returns (r: Result<(), ReadError>)
      ensures r == if pos > buf.Length then Failure(PrematureEof) else Success(())
    {
      if pos > buf.Length {
        return Failure(PrematureEof);
      }
      return Success(());
    }

    /** `this.buf[this.pos++]` */
    method Next() returns (b: byte)
      modifies this`pos
      ensures pos == old(pos) + 1 && b == At(old(Unread()), 0)
      ensures old(pos) < buf.Length ==> Unread() == old(Unread())[1..]
    {
      b := if pos < buf.Length then buf[pos] else 0;
      pos := pos + 1;
    }

    /** The first loop of `varint64read`: up to four bytes into the low half. */
    method LowGroups() returns (r: Result<int, ReadError>, done: bool)
      modifies this`pos
      ensures old(pos) <= pos && (r.Failure? ==> done)
      ensures done && r.Success? ==>
        TakeGroup(old(Unread())) == Success(Read(r.value, Unread())) && 0 <= r.value < 0x1000_0000 && pos <= buf.Length
      ensures r.Failure? ==> TakeGroup(old(Unread())) == Failure(r.error)
      ensures !done ==> pos <= buf.Length && Partial(old(Unread()), 4, r.value) && Unread() == old(Unread())[4..]
    {
      hide And, Or, Shl, TakeGroup, Leb128.Payload;
      ghost var s := Unread();
      var lowBits: int := 0;
      PartialNone(s);
      var shift := 0;
      ghost var j := 0;
      while shift < 28
        invariant shift == 7 * j && j <= 4 && Partial(s, j, lowBits)
        invariant pos == old(pos) + j && (j > 0 ==> pos <= buf.Length) && Unread() == s[j..]
      {
        var b := Next();
        assert b == At(s, j);
        LowGroupStep(s, j, lowBits, b);
        lowBits := Or(lowBits, Shl(And(b, 0x7f), shift));
        FlagIs(b);
        if And(b, 0x80) == 0 {
          var ok := AssertBounds();
          if ok.Failure? {
            return Failure(PrematureEof), true;
          }
          return Success(lowBits), true;
        }
        shift := shift + 7;
        j := j + 1;
      }
      return Success(lowBits), false;
    }

    /** The second loop: from the sixth byte on, into the high half. */
    method HighGroups(ghost s: seq<byte>, high0: int) returns (r: Result<int, ReadError>)
      requires PartialHigh(s, 5, high0) && pos <= buf.Length && Unread() == s[5..]
      modifies this`pos
      ensures old(pos) <= pos
      ensures r.Success? ==> pos <= buf.Length && TakeGroup(s).Success? && Unread() == TakeGroup(s).value.rest
                             && ToUint32(r.value) == TakeGroup(s).value.value / 0x1_0000_0000 % 0x1_0000_0000
      ensures r.Failure? ==> TakeGroup(s) == Failure(r.error)
      ensures r.Success? ==> TakeGroup(s).value.value % 0x1_0000_0000 == Leb128.Payload(s[..5]) % 0x1_0000_0000
      ensures r.Success? ==> -0x8000_0000 <= r.value < 0x8000_0000
    {
      hide And, Or, Shl, TakeGroup, Leb128.Payload;
      var highBits := high0;
      var shift := 3;
      ghost var j := 5;
      while shift <= 31
        invariant shift == 7 * j - 32 && 5 <= j <= 10 && PartialHigh(s, j, highBits)
        invariant old(pos) <= pos <= buf.Length && Unread() == s[j..]
        decreases 38 - shift
      {
        var b := Next();
        assert b == At(s, j);
        ghost var before := highBits;
        highBits := Or(highBits, Shl(And(b, 0x7f), shift));
        FlagIs(b);
        if And(b, 0x80) == 0 {
          var ok := AssertBounds();
          if ok.Failure? {
            GroupRunsOut(s);
            return Failure(PrematureEof);
          }
          HighGroupStep(s, j, before);
          GroupEnds(s, j);
          LowStays(s, j + 1);
          OrRange(before, Shl(And(b, 0x7f), shift));
          return Success(highBits);
        }
        HighGroupStep(s, j, before);
        shift := shift + 7;
        j := j + 1;
      }
      GroupTooLong(s);
      return Failure(InvalidVarint);
    }

    /** `varint64read`: two halves that hold the payload of one group modulo 2^64. */
    method Varint64Read() returns (r: Result<(half, half), ReadError>)
      modifies this`pos
      ensures old(pos) <= pos
      ensures Takes(TakeWord(old(Unread())), WordOf(r), Unread())
      ensures r.Success? ==> pos <= buf.Length
    {
      hide And, Or, Shl, Sar, TakeGroup, Leb128.Payload, Word;
      ghost var s := Unread();
      var low, done := LowGroups();
      if low.Failure? {
        return Failure(low.error);
      }
      if done {
        SelfWord(low.value);
        FloorUnique(low.value, 0x1_0000_0000, 0, low.value);
        HalvesOf(low.value, low.value, 0);
        return Success((low.value, 0));
      }
      var middleByte := Next();
      assert middleByte == At(s, 4);
      var lowBits := Or(low.value, Shl(And(middleByte, 0x0f), 28));
      var highBits := Sar(And(middleByte, 0x70), 4);
      FlagIs(middleByte);
      if |s| > 4 {
        FifthStep(s, low.value);
        FifthHigh(s);
      }
      OrRange(low.value, Shl(And(middleByte, 0x0f), 28));
      if And(middleByte, 0x80) == 0 {
        var ok := AssertBounds();
        if ok.Failure? {
          GroupRunsOut(s);
          return Failure(PrematureEof);
        }
        GroupEnds(s, 4);
        SelfWord(highBits);
        HalvesOf(Leb128.Payload(s[..5]), lowBits, highBits);
        return Success((lowBits, highBits));
      }
      var high :- HighGroups(s, highBits);
      HalvesOf(TakeGroup(s).value.value, lowBits, high);
      return Success((lowBits, high));
    }

    /** One of the first four steps of `varint32read`: `b = buf[pos++]; result |= (b & 0x7f) << 7j`. */
    method Group32(ghost s: seq<byte>, j: nat, result0: int) returns (result: int, done: bool, r: Result<nat, ReadError>)
      requires j < 4 && Partial(s, j, result0) && Unread() == s[j..] && (j > 0 ==> pos <= buf.Length)
      modifies this`pos
      ensures old(pos) <= pos
      ensures done ==> Takes(TakeUint32(s), r, Unread()) && (r.Success? ==> pos <= buf.Length)
      ensures !done ==> pos <= buf.Length && Partial(s, j + 1, result) && Unread() == s[j + 1..]
    {
      hide And, Or, Shl, TakeGroup, Leb128.Payload;
      var b := Next();
      assert b == At(s, j);
      LowGroupStep(s, j, result0, b);
      result := Or(result0, Shl(And(b, 0x7f), 7 * j));
      FlagIs(b);
      r := Failure(PrematureEof);
      done := And(b, 0x80) == 0;
      if done {
        var ok := AssertBounds();
        if ok.Success? {
          FloorUnique(result, 0x1_0000_0000, 0, result);
          r := Success(result);
        }
      }
    }

    /** `varint32read` */
    method Varint32Read() returns (r: Result<nat, ReadError>)
      modifies this`pos
      ensures old(pos) <= pos && (r.Success? ==> pos <= buf.Length)
      ensures Takes(TakeUint32(old(Unread())), r, Unread())
    {
      hide And, Or, Shl, TakeGroup, Leb128.Payload;
      ghost var s := Unread();
      PartialNone(s);
      var result, done, early := Group32(s, 0, 0);
      if done { return early; }
      result, done, early := Group32(s, 1, result);
      if done { return early; }
      result, done, early := Group32(s, 2, result);
      if done { return early; }
      result, done, early := Group32(s, 3, result);
      if done { return early; }
      var b := Next();
      assert b == At(s, 4);
      if |s| > 4 {
        FifthStep(s, result);
      }
      result := Or(result, Shl(And(b, 0x0f), 28));
      r := LastGroups(s, b, result);
    }

    /** The end of `varint32read`: bytes beyond the fifth are dropped, up to the tenth. */
    method LastGroups(ghost s: seq<byte>, b0: byte, result: int) returns (r: Result<nat, ReadError>)
      requires b0 == At(s, 4) && 4 <= |s| && (forall i :: 0 <= i < 4 ==> s[i] >= 128) && pos + |s| == buf.Length + 5
      requires |s| > 4 ==> ToUint32(result) == Leb128.Payload(s[..5]) % 0x1_0000_0000 && Unread() == s[5..]
      modifies this`pos
      ensures old(pos) <= pos && (r.Success? ==> pos <= buf.Length)
      ensures Takes(TakeUint32(s), r, Unread())
    {
      hide And, TakeGroup, Leb128.Payload;
      var b, readBytes := b0, 5;
      FlagIs(b);
      while And(b, 0x80) != 0 && readBytes < 10
        invariant 5 <= readBytes <= 10 && old(pos) <= pos && pos + |s| == buf.Length + readBytes
        invariant b == At(s, readBytes - 1) && readBytes - 1 <= |s| && (And(b, 0x80) == 0 <==> b < 128)
        invariant (forall i :: 0 <= i < readBytes - 1 ==> s[i] >= 128)
        invariant readBytes <= |s| ==> Unread() == s[readBytes..]
        decreases 10 - readBytes
      {
        b := Next();
        FlagIs(b);
        readBytes := readBytes + 1;
      }
      if And(b, 0x80) != 0 {
        GroupTooLong(s);
        return Failure(InvalidVarint);
      }
      var ok := AssertBounds();
      if ok.Failure? {
        GroupRunsOut(s);
        return Failure(PrematureEof);
      }
      GroupEnds(s, readBytes - 1);
      LowStays(s, readBytes);
      return Success(ToUint32(result));
    }

    // ---- tags and skipping

    method Tag() returns (r: Result<(nat, nat), ReadError>)
      modifies this`pos
      ensures old(pos) <= pos
      ensures Takes(TakeTag(old(Unread())), r, Unread())
    {
      hide ShrU, And, TakeUint32;
      var tag :- Varint32Read();
      TagBits(tag);
      var fieldNo, wireType := ShrU(tag, 3), And(tag, 7);
      if fieldNo <= 0 || wireType < 0 || wireType > 5 {
        return Failure(IllegalTag);
      }
      return Success((fieldNo, wireType));
    }

    /** `skip(length)` */
    method Skip(length: nat) returns (r: Result<(), ReadError>)
      modifies this`pos
      ensures old(pos) <= pos
      ensures r == if old(pos) + length > buf.Length then Failure(IndexOutOfRange) else Success(())
      ensures r.Success? ==> length <= |old(Unread())| && Unread() == old(Unread())[length..]
    {
      if pos + length > buf.Length {
        return Failure(IndexOutOfRange);
      }
      pos := pos + length;
      return Success(());
    }

    /** `skip()` */
    method SkipVarint() returns (r: Result<(), ReadError>)
      modifies this`pos
      ensures old(pos) <= pos
      ensures Skips(SkipGroup(old(Unread())), r, Unread())
    {
      hide And, SkipGroup;
      ghost var s := Unread();
      ghost var j := 0;
      while true
        invariant old(pos) <= pos && j <= |s| && Unread() == s[j..] && (j > 0 ==> pos <= buf.Length)
        invariant forall i :: 0 <= i < j ==> s[i] >= 128
        decreases |s| - j
      {
        if pos >= buf.Length {
          SkipRunsOut(s);
          return Failure(IndexOutOfRange);
        }
        var b := buf[pos];
        assert b == s[j];
        pos := pos + 1;
        FlagIs(b);
        if And(b, 128) == 0 {
          break;
        }
        j := j + 1;
      }
      SkipEnds(s, j);
      return Success(());
    }

    /** `skipType`: terminates on every buffer. */
    method SkipType(wireType: nat) returns (r: Result<(), ReadError>)
      modifies this`pos
      ensures old(pos) <= pos
      ensures Skips(SkipField(old(Unread()), wireType), r, Unread())
      decreases |Unread()|, 1
    {
      hide TakeUint32, SkipGroup;
      if wireType == 0 {
        r := SkipVarint();
      } else if wireType == 1 {
        r := Skip(8);
      } else if wireType == 2 {
        var n :- Varint32Read();
        r := Skip(n);
      } else if wireType == 3 {
        r := SkipGroupFields();
      } else if wireType == 5 {
        r := Skip(4);
      } else {
        return Failure(InvalidWireType);
      }
    }

    /** The case of `skipType` for groups. */
    method SkipGroupFields() returns (r: Result<(), ReadError>)
      modifies this`pos
      ensures old(pos) <= pos
      ensures Skips(SkipToEnd(old(Unread())), r, Unread())
      decreases |Unread()|, 0
    {
      hide TakeUint32, And, SkipField;
      ghost var all := SkipToEnd(Unread());
      while true
        invariant old(pos) <= pos && SkipToEnd(Unread()) == all && |Unread()| <= |old(Unread())|
        decreases |Unread()|
      {
        var tag :- Varint32Read();
        TagBits(tag);
        var wireType := And(tag, 7);
        if wireType == 4 {
          break;
        }
        var _ :- SkipType(wireType);
      }
      return Success(());
    }

    // ---- typed reads

    method Int32() returns (r: Result<int, ReadError>)
      modifies this`pos
      ensures old(pos) <= pos
      ensures Takes(MapRead(TakeUint32(old(Unread())), (n: nat) => ToInt32(n) as int), r, Unread())
    {
      hide TakeUint32;
      var n :- Varint32Read();
      return Success(ToInt32(n));
    }

    method Sint32() returns (r: Result<int, ReadError>)
      modifies this`pos
      ensures old(pos) <= pos
      ensures Takes(MapRead(TakeUint32(old(Unread())), (n: nat) => ZigZag.Decode(n)), r, Unread())
    {
      hide TakeUint32;
      var num :- Varint32Read();
      var n: int := num;
      return Success(if n % 2 == 1 then -((n + 1) / 2) else n / 2);
    }

    method Int64() returns (r: Result<int, ReadError>)
      modifies this`pos
      ensures old(pos) <= pos
      ensures Takes(MapRead(TakeWord(old(Unread())), (w: nat) => Signed64(w)), r, Unread())
    {
      hide TakeWord, Word;
      var bits :- Varint64Read();
      var s := Int64ToString(bits.0, bits.1);
      PrintedValue(Signed64(Word(bits.0, bits.1)));
      return Success(SignedValue(s));
    }

    method Uint64() returns (r: Result<nat, ReadError>)
      modifies this`pos
      ensures old(pos) <= pos
      ensures Takes(TakeWord(old(Unread())), r, Unread())
    {
      hide TakeWord, Word;
      var bits :- Varint64Read();
      var s := UInt64ToString(bits.0, bits.1);
      NatStringValue(Word(bits.0, bits.1), 1);
      return Success(DecValue(s));
    }

    method Sint64() returns (r: Result<int, ReadError>)
      modifies this`pos
      ensures old(pos) <= pos
      ensures Takes(MapRead(TakeWord(old(Unread())), (w: nat) => ZigZag.Decode(w)), r, Unread())
    {
      hide TakeWord, Word, ZzDecode;
      var bits :- Varint64Read();
      ZzDecodeIs(bits.0, bits.1);
      var z := ZzDecode(bits.0, bits.1);
      var s := Int64ToString(z.0, z.1);
      PrintedValue(Signed64(Word(z.0, z.1)));
      return Success(SignedValue(s));
    }

    method Bool() returns (r: Result<bool, ReadError>)
      modifies this`pos
      ensures old(pos) <= pos
      ensures Takes(MapRead(TakeWord(old(Unread())), (w: nat) => w != 0), r, Unread())
    {
      hide TakeWord, Word;
      var bits :- Varint64Read();
      WordZero(bits.0, bits.1);
      return Success(bits.0 != 0 || bits.1 != 0);
    }

    method Bytes() returns (r: Result<seq<byte>, ReadError>)
      modifies this`pos
      ensures old(pos) <= pos
      ensures Takes(TakeBytes(old(Unread())), r, Unread())
    {
      hide TakeUint32;
      ghost var s := Unread();
      var len :- Varint32Read();
      ghost var after := Unread();
      var start := pos;
      pos := pos + len;
      var _ :- AssertBounds();
      assert buf[start..start + len] == after[..len] && Unread() == after[len..];
      return Success(buf[start..start + len]);
    }

    method String() returns (r: Result<seq<unit16>, ReadError>)
      modifies this`pos
      ensures old(pos) <= pos
      ensures Takes(MapRead(TakeBytes(old(Unread())), (b: seq<byte>) => Utf8Text(b)), r, Unread())
    {
      hide TakeBytes;
      var bytes :- Bytes();
      var s := Utf8Read(bytes, 0, |bytes|);
      return Success(s);
    }

    /** `this.buf[this.pos + k]` */
    function PeekAt(k: nat): (b: byte)
      reads this, buf
      ensures b == At(Unread(), k)
    {
      if pos + k < buf.Length then buf[pos + k] else 0
    }

    /** `fixed32` has no bounds check; a missing last byte makes the sum `NaN`, here `None`. */
    method Fixed32() returns (val: Option<nat>)
      modifies this`pos
      ensures val == LoadUint32(old(Unread())) && pos == old(pos) + 4
      ensures Unread() == Beyond(old(Unread()), 4)
    {
      hide Or, Shl;
      var b0, b1, b2 := PeekAt(0), PeekAt(1), PeekAt(2);
      FixedLow(b0, b1, b2);
      var low := Or(Or(b0, Shl(b1, 8)), Shl(b2, 16));
      val := if pos + 3 < buf.Length then Some(low + buf[pos + 3] * 0x100_0000) else None;
      pos := pos + 4;
    }

    /** `sfixed32` has no bounds check either; missing bytes count as zero. */
    method Sfixed32() returns (val: int)
      modifies this`pos
      ensures val == ToInt32(LoadWord(old(Unread()))) && pos == old(pos) + 4
      ensures Unread() == Beyond(old(Unread()), 4)
    {
      hide Or, Shl;
      var b0, b1, b2, b3 := PeekAt(0), PeekAt(1), PeekAt(2), PeekAt(3);
      SignedWord(Unread(), b0, b1, b2, b3);
      val := Or(Or(b0, Shl(b1, 8)), Shl(b2, 16)) + Shl(b3, 24);
      pos := pos + 4;
    }

    method Fixed64() returns (val: nat)
      modifies this`pos
      ensures val == LoadWord64(old(Unread())) && pos == old(pos) + 8
      ensures Unread() == Beyond(old(Unread()), 8)
    {
      hide Word, LoadWord;
      ghost var s := Unread();
      var lo := Sfixed32();
      var hi := Sfixed32();
      LoadHalves(s, lo, hi);
      var text := UInt64ToString(lo, hi);
      NatStringValue(Word(lo, hi), 1);
      val := DecValue(text);
    }

    method Sfixed64() returns (val: int)
      modifies this`pos
      ensures val == Signed64(LoadWord64(old(Unread()))) && pos == old(pos) + 8
      ensures Unread() == Beyond(old(Unread()), 8)
    {
      hide Word, LoadWord;
      ghost var s := Unread();
      var lo := Sfixed32();
      var hi := Sfixed32();
      LoadHalves(s, lo, hi);
      var text := Int64ToString(lo, hi);
      PrintedValue(Signed64(Word(lo, hi)));
      val := SignedValue(text);
    }
  }

  lemma {:induction false} PartialNone(s: seq<byte>)
    ensures Partial(s, 0, 0)
  {
    assert s[..0] == [];
  }

  /** The 64-bit words of a result. */
  function WordOf(r: Result<(half, half), ReadError>): Result<nat, ReadError> {
    if r.Failure? then Failure(r.error) else Success(Word(r.value.0, r.value.1))
  }

  /** Groups from the sixth on do not touch the low half. */
  lemma {:induction false} LowStays(s: seq<byte>, k: nat)
    requires 5 <= k <= |s| && k <= 10
    ensures Leb128.Payload(s[..k]) % 0x1_0000_0000 == Leb128.Payload(s[..5]) % 0x1_0000_0000
    decreases k
  {
    hide Leb128.Payload;
    if k > 5 {
      LowStays(s, k - 1);
      PayloadNext(s, k - 1);
      var p := HighPower(k - 1);
      var n, d := Leb128.Payload(s[..k - 1]), s[k - 1] % 128;
      Associate(0x1_0000_0000, p, d);
      FloorUnique(n + 0x1_0000_0000 * (p * d), 0x1_0000_0000, n / 0x1_0000_0000 + p * d, n % 0x1_0000_0000);
    }
  }

  /** `tag >>> 3` and `tag & 7` */
  lemma {:induction false} TagBits(tag: nat)
    requires tag < 0x1_0000_0000
    ensures ShrU(tag, 3) == tag / 8 && And(tag, 7) == tag % 8
  {
    hide And;
    Two3();
    ShrUIs(tag, 3, 8);
    SelfWord(tag);
    MaskIs(tag, tag, 3, 8);
  }

  /** `BigInt` of a printed number. */
  lemma {:induction false} PrintedValue(n: int)
    ensures AllDigits(Magnitude(IntString(n))) && SignedValue(IntString(n)) == n
  {
    hide NatString, DecValue;
    var s := IntString(n);
    var m: nat := if n < 0 then -n else n;
    NatStringValue(m, 1);
    if n < 0 {
      assert s[1..] == NatString(m, 1);
    } else {
      assert !HasMinus(s) by { assert IsDigit(s[0]); }
    }
  }

  lemma {:induction false} SkipRunsOut(s: seq<byte>)
    requires forall i :: 0 <= i < |s| ==> s[i] >= 128
    ensures SkipGroup(s) == Failure(IndexOutOfRange)
  {
    Leb128.GroupLengthNone(s);
  }

  lemma {:induction false} SkipEnds(s: seq<byte>, j: nat)
    requires j < |s| && (forall i :: 0 <= i < j ==> s[i] >= 128) && s[j] < 128
    ensures SkipGroup(s) == Success(s[j + 1..])
  {
    Leb128.GroupLengthIs(s, j + 1);
  }

  lemma WordZero(lo: half, hi: half)
    ensures Word(lo, hi) == 0 <==> lo == 0 && hi == 0
  {
  }

  function LoadLow(b0: nat, b1: nat, b2: nat): nat {
    b0 + 0x100 * b1 + 0x1_0000 * b2
  }

  /** `b0 | (b1 << 8) | (b2 << 16)` */
  lemma {:induction false} FixedLow(b0: byte, b1: byte, b2: byte)
    ensures Or(Or(b0, Shl(b1, 8)), Shl(b2, 16)) == b0 + 0x100 * b1 + 0x1_0000 * b2
  {
    hide Or, Shl, Pow;
    Two8();
    Two16();
    SelfWord(b0);
    JoinByte(b0, b0, b1, 8, 0x100);
    var v := Or(b0, Shl(b1, 8));
    var u: nat := b0 + b1 * 0x100;
    JoinByte(v, u, b2, 16, 0x1_0000);
    OrRange(v, Shl(b2, 16));
    SmallWord(Or(v, Shl(b2, 16)));
  }

  /** `... + (b3 << 24)` is the word of the four bytes. */
  lemma {:induction false} FixedHigh(u: nat, b3: byte)
    requires u < 0x100_0000
    ensures ToUint32(u + Shl(b3, 24)) == u + 0x100_0000 * b3 && -0x8000_0000 <= u + Shl(b3, 24) < 0x8000_0000
  {
    hide Pow;
    Two24();
    ShlIs(b3, 24, 0x100_0000);
  }

  lemma {:induction false} SignedWord(s: seq<byte>, b0: byte, b1: byte, b2: byte, b3: byte)
    requires b0 == At(s, 0) && b1 == At(s, 1) && b2 == At(s, 2) && b3 == At(s, 3)
    ensures Or(Or(b0, Shl(b1, 8)), Shl(b2, 16)) + Shl(b3, 24) == ToInt32(LoadWord(s))
  {
    hide Or, Shl;
    FixedLow(b0, b1, b2);
    var u := LoadLow(b0, b1, b2);
    FixedHigh(u, b3);
    var x := u + Shl(b3, 24);
    assert ToUint32(x) == LoadWord(s);
    SignedOf(x, LoadWord(s));
  }

  lemma SignedOf(x: int, w: nat)
    requires -0x8000_0000 <= x < 0x8000_0000 && ToUint32(x) == w
    ensures x == ToInt32(w)
  {
  }

  lemma {:induction false} LoadHalves(s: seq<byte>, lo: int, hi: int)
    requires lo == ToInt32(LoadWord(s)) && hi == ToInt32(LoadWord(Beyond(s, 4)))
    ensures Word(lo, hi) == LoadWord64(s)
    ensures Beyond(Beyond(s, 4), 4) == Beyond(s, 8)
  {
    hide Word, LoadWord;
    LoadBound(s);
    LoadBound(Beyond(s, 4));
    SelfWord(LoadWord(s));
    SelfWord(LoadWord(Beyond(s, 4)));
    WordIs(lo, hi, LoadWord(s), LoadWord(Beyond(s, 4)));
  }

  lemma LoadBound(s: seq<byte>)
    ensures LoadWord(s) < 0x1_0000_0000
  {
  }
}
