/**
 * The 32-bit operator forms with which packages/coin-eos/src/serialize.ts splits, joins and
 * range-checks fixed-width integers, as arithmetic.
 */
module EosFixed {
  import opened Wrappers
  import opened Numerals
  import opened JsInt
  import opened JsBytes
  import opened EosBignum
  import opened EosSerial

  /** `(v >> k) & 0xff` for the four byte positions. */
  lemma {:induction false} ByteAt(v: int)
    ensures And(Sar(v, 0), 0xff) == v % 0x100
    ensures And(Sar(v, 8), 0xff) == v / 0x100 % 0x100
    ensures And(Sar(v, 16), 0xff) == v / 0x1_0000 % 0x100
    ensures And(Sar(v, 24), 0xff) == v / 0x100_0000 % 0x100
  {
    var t := ToInt32(v);
    var m := WrapOf(v, t);
    ByteShift(v, t, m);
    ShiftByte(v, t, 0, 1, t);
    Two8();
    ShiftByte(v, t, 8, 0x100, t / 0x100);
    Two16();
    ShiftByte(v, t, 16, 0x1_0000, t / 0x1_0000);
    Two24();
    ShiftByte(v, t, 24, 0x100_0000, t / 0x100_0000);
  }

  /** What `pushUint16` and `pushUint32` push. */
  lemma {:induction false} PushedTwo(v: int)
    ensures AsBytes([And(Sar(v, 0), 0xff), And(Sar(v, 8), 0xff)]) == StoredFixed(v, 2)
  {
    ByteAt(v);
    StoredTwo(v);
    BytesStay([v % 0x100, v / 0x100 % 0x100]);
  }

  lemma {:induction false} PushedFour(v: int)
    ensures AsBytes([And(Sar(v, 0), 0xff), And(Sar(v, 8), 0xff), And(Sar(v, 16), 0xff), And(Sar(v, 24), 0xff)])
            == StoredFixed(v, 4)
  {
    ByteAt(v);
    StoredFour(v);
    BytesStay([v % 0x100, v / 0x100 % 0x100, v / 0x1_0000 % 0x100, v / 0x100_0000 % 0x100]);
  }

  lemma {:induction false} WrapOf(v: int, t: int) returns (m: int)
    requires t == ToInt32(v)
    ensures v == t + 0x1_0000_0000 * m
  {
    m := v / 0x1_0000_0000 - t / 0x1_0000_0000;
  }

  lemma {:induction false} ShiftByte(v: int, t: int, k: nat, p: nat, x: int)
    requires t == ToInt32(v) && k < 32 && p == Pow(2, k) && x == t / p
    ensures And(Sar(v, k), 0xff) == x % 0x100
  {
    assert Sar(v, k) == x;
    LowByte(x);
  }

  lemma {:induction false} ByteShift(v: int, t: int, m: int)
    requires v == t + 0x1_0000_0000 * m
    ensures v % 0x100 == t % 0x100
    ensures v / 0x100 % 0x100 == t / 0x100 % 0x100
    ensures v / 0x1_0000 % 0x100 == t / 0x1_0000 % 0x100
    ensures v / 0x100_0000 % 0x100 == t / 0x100_0000 % 0x100
  {
    WordMod(v, m, t);
    FloorUnique(v, 0x100, t / 0x100 + 0x100_0000 * m, t % 0x100);
    FloorUnique(v, 0x1_0000, t / 0x1_0000 + 0x1_0000 * m, t % 0x1_0000);
    FloorUnique(v, 0x100_0000, t / 0x100_0000 + 0x100 * m, t % 0x100_0000);
    var a, b, c := t / 0x100, t / 0x1_0000, t / 0x100_0000;
    FloorUnique(a + 0x100_0000 * m, 0x100, a / 0x100 + 0x1_0000 * m, a % 0x100);
    FloorUnique(b + 0x1_0000 * m, 0x100, b / 0x100 + 0x100 * m, b % 0x100);
    FloorUnique(c + 0x100 * m, 0x100, c / 0x100 + m, c % 0x100);
  }

  lemma {:induction false} Pow256()
    ensures Pow(256, 1) == 0x100 && Pow(256, 2) == 0x1_0000 && Pow(256, 4) == 0x1_0000_0000
  {
    assert Pow(256, 2) == 0x1_0000;
    PowAdd(256, 2, 2);
  }

  lemma {:induction false} StoredOne(v: int)
    ensures StoredFixed(v, 1) == [v % 0x100]
  {
    Pow256();
  }

  lemma {:induction false} StoredTwo(v: int)
    ensures StoredFixed(v, 2) == [v % 0x100, v / 0x100 % 0x100]
  {
    Pow256();
    var s := [v % 0x100, v / 0x100 % 0x100];
    ValueTwo(s);
    SplitTwo(v, v / 0x100);
    FixedValue(s, 256);
  }

  lemma {:induction false} ValueTwo(s: seq<nat>)
    requires |s| == 2
    ensures Numerals.Value(s, 256) == s[0] + 0x100 * s[1]
  {
    assert s[1..] == [s[1]] && s[1..][1..] == [];
    assert Numerals.Value(s[1..], 256) == s[1];
    assert Numerals.Value(s, 256) == s[0] + 256 * s[1];
  }

  lemma {:induction false} SplitTwo(v: int, a: int)
    requires a == v / 0x100
    ensures v % 0x1_0000 == v % 0x100 + 0x100 * (a % 0x100)
  {
    assert v == 0x100 * a + v % 0x100;
    var d := a / 0x100;
    assert a == 0x100 * d + a % 0x100;
    FloorUnique(v, 0x1_0000, d, v % 0x100 + 0x100 * (a % 0x100));
  }

  lemma {:induction false} StoredFour(v: int)
    ensures StoredFixed(v, 4) == [v % 0x100, v / 0x100 % 0x100, v / 0x1_0000 % 0x100, v / 0x100_0000 % 0x100]
  {
    Pow256();
    var s := [v % 0x100, v / 0x100 % 0x100, v / 0x1_0000 % 0x100, v / 0x100_0000 % 0x100];
    ValueFour(s);
    SplitFour(v, v / 0x100, v / 0x1_0000, v / 0x100_0000);
    FixedValue(s, 256);
  }

  lemma {:induction false} ValueFour(s: seq<nat>)
    requires |s| == 4
    ensures Numerals.Value(s, 256) == s[0] + 0x100 * s[1] + 0x1_0000 * s[2] + 0x100_0000 * s[3]
  {
    assert s[1..][1..] == s[2..] && s[2..][1..] == s[3..] && s[3..] == [s[3]];
    assert s[3..][1..] == [] && Numerals.Value(s[3..], 256) == s[3];
    assert Numerals.Value(s[2..], 256) == s[2] + 256 * s[3];
    assert Numerals.Value(s[1..], 256) == s[1] + 256 * Numerals.Value(s[2..], 256);
  }

  lemma {:induction false} SplitFour(v: int, a: int, b: int, c: int)
    requires a == v / 0x100 && b == v / 0x1_0000 && c == v / 0x100_0000
    ensures v % 0x1_0000_0000 == v % 0x100 + 0x100 * (a % 0x100) + 0x1_0000 * (b % 0x100) + 0x100_0000 * (c % 0x100)
  {
    Nested(v, a, b, c);
    Assemble(v, a, b, c, c / 0x100, v % 0x100, a % 0x100, b % 0x100, c % 0x100);
  }

  lemma {:induction false} Nested(v: int, a: int, b: int, c: int)
    requires a == v / 0x100 && b == v / 0x1_0000 && c == v / 0x100_0000
    ensures b == a / 0x100 && c == b / 0x100
  {
    FloorUnique(v, 0x1_0000, a / 0x100, v % 0x100 + 0x100 * (a % 0x100));
    FloorUnique(v, 0x100_0000, b / 0x100, v % 0x1_0000 + 0x1_0000 * (b % 0x100));
  }

  lemma {:induction false} Assemble(v: int, a: int, b: int, c: int, d: int, v0: nat, a0: nat, b0: nat, c0: nat)
    requires v == 0x100 * a + v0 && a == 0x100 * b + a0 && b == 0x100 * c + b0 && c == 0x100 * d + c0
    requires v0 < 0x100 && a0 < 0x100 && b0 < 0x100 && c0 < 0x100
    ensures v % 0x1_0000_0000 == v0 + 0x100 * a0 + 0x1_0000 * b0 + 0x100_0000 * c0
  {
    FloorUnique(v, 0x1_0000_0000, d, v0 + 0x100 * a0 + 0x1_0000 * b0 + 0x100_0000 * c0);
  }

  // ---- joining

  /** What `getUint16` builds from two bytes. */
  function JoinTwo(b: seq<byte>): int
    requires |b| == 2
  {
    Or(Or(0, Shl(b[0], 0)), Shl(b[1], 8))
  }

  /** What `getUint32` builds from four bytes, before `>>> 0`. */
  function JoinFour(b: seq<byte>): int
    requires |b| == 4
  {
    Or(Or(JoinTwo(b[..2]), Shl(b[2], 16)), Shl(b[3], 24))
  }

  lemma {:induction false} JoinTwoIs(b: seq<byte>)
    requires |b| == 2
    ensures JoinTwo(b) == Unsigned(b)
  {
    ValueTwo(b);
    JoinTwoBytes(b[0], b[1]);
  }

  lemma {:induction false} JoinTwoBytes(b0: nat, b1: nat)
    requires b0 < 0x100 && b1 < 0x100
    ensures Or(Or(0, Shl(b0, 0)), Shl(b1, 8)) == b0 + 0x100 * b1
  {
    var v := Or(0, Shl(b0, 0));
    assert ToUint32(v) == b0 by {
      JoinByte(0, 0, b0, 0, 1);
    }
    var w := Or(v, Shl(b1, 8));
    assert ToUint32(w) == b0 + b1 * 0x100 by {
      Two8();
      JoinByte(v, b0, b1, 8, 0x100);
    }
    SmallWord(w);
  }

  lemma {:induction false} JoinFourIs(b: seq<byte>)
    requires |b| == 4
    ensures ToUint32(JoinFour(b)) == Unsigned(b)
  {
    var low := b[..2];
    var v := JoinTwo(low);
    var b0: nat, b1: nat := low[0], low[1];
    var u: nat := b0 + 0x100 * b1;
    assert ToUint32(v) == u by {
      JoinTwoIs(low);
      ValueTwo(low);
    }
    JoinHigh(v, u, b[2], b[3]);
    ValueFour(b);
  }

  lemma {:induction false} JoinHigh(v: int, u: nat, b2: nat, b3: nat)
    requires ToUint32(v) == u < 0x1_0000 && b2 < 0x100 && b3 < 0x100
    ensures ToUint32(Or(Or(v, Shl(b2, 16)), Shl(b3, 24))) == u + 0x1_0000 * b2 + 0x100_0000 * b3
  {
    var w := Or(v, Shl(b2, 16));
    var t: nat := u + b2 * 0x1_0000;
    assert ToUint32(w) == t by {
      Two16();
      JoinByte(v, u, b2, 16, 0x1_0000);
    }
    assert ToUint32(Or(w, Shl(b3, 24))) == t + b3 * 0x100_0000 by {
      Two24();
      JoinByte(w, t, b3, 24, 0x100_0000);
    }
  }

  // ---- range checks

  /** `(v << 24) >> 24` is `v` exactly when `v` is a signed byte, and reads a byte as signed. */
  lemma {:induction false} SignExtend8(v: int)
    ensures Sar(Shl(v, 24), 24) == v <==> -0x80 <= v < 0x80
    ensures 0 <= v < 0x100 ==> Sar(Shl(v, 24), 24) == if v < 0x80 then v else v - 0x100
  {
    Two24();
    var m := ShlWraps(v, 24, 0x100_0000);
    SarIs(Shl(v, 24), 24, 0x100_0000);
    FloorUnique(Shl(v, 24), 0x100_0000, v + 0x100 * m, 0);
  }

  lemma {:induction false} SignExtend16(v: int)
    ensures Sar(Shl(v, 16), 16) == v <==> -0x8000 <= v < 0x8000
    ensures 0 <= v < 0x1_0000 ==> Sar(Shl(v, 16), 16) == if v < 0x8000 then v else v - 0x1_0000
  {
    Two16();
    var n := ShlWraps(v, 16, 0x1_0000);
    SarIs(Shl(v, 16), 16, 0x1_0000);
    FloorUnique(Shl(v, 16), 0x1_0000, v + 0x1_0000 * n, 0);
  }

  /** The converted number that `checkRange` compares with, by width and signedness. */
  function Converted(size: nat, signed: bool, n: int): int {
    if size == 1 then (if signed then Sar(Shl(n, 24), 24) else And(n, 0xff))
    else if size == 2 then (if signed then Sar(Shl(n, 16), 16) else And(n, 0xffff))
    else if signed then ToInt32(n)
    else ToUint32(n)
  }

  /** The range check passes exactly on the numbers of that width. */
  lemma {:induction false} ConvertedFits(size: nat, signed: bool, n: int)
    requires size == 1 || size == 2 || size == 4
    ensures Converted(size, signed, n) == n <==> FitsFixed(n, size, signed)
  {
    if size == 1 {
      ByteFits(n);
    } else if size == 2 {
      HalfFits(n);
    } else {
      WordFits(n);
    }
  }

  lemma {:induction false} ByteFits(n: int)
    ensures And(n, 0xff) == n <==> FitsFixed(n, 1, false)
    ensures Sar(Shl(n, 24), 24) == n <==> FitsFixed(n, 1, true)
  {
    Pow256();
    LowByte(n);
    SignExtend8(n);
    FitsBy(n, 1, 0x100, And(n, 0xff), Sar(Shl(n, 24), 24));
  }

  lemma {:induction false} HalfFits(n: int)
    ensures And(n, 0xffff) == n <==> FitsFixed(n, 2, false)
    ensures Sar(Shl(n, 16), 16) == n <==> FitsFixed(n, 2, true)
  {
    Pow256();
    LowHalf(n);
    SignExtend16(n);
    FitsBy(n, 2, 0x1_0000, And(n, 0xffff), Sar(Shl(n, 16), 16));
  }

  lemma {:induction false} FitsBy(n: int, size: nat, p: nat, u: int, s: int)
    requires p == Pow(256, size) && u == n % p && (s == n <==> -(p as int) <= 2 * n < p)
    ensures u == n <==> FitsFixed(n, size, false)
    ensures s == n <==> FitsFixed(n, size, true)
  {
    if 0 <= n < p {
      FloorUnique(n, p, 0, n);
    }
  }

  lemma {:induction false} WordFits(n: int)
    ensures ToUint32(n) == n <==> FitsFixed(n, 4, false)
    ensures ToInt32(n) == n <==> FitsFixed(n, 4, true)
  {
    Pow256();
  }

  // ---- reading signed numbers

  lemma {:induction false} LoadOne(b: seq<byte>)
    requires |b| == 1
    ensures LoadedFixed(b, false) == b[0] && LoadedFixed(b, true) == Sar(Shl(b[0], 24), 24)
  {
    Pow256();
    SignExtend8(b[0]);
    assert b[1..] == [] && Numerals.Value(b, 256) == b[0];
  }

  lemma {:induction false} LoadTwo(b: seq<byte>)
    requires |b| == 2
    ensures LoadedFixed(b, true) == Sar(Shl(Unsigned(b), 16), 16)
  {
    Pow256();
    NegativeIff(b);
    SignExtend16(Unsigned(b));
  }

  lemma {:induction false} LoadFour(b: seq<byte>)
    requires |b| == 4
    ensures LoadedFixed(b, true) == ToInt32(Unsigned(b))
  {
    Pow256();
    NegativeIff(b);
  }
}
