/** 64-bit zig-zag coding on pairs of halves (packages/coin-cosmos/src/varint.ts). */
module CosmosZigZag {
  import opened Numerals
  import opened JsInt
  import opened JsBytes
  import ZigZag
  import opened CosmosVarint

  /** `zzEncode` */
  function ZzEncode(lo: half, hi: half): (half, half) {
    var mask := Sar(hi, 31);
    (ToUint32(Xor(Shl(lo, 1), mask)), ToUint32(Xor(Or(Shl(hi, 1), ShrU(lo, 31)), mask)))
  }

  /** `zzDecode` */
  function ZzDecode(lo: half, hi: half): (half, half) {
    var mask := -And(lo, 1);
    (ToUint32(Xor(Or(ShrU(lo, 1), Shl(hi, 31)), mask)), ToUint32(Xor(ShrU(hi, 1), mask)))
  }

  lemma {:induction false} XorMask(x: int, d: nat, mask: int)
    requires ToUint32(x) == d && (mask == 0 || mask == -1)
    ensures ToUint32(Xor(x, mask)) == if mask == 0 then d else 0xffff_ffff - d
  {
    if mask == 0 {
      ZigZag.EncodePositive(d, x);
    } else {
      XorIs(x, -1, d, 0x1_0000_0000 - 1);
      ZigZag.XorAllOnes(d);
    }
  }

  /** `x << 1` and `x << 31` as words. */
  lemma {:induction false} ShlWord(x: int, u: nat)
    requires ToUint32(x) == u
    ensures ToUint32(Shl(x, 1)) == u % 0x8000_0000 * 2
    ensures ToUint32(Shl(x, 31)) == u % 2 * 0x8000_0000
  {
    hide Shl;
    var q := x / 0x1_0000_0000;
    assert x == u + 0x1_0000_0000 * q;
    Two1();
    var m := ShlWraps(x, 1, 2);
    assert u == 0x8000_0000 * (u / 0x8000_0000) + u % 0x8000_0000;
    FloorUnique(Shl(x, 1), 0x1_0000_0000, 2 * q + m + u / 0x8000_0000, u % 0x8000_0000 * 2);
    Two31();
    var n := ShlWraps(x, 31, 0x8000_0000);
    assert u == 2 * (u / 2) + u % 2;
    FloorUnique(Shl(x, 31), 0x1_0000_0000, 0x8000_0000 * q + n + u / 2, u % 2 * 0x8000_0000);
  }

  lemma {:induction false} Shifts(x: half, u: nat)
    requires ToUint32(x) == u
    ensures ShrU(x, 31) == u / 0x8000_0000 < 2 && ShrU(x, 1) == u / 2 < 0x8000_0000
    ensures Sar(x, 31) == if u < 0x8000_0000 then 0 else -1
  {
    Two31();
    Two1();
  }

  lemma {:induction false} EncodeHalves(lo: half, hi: half, l: nat, h: nat)
    requires ToUint32(lo) == l && ToUint32(hi) == h
    ensures ToUint32(Shl(lo, 1)) == l % 0x8000_0000 * 2
    ensures ToUint32(Or(Shl(hi, 1), ShrU(lo, 31))) == l / 0x8000_0000 + h % 0x8000_0000 * 2
  {
    hide *;
    ShlWord(lo, l);
    ShlWord(hi, h);
    Shifts(lo, l);
    SelfWord(l / 0x8000_0000);
    Two1();
    OrJoin(ShrU(lo, 31), Shl(hi, 1), l / 0x8000_0000, h % 0x8000_0000, 1, 2);
  }

  lemma {:induction false} DecodeHalves(lo: half, hi: half, l: nat, h: nat)
    requires ToUint32(lo) == l && ToUint32(hi) == h
    ensures ToUint32(Or(ShrU(lo, 1), Shl(hi, 31))) == l / 2 + h % 2 * 0x8000_0000
    ensures ToUint32(ShrU(hi, 1)) == h / 2
    ensures And(lo, 1) == l % 2
  {
    hide *;
    ShlWord(hi, h);
    Shifts(lo, l);
    Shifts(hi, h);
    SelfWord(l / 2);
    SelfWord(h / 2);
    Two31();
    OrJoin(ShrU(lo, 1), Shl(hi, 31), l / 2, h % 2, 31, 0x8000_0000);
    Two1();
    MaskIs(lo, l, 1, 2);
  }

  /** `zzEncode` is the zig-zag code of the signed 64-bit number. */
  lemma {:induction false} ZzEncodeIs(lo: half, hi: half)
    ensures ZzEncode(lo, hi).0 >= 0 && ZzEncode(lo, hi).1 >= 0
    ensures Word(ZzEncode(lo, hi).0, ZzEncode(lo, hi).1) == ZigZag.Encode(Signed64(Word(lo, hi)))
  {
    hide Xor, Or, Shl, ShrU, Sar, Word;
    var l, h := ToUint32(lo), ToUint32(hi);
    EncodeHalves(lo, hi, l, h);
    Shifts(hi, h);
    var mask := Sar(hi, 31);
    XorMask(Shl(lo, 1), l % 0x8000_0000 * 2, mask);
    XorMask(Or(Shl(hi, 1), ShrU(lo, 31)), l / 0x8000_0000 + h % 0x8000_0000 * 2, mask);
    var z := ZzEncode(lo, hi);
    WordIs(lo, hi, l, h);
    WordIs(z.0, z.1, z.0, z.1);
    EncodeSum(l, h, z.0, z.1);
  }

  lemma {:induction false} EncodeSum(l: nat, h: nat, x: nat, y: nat)
    requires l < 0x1_0000_0000 && h < 0x1_0000_0000
    requires x == if h < 0x8000_0000 then l % 0x8000_0000 * 2 else 0xffff_ffff - l % 0x8000_0000 * 2
    requires var d := l / 0x8000_0000 + h % 0x8000_0000 * 2; y == if h < 0x8000_0000 then d else 0xffff_ffff - d
    ensures x + 0x1_0000_0000 * y == ZigZag.Encode(Signed64(l + 0x1_0000_0000 * h))
  {
    assert l == 0x8000_0000 * (l / 0x8000_0000) + l % 0x8000_0000;
    if h < 0x8000_0000 {
      assert h % 0x8000_0000 == h;
    } else {
      assert h % 0x8000_0000 == h - 0x8000_0000;
    }
  }

  /** `zzDecode` is the number that a zig-zag code stands for. */
  lemma {:induction false} ZzDecodeIs(lo: half, hi: half)
    ensures ZzDecode(lo, hi).0 >= 0 && ZzDecode(lo, hi).1 >= 0
    ensures Signed64(Word(ZzDecode(lo, hi).0, ZzDecode(lo, hi).1)) == ZigZag.Decode(Word(lo, hi))
  {
    hide Xor, Or, Shl, ShrU, And, Word;
    var l, h := ToUint32(lo), ToUint32(hi);
    DecodeHalves(lo, hi, l, h);
    var mask := -And(lo, 1);
    XorMask(Or(ShrU(lo, 1), Shl(hi, 31)), l / 2 + h % 2 * 0x8000_0000, mask);
    XorMask(ShrU(hi, 1), h / 2, mask);
    var z := ZzDecode(lo, hi);
    WordIs(lo, hi, l, h);
    WordIs(z.0, z.1, z.0, z.1);
    DecodeSum(l, h, z.0, z.1);
  }

  lemma {:induction false} DecodeSum(l: nat, h: nat, x: nat, y: nat)
    requires l < 0x1_0000_0000 && h < 0x1_0000_0000
    requires var d := l / 2 + h % 2 * 0x8000_0000; x == if l % 2 == 0 then d else 0xffff_ffff - d
    requires y == if l % 2 == 0 then h / 2 else 0xffff_ffff - h / 2
    ensures Signed64(x + 0x1_0000_0000 * y) == ZigZag.Decode(l + 0x1_0000_0000 * h)
  {
    assert l == 2 * (l / 2) + l % 2 && h == 2 * (h / 2) + h % 2;
    var w := l + 0x1_0000_0000 * h;
    var half := l / 2 + h % 2 * 0x8000_0000 + 0x1_0000_0000 * (h / 2);
    assert w == 2 * half + l % 2;
  }

  /** Decoding undoes encoding for every pair of halves, and encoding undoes decoding. */
  lemma {:induction false} ZzRoundTrip(lo: half, hi: half)
    ensures var z := ZzEncode(lo, hi); var r := ZzDecode(z.0, z.1); Word(r.0, r.1) == Word(lo, hi)
    ensures var z := ZzDecode(lo, hi); var r := ZzEncode(z.0, z.1); Word(r.0, r.1) == Word(lo, hi)
  {
    hide ZzEncode, ZzDecode, Word;
    var z := ZzEncode(lo, hi);
    ZzEncodeIs(lo, hi);
    ZzDecodeIs(z.0, z.1);
    ZigZag.DecodeEncode(Signed64(Word(lo, hi)), 0);
    var y := ZzDecode(lo, hi);
    ZzDecodeIs(lo, hi);
    ZzEncodeIs(y.0, y.1);
    ZigZag.DecodeEncode(0, Word(lo, hi));
  }
}
