/**
 * Decimal strings of 64-bit numbers held as two 32-bit halves
 * (packages/coin-cosmos/src/varint.ts): parsing in base 10^6, printing in base 10^7. The
 * source computes with doubles; every intermediate is shown to stay below 2^53, so the
 * arithmetic is exact.
 */
module CosmosDecimal {
  import opened Wrappers
  import opened Numerals
  import opened JsInt
  import opened JsBytes
  import opened Decimal
  import opened CosmosVarint

  /** Exact integers of a double. */
  predicate Safe(x: int) {
    -0x20_0000_0000_0000 < x < 0x20_0000_0000_0000
  }

  // ---- printing

  function Leading7(d: nat): string {
    var partial := NatString(d, 1);
    "0000000"[if |partial| <= 7 then |partial| else 7..] + partial
  }

  lemma {:induction false} Leading7Is(d: nat)
    requires d < 10000000
    ensures Leading7(d) == NatString(d, 7)
  {
    hide NatString, DecValue, LowFirst;
    var s := NatString(d, 1);
    NatStringValue(d, 1);
    Ten7();
    assert |s| <= 7 by {
      if |s| > 7 {
        assert s[0] != '0';
        LeadingDigit(s);
        PowMono(10, 7, |s| - 1);
      }
    }
    var zeros: string := "0000000"[|s|..];
    DecZeros(zeros);
    DecConcat(zeros, s);
    NatStringUnique(zeros + s, 7);
  }

  lemma {:induction false} Ten7()
    ensures Pow(10, 6) == 1000000 && Pow(10, 7) == 10000000
  {
    assert Pow(10, 1) == 10 * Pow(10, 0);
    assert Pow(10, 2) == 10 * Pow(10, 1);
    assert Pow(10, 3) == 10 * Pow(10, 2);
    assert Pow(10, 4) == 10 * Pow(10, 3);
    assert Pow(10, 5) == 10 * Pow(10, 4);
    assert Pow(10, 6) == 10 * Pow(10, 5);
    assert Pow(10, 7) == 10 * Pow(10, 6);
  }

  /** The 16:24:24 split. */
  lemma {:induction false} Split(lo: int, hi: int, l: nat, h: nat)
    requires l == ToUint32(lo) == lo && h == ToUint32(hi) == hi
    ensures And(lo, 0xff_ffff) == l % 0x100_0000
    ensures And(Or(ShrU(lo, 24), Shl(hi, 8)), 0xff_ffff) == l / 0x100_0000 + h % 0x1_0000 * 0x100
    ensures And(Sar(hi, 16), 0xffff) == h / 0x1_0000
  {
    hide *;
    Two24();
    MaskIs(lo, l, 24, 0x100_0000);
    MiddleBits(lo, hi, l, h);
    TopHalf(hi, h);
  }

  lemma {:induction false} MiddleBits(lo: int, hi: int, l: nat, h: nat)
    requires l == ToUint32(lo) && h == ToUint32(hi)
    ensures And(Or(ShrU(lo, 24), Shl(hi, 8)), 0xff_ffff) == l / 0x100_0000 + h % 0x1_0000 * 0x100
  {
    hide *;
    var u, y := l / 0x100_0000, Shl(hi, 8);
    ShiftedDown(lo, l);
    ShiftedUp(hi, h);
    var d := h % 0x100_0000;
    Two8();
    OrJoin(u, y, u, d, 8, 0x100);
    Two24();
    MaskIs(Or(u, y), u + d * 0x100, 24, 0x100_0000);
    assert d == 0x1_0000 * (d / 0x1_0000) + d % 0x1_0000;
    assert d % 0x1_0000 == h % 0x1_0000 by {
      assert h == 0x100_0000 * (h / 0x100_0000) + d;
      FloorUnique(h, 0x1_0000, 0x100 * (h / 0x100_0000) + d / 0x1_0000, d % 0x1_0000);
    }
    FloorUnique(u + d * 0x100, 0x100_0000, d / 0x1_0000, u + h % 0x1_0000 * 0x100);
  }

  lemma {:induction false} ShiftedDown(lo: int, l: nat)
    requires l == ToUint32(lo)
    ensures ShrU(lo, 24) == l / 0x100_0000 < 0x100 && ToUint32(l / 0x100_0000) == l / 0x100_0000
  {
    Two24();
  }

  lemma {:induction false} ShiftedUp(hi: int, h: nat)
    requires h == ToUint32(hi)
    ensures ToUint32(Shl(hi, 8)) == h % 0x100_0000 * 0x100
  {
    hide Shl;
    Two8();
    var m := ShlWraps(hi, 8, 0x100);
    var q := hi / 0x1_0000_0000;
    assert hi == h + 0x1_0000_0000 * q;
    assert h == 0x100_0000 * (h / 0x100_0000) + h % 0x100_0000;
    FloorUnique(Shl(hi, 8), 0x1_0000_0000, 0x100 * q + m + h / 0x100_0000, h % 0x100_0000 * 0x100);
  }

  /** `(hi >> 16) & 0xffff` */
  lemma {:induction false} TopHalf(hi: int, h: nat)
    requires h == ToUint32(hi)
    ensures And(Sar(hi, 16), 0xffff) == h / 0x1_0000
  {
    hide And;
    LowHalf(Sar(hi, 16));
    Two16();
    var t := ToInt32(hi);
    assert Sar(hi, 16) == t / 0x1_0000;
    if h >= 0x8000_0000 {
      assert t == h - 0x1_0000_0000;
      FloorUnique(t, 0x1_0000, h / 0x1_0000 - 0x1_0000, h % 0x1_0000);
      FloorUnique(t / 0x1_0000, 0x1_0000, -1, h / 0x1_0000);
    } else {
      FloorUnique(h / 0x1_0000, 0x1_0000, 0, h / 0x1_0000);
    }
  }

  /** The digits assembled from the split. */
  lemma {:induction false} Assembled(l: nat, h: nat, low: nat, mid: nat, high: nat)
    requires l < 0x1_0000_0000 && h < 0x1_0000_0000
    requires low == l % 0x100_0000 && mid == l / 0x100_0000 + h % 0x1_0000 * 0x100 && high == h / 0x1_0000
    ensures low < 0x100_0000 && mid < 0x100_0000 && high < 0x1_0000
    ensures l + 0x1_0000_0000 * h == (low + mid * 6777216 + high * 6710656) + 10000000 * (mid + high * 8147497)
                                     + 100000000000000 * (high * 2)
  {
    assert l == 0x100_0000 * (l / 0x100_0000) + low;
    assert h == 0x1_0000 * high + h % 0x1_0000;
    assert l + 0x1_0000_0000 * h == low + 0x100_0000 * mid + 0x1_0000_0000_0000 * high;
  }

  /** Three base-10^7 digits, most significant first. */
  lemma {:induction false} ThreeDigits(a: nat, b: nat, c: nat)
    requires a < 10000000 && b < 10000000 && c > 0
    ensures NatString(c, 1) + Leading7(b) + Leading7(a) == NatString(a + 10000000 * b + 100000000000000 * c, 1)
  {
    hide NatString, Leading7;
    Ten7();
    Leading7Is(a);
    Leading7Is(b);
    NatStringSplit(c, b, 7);
    NatStringSplit(b + 10000000 * c, a, 7);
  }

  /** `uInt64ToString` prints the canonical decimal of the word, without rounding anywhere. */
  method UInt64ToString(lo0: half, hi0: half) returns (s: string)
    ensures s == NatString(Word(lo0, hi0), 1)
  {
    hide And, Or, Shl, ShrU, Sar, Word, ToUint32, NatString, Leading7;
    var lo, hi := ToUint32(lo0), ToUint32(hi0);
    WordIs(lo0, hi0, lo, hi);
    if hi <= 0x1fffff {
      assert Safe(0x1_0000_0000 * hi + lo);
      return NatString(0x1_0000_0000 * hi + lo, 1);
    }
    SelfWord(lo);
    SelfWord(hi);
    Split(lo, hi, lo, hi);
    var low := And(lo, 0xff_ffff);
    var mid := And(Or(ShrU(lo, 24), Shl(hi, 8)), 0xff_ffff);
    var high := And(Sar(hi, 16), 0xffff);
    Assembled(lo, hi, low, mid, high);
    ghost var w := lo + 0x1_0000_0000 * hi;
    var digitA: nat, digitB: nat, digitC: nat := low + mid * 6777216 + high * 6710656, mid + high * 8147497, high * 2;
    assert Safe(digitA) && Safe(digitB) && w == digitA + 10000000 * digitB + 100000000000000 * digitC;
    if digitA >= 10000000 {
      digitB := digitB + digitA / 10000000;
      digitA := digitA % 10000000;
    }
    assert Safe(digitB) && digitA < 10000000 && w == digitA + 10000000 * digitB + 100000000000000 * digitC;
    if digitB >= 10000000 {
      digitC := digitC + digitB / 10000000;
      digitB := digitB % 10000000;
    }
    assert digitB < 10000000 && w == digitA + 10000000 * digitB + 100000000000000 * digitC;
    ThreeDigits(digitA, digitB, digitC);
    s := NatString(digitC, 1) + Leading7(digitB) + Leading7(digitA);
  }

  // ---- parsing

  /** A number as the pair of signed halves that `newBits` makes. */
  function Halves(n: int): (b: (half, half)) {
    (ToInt32(n), ToInt32(n / 0x1_0000_0000))
  }

  lemma {:induction false} WordOfHalves(n: int)
    ensures Word(Halves(n).0, Halves(n).1) == n % 0x1_0000_0000_0000_0000
  {
    hide Word;
    var q, l := n / 0x1_0000_0000, n % 0x1_0000_0000;
    WordIs(Halves(n).0, Halves(n).1, l, q % 0x1_0000_0000);
    assert n == 0x1_0000_0000 * q + l;
    assert q == 0x1_0000_0000 * (q / 0x1_0000_0000) + q % 0x1_0000_0000;
    FloorUnique(n, 0x1_0000_0000_0000_0000, q / 0x1_0000_0000, l + 0x1_0000_0000 * (q % 0x1_0000_0000));
  }

  /** What `int64FromString` reads: the sign and the last 24 digits. */
  function ParsedNumber(dec: string): int
    requires AllDigits(Magnitude(dec))
  {
    var m: int := DecValue(Magnitude(dec)) % 1000000000000000000000000;
    if HasMinus(dec) then -m else m
  }

  /** `s.slice(-a, -b)` */
  function SliceBack(s: string, a: nat, b: nat): string
    requires a >= b
  {
    s[if |s| < a then 0 else |s| - a..if |s| < b then 0 else |s| - b]
  }

  method Add1e6Digit(low: nat, high: nat, digits: string) returns (low': nat, high': nat)
    requires AllDigits(digits) && |digits| <= 6 && low < 0x1_0000_0000 && high < 232830644
    ensures low' < 0x1_0000_0000
    ensures high' * 0x1_0000_0000 + low' == (high * 0x1_0000_0000 + low) * 1000000 + DecValue(digits)
  {
    hide DecValue;
    var digit1e6 := DecValue(digits);
    assert digit1e6 < 1000000 by {
      DecBound(digits);
      Ten7();
      PowMono(10, |digits|, 6);
    }
    high' := high * 1000000;
    low' := low * 1000000 + digit1e6;
    assert Safe(high') && Safe(low');
    if low' >= 0x1_0000_0000 {
      high' := high' + ToInt32(low' / 0x1_0000_0000);
      low' := low' % 0x1_0000_0000;
      assert Safe(high');
    }
  }

  /** `negate` on `lowBits + 2^32 highBits`. */
  method Negate(lowBits: half, highBits: int, ghost n: int) returns (lo: half, hi: half)
    requires n == highBits * 0x1_0000_0000 + ToUint32(lowBits)
    ensures (lo, hi) == Halves(-n)
  {
    hide ToInt32, ToUint32;
    var h, l: int := Not(highBits), lowBits;
    ghost var low := ToUint32(lowBits);
    ghost var a := WrapOf(lowBits, low);
    ghost var b := SignedWrap(highBits);
    ghost var c := SignedWrap(lowBits);
    if lowBits != 0 {
      l := Not(lowBits) + 1;
      FloorUnique(-n, 0x1_0000_0000, -highBits - 1, 0x1_0000_0000 - low);
      SameWord(-n, l, a - c - highBits);
    } else {
      h := h + 1;
      FloorUnique(-n, 0x1_0000_0000, -highBits, 0);
      SameWord(-n, l, -highBits);
    }
    SameWord(-n / 0x1_0000_0000, h, -b);
    lo, hi := ToInt32(l), ToInt32(h);
  }

  lemma {:induction false} WrapOf(x: half, u: nat) returns (m: int)
    requires u == ToUint32(x)
    ensures x == u + 0x1_0000_0000 * m && (x == 0 <==> u == 0)
  {
    m := x / 0x1_0000_0000;
  }

  lemma {:induction false} SignedWrap(x: int) returns (m: int)
    ensures x == ToInt32(x) + 0x1_0000_0000 * m
  {
    m := x / 0x1_0000_0000 + (if x % 0x1_0000_0000 < 0x8000_0000 then 0 else 1);
  }

  lemma {:induction false} SameWord(x: int, y: int, m: int)
    requires x == y + 0x1_0000_0000 * m
    ensures ToInt32(x) == ToInt32(y)
  {
    FloorUnique(x, 0x1_0000_0000, y / 0x1_0000_0000 + m, y % 0x1_0000_0000);
  }

  lemma {:induction false} JoinSlices(s: string, t: string)
    requires AllDigits(s) && AllDigits(t) && (|t| == 6 || s == [])
    ensures AllDigits(s + t) && DecValue(s + t) == DecValue(s) * 1000000 + DecValue(t)
  {
    DecConcat(s, t);
    Ten7();
    if s == [] {
      assert DecValue(s) == 0;
    }
  }

  lemma {:induction false} Pow10By6()
    ensures Pow(10, 12) == 1000000000000 && Pow(10, 18) == 1000000000000000000
    ensures Pow(10, 24) == 1000000000000000000000000
  {
    Ten7();
    PowAdd(10, 6, 6);
    PowAdd(10, 12, 6);
    PowAdd(10, 18, 6);
  }

  lemma {:induction false} SlicesJoin(s: string)
    ensures SliceBack(s, 24, 18) + SliceBack(s, 18, 12) + SliceBack(s, 12, 6) + SliceBack(s, 6, 0) == SliceBack(s, 24, 0)
  {
    AdjacentSlices(s, 24, 18, 12);
    AdjacentSlices(s, 24, 12, 6);
    AdjacentSlices(s, 24, 6, 0);
  }

  lemma {:induction false} AdjacentSlices(s: string, a: nat, b: nat, c: nat)
    requires a >= b >= c
    ensures SliceBack(s, a, b) + SliceBack(s, b, c) == SliceBack(s, a, c)
  {
  }

  /** A slice of at most `k` digits. */
  lemma {:induction false} SliceBound(s: string, k: nat, bound: nat)
    requires AllDigits(s) && |s| <= k && bound == Pow(10, k)
    ensures DecValue(s) < bound
  {
    DecBound(s);
    PowMono(10, |s|, k);
  }

  /** The last 24 digits are the number modulo 10^24. */
  lemma {:induction false} Last24(s: string)
    requires AllDigits(s)
    ensures AllDigits(SliceBack(s, 24, 0))
    ensures DecValue(SliceBack(s, 24, 0)) == DecValue(s) % 1000000000000000000000000
  {
    hide DecValue;
    var last := SliceBack(s, 24, 0);
    Pow10By6();
    SliceBound(last, 24, 1000000000000000000000000);
    if |s| > 24 {
      var front := s[..|s| - 24];
      assert s == front + last;
      DecConcat(front, last);
      FloorUnique(DecValue(s), 1000000000000000000000000, DecValue(front), DecValue(last));
    } else {
      assert last == s;
      FloorUnique(DecValue(s), 1000000000000000000000000, 0, DecValue(s));
    }
  }

  method Int64FromString(dec: string) returns (lo: half, hi: half)
    requires AllDigits(Magnitude(dec))
    ensures (lo, hi) == Halves(ParsedNumber(dec))
  {
    hide DecValue, ToInt32;
    var minus := HasMinus(dec);
    var lowBits, highBits := ParseLast24(Magnitude(dec));
    ghost var n: nat := DecValue(Magnitude(dec)) % 1000000000000000000000000;
    if minus {
      SelfWord(lowBits);
      lo, hi := Negate(lowBits, highBits, n);
    } else {
      FloorUnique(n, 0x1_0000_0000, highBits, lowBits);
      SameWord(n, lowBits, highBits);
      lo, hi := ToInt32(lowBits), ToInt32(highBits);
    }
  }

  /** The four steps of `int64FromString`, six digits at a time. */
  method ParseLast24(body: string) returns (lowBits: nat, highBits: nat)
    requires AllDigits(body)
    ensures lowBits < 0x1_0000_0000
    ensures highBits * 0x1_0000_0000 + lowBits == DecValue(body) % 1000000000000000000000000
  {
    hide DecValue;
    var s1, s2 := SliceBack(body, 24, 18), SliceBack(body, 18, 12);
    var s3, s4 := SliceBack(body, 12, 6), SliceBack(body, 6, 0);
    Ten7();
    Pow10By6();
    lowBits, highBits := Add1e6Digit(0, 0, s1);
    SliceBound(s1, 6, 1000000);
    JoinSlices(s1, s2);
    lowBits, highBits := Add1e6Digit(lowBits, highBits, s2);
    SliceBound(s1 + s2, 12, 1000000000000);
    JoinSlices(s1 + s2, s3);
    lowBits, highBits := Add1e6Digit(lowBits, highBits, s3);
    SliceBound(s1 + s2 + s3, 18, 1000000000000000000);
    JoinSlices(s1 + s2 + s3, s4);
    lowBits, highBits := Add1e6Digit(lowBits, highBits, s4);
    SlicesJoin(body);
    Last24(body);
  }

  /** `x & 0x80000000` */
  lemma {:induction false} SignBit(x: int)
    ensures And(x, 0x8000_0000) != 0 <==> ToUint32(x) >= 0x8000_0000
  {
    var u := ToUint32(x);
    Two31();
    AndPower(u, 31, 0x8000_0000);
    BitByShift(u, 31, 0x8000_0000);
    AndIs(x, 0x8000_0000, u, 0x8000_0000);
  }

  /** `int64ToString` prints the signed 64-bit number. */
  method Int64ToString(lo: half, hi: half) returns (s: string)
    ensures s == IntString(Signed64(Word(lo, hi)))
  {
    hide And, Word, NatString, Signed64, Halves;
    var bl: half, bh: half := ToInt32(lo), ToInt32(hi);
    ghost var l, h := ToUint32(lo), ToUint32(hi);
    WordIs(lo, hi, l, h);
    WordIs(bl, bh, l, h);
    SignBit(bh);
    var negative := And(bh, 0x8000_0000) != 0;
    ghost var n := bh * 0x1_0000_0000 + l;
    SignedHalves(lo, hi, bh, l, n);
    if negative {
      bl, bh := Negate(bl, bh, n);
      WordOfHalves(-n);
      FloorUnique(-n, 0x1_0000_0000_0000_0000, 0, -n);
    }
    s := UInt64ToString(bl, bh);
    s := if negative then "-" + s else s;
  }

  /** The signed 64-bit number of two halves. */
  lemma {:induction false} SignedHalves(lo: half, hi: half, bh: half, l: nat, n: int)
    requires l == ToUint32(lo) && bh == ToInt32(hi) && n == bh * 0x1_0000_0000 + l
    ensures n == Signed64(Word(lo, hi))
  {
    hide Word;
    WordIs(lo, hi, l, ToUint32(hi));
  }

  // ---- inverses

  /** Parsing what was printed. */
  lemma {:induction false} ParsePrinted(n: int)
    requires -0x8000_0000_0000_0000 <= n < 0x1_0000_0000_0000_0000
    ensures AllDigits(Magnitude(IntString(n))) && ParsedNumber(IntString(n)) == n
  {
    hide NatString, DecValue;
    var s := IntString(n);
    var m: nat := if n < 0 then -n else n;
    NatStringValue(m, 1);
    if n < 0 {
      assert s[1..] == NatString(m, 1);
    } else {
      assert !HasMinus(s) by { assert IsDigit(s[0]); }
    }
    FloorUnique(m, 1000000000000000000000000, 0, m);
  }

  /** Both directions between 64-bit pairs and decimal strings: unsigned, then signed. */
  lemma {:induction false} DecimalRoundTrip(lo: half, hi: half)
    ensures
      var u, v := Word(lo, hi), Signed64(Word(lo, hi));
      && Word(Halves(ParsedNumber(NatString(u, 1))).0, Halves(ParsedNumber(NatString(u, 1))).1) == u
      && Word(Halves(ParsedNumber(IntString(v))).0, Halves(ParsedNumber(IntString(v))).1) == u
  {
    hide Word, NatString, DecValue, Halves;
    var u, v := Word(lo, hi), Signed64(Word(lo, hi));
    ParsePrinted(u);
    ParsePrinted(v);
    WordOfHalves(u);
    WordOfHalves(v);
    FloorUnique(u, 0x1_0000_0000_0000_0000, 0, u);
    FloorUnique(v, 0x1_0000_0000_0000_0000, if v < 0 then -1 else 0, u);
  }

  /** A number comes back from its pair exactly on the signed, or the unsigned, 64-bit range. */
  lemma {:induction false} NumberRoundTrip(n: int)
    ensures Signed64(Word(Halves(n).0, Halves(n).1)) == n <==> -0x8000_0000_0000_0000 <= n < 0x8000_0000_0000_0000
    ensures Word(Halves(n).0, Halves(n).1) == n <==> 0 <= n < 0x1_0000_0000_0000_0000
  {
    hide Word, Halves;
    WordOfHalves(n);
    if 0 <= n < 0x1_0000_0000_0000_0000 {
      FloorUnique(n, 0x1_0000_0000_0000_0000, 0, n);
    } else if -0x8000_0000_0000_0000 <= n < 0 {
      FloorUnique(n, 0x1_0000_0000_0000_0000, -1, n + 0x1_0000_0000_0000_0000);
    }
  }
}
