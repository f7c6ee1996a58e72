/** Masks, shifts and joins of bytes in JavaScript's 32-bit operators, as arithmetic. */
module JsBytes {
  import opened Wrappers
  import opened Numerals
  import opened JsInt

  /** Numbers stored into a `Uint8Array`. */
  function AsBytes(v: seq<int>): (b: seq<byte>)
    ensures |b| == |v|
  {
    seq(|v|, i requires 0 <= i < |v| => v[i] % 256)
  }

  /** A mask of `k` low bits. */
  lemma {:induction false} MaskIs(x: int, u: nat, k: nat, p: nat)
    requires ToUint32(x) == u && p == Pow(2, k) && p <= 0x8000_0000
    ensures And(x, p - 1) == u % p
  {
    AndMask(u, k, p);
    AndIs(x, p - 1, u, p - 1);
  }

  lemma {:induction false} LowByte(x: int)
    ensures And(x, 0xff) == x % 0x100
  {
    Two8();
    MaskIs(x, ToUint32(x), 8, 0x100);
    WordMod(x, x / 0x1_0000_0000, ToUint32(x));
  }

  lemma {:induction false} LowHalf(x: int)
    ensures And(x, 0xffff) == x % 0x1_0000
  {
    Two16();
    MaskIs(x, ToUint32(x), 16, 0x1_0000);
    WordMod(x, x / 0x1_0000_0000, ToUint32(x));
  }

  lemma {:induction false} WordMod(x: int, q: int, u: int)
    requires x == u + 0x1_0000_0000 * q
    ensures x % 0x100 == u % 0x100 && x % 0x1_0000 == u % 0x1_0000
  {
    FloorUnique(x, 0x100, u / 0x100 + 0x100_0000 * q, u % 0x100);
    FloorUnique(x, 0x1_0000, u / 0x1_0000 + 0x1_0000 * q, u % 0x1_0000);
  }

  lemma {:induction false} BytesStay(b: seq<byte>)
    ensures AsBytes(b) == b
  {
  }

  /** `v |= d << k` above the bits already there. */
  lemma {:induction false} JoinByte(v: int, u: nat, d: nat, k: nat, p: nat)
    requires ToUint32(v) == u < p && p == Pow(2, k) && k < 32 && p <= 0x100_0000 && d < 0x100
    ensures ToUint32(Or(v, Shl(d, k))) == u + d * p
  {
    ShlByte(d, k, p);
    OrJoin(v, Shl(d, k), u, d, k, p);
  }

  lemma {:induction false} ShlByte(d: nat, k: nat, p: nat)
    requires p == Pow(2, k) && k < 32 && p <= 0x100_0000 && d < 0x100
    ensures ToUint32(Shl(d, k)) == d * p
  {
    var x := d * p;
    assert x <= 0xff * 0x100_0000 by {
      MulMono(d, 0xff, p);
      MulMono(p, 0x100_0000, 0xff);
    }
    ShlIs(d, k, p);
    FloorUnique(x, 0x1_0000_0000, 0, x);
  }

  lemma SmallWord(w: int)
    requires -0x8000_0000 <= w < 0x8000_0000 && ToUint32(w) < 0x8000_0000
    ensures w == ToUint32(w)
  {
  }

  /** `v << k`, up to a multiple of 2^32. */
  lemma {:induction false} ShlWraps(v: int, k: nat, p: nat) returns (m: int)
    requires k < 32 && p == Pow(2, k)
    ensures Shl(v, k) == v * p + 0x1_0000_0000 * m
  {
    var u := ToUint32(v);
    var q := v / 0x1_0000_0000;
    var w := u * p;
    assert v == u + 0x1_0000_0000 * q;
    assert Shl(v, k) == ToInt32(w);
    var n := w / 0x1_0000_0000 - (if w % 0x1_0000_0000 < 0x8000_0000 then 0 else -1);
    assert ToInt32(w) == w - 0x1_0000_0000 * n;
    assert v * p == w + 0x1_0000_0000 * (q * p);
    m := -n - q * p;
  }

  lemma {:induction false} Mask7(b: byte)
    ensures And(b, 0x7f) == b % 128
    ensures And(b, 0x80) == if b >= 128 then 128 else 0
  {
    assert AndN(b, 0x7f) == b % 128 by {
      Two7();
      AndMask(b, 7, 128);
    }
    AndIs(b, 0x7f, b, 0x7f);
    assert AndN(b, 0x80) == if b >= 128 then 128 else 0 by {
      Two7();
      AndPower(b, 7, 128);
      BitByShift(b, 7, 128);
    }
    AndIs(b, 0x80, b, 0x80);
  }

  lemma {:induction false} SetBit7(x: nat)
    requires x < 128
    ensures Or(0x80, x) == x + 128 && Or(x, 0x80) == x + 128
  {
    Two7();
    OrJoin(x, 0x80, x, 1, 7, 128);
    SmallWord(Or(0x80, x));
    SmallWord(Or(x, 0x80));
  }

  /** `x | 128`, cut to a byte. */
  lemma {:induction false} MarkedByte(x: nat)
    requires x < 0x1_0000_0000
    ensures And(Or(x, 0x80), 0xff) == x % 128 + 128
  {
    Two7();
    OrPower(x, 7, 128);
    var o := OrN(x, 128);
    OrIs(x, 0x80, x, 128);
    LowByte(Or(x, 0x80));
    WordByte(o, Or(x, 0x80));
  }

  lemma {:induction false} WordByte(o: int, r: int)
    requires r == ToInt32(o)
    ensures r % 0x100 == o % 0x100
  {
    var m := o / 0x1_0000_0000 - r / 0x1_0000_0000;
    assert o == r + 0x1_0000_0000 * m;
    WordMod(o, m, r);
  }

  /** A disjunction with a power of two sets that bit and keeps those below it. */
  lemma {:induction false} OrPower(x: nat, k: nat, p: nat)
    requires p == Pow(2, k)
    ensures OrN(x, p) % (2 * p) == x % p + p
    decreases k
  {
    if k == 0 {
      OrOne(x);
    } else if x == 0 {
      assert p % (2 * p) == p;
    } else {
      var h := Pow(2, k - 1);
      PartsIs(p, h, false);
      OrPower(Half(x), k - 1, h);
      ModDouble(x, h);
      var o := OrN(x, p);
      PartsIs(o, OrN(Half(x), h), Odd(x));
      ModDouble(o, p);
    }
  }

  lemma {:induction false} OrOne(x: nat)
    ensures OrN(x, 1) % 2 == 1
  {
    PartsIs(1, 0, true);
  }

  lemma OrRange(x: int, y: int)
    ensures -0x8000_0000 <= Or(x, y) < 0x8000_0000
  {
  }

  lemma SelfWord(u: nat)
    requires u < 0x1_0000_0000
    ensures ToUint32(u) == u
  {
  }
}
