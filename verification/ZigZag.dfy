/** Zig-zag coding of signed numbers and the 32-bit operator forms that compute it. */
module ZigZag {
  import opened Numerals
  import opened JsInt

  /** 0, -1, 1, -2, 2, ... become 0, 1, 2, 3, 4, ... */
  function Encode(v: int): (n: nat) {
    if v >= 0 then 2 * v else -2 * v - 1
  }

  function Decode(n: nat): int {
    if n % 2 == 1 then -((n + 1) / 2) else n / 2
  }

  lemma DecodeEncode(v: int, n: nat)
    ensures Decode(Encode(v)) == v && Encode(Decode(n)) == n
  {
  }

  /** `(v << 1) ^ (v >> 31)`, read as an unsigned number. */
  function Encode32(v: int): int {
    ToUint32(Xor(Shl(v, 1), Sar(v, 31)))
  }

  lemma {:induction false} Encode32Is(v: int)
    requires -0x8000_0000 <= v < 0x8000_0000
    ensures Encode32(v) == Encode(v) < 0x1_0000_0000
  {
    var d := ToUint32(Shl(v, 1));
    assert d == (ToUint32(v) * 2) % 0x1_0000_0000 by {
      Two1();
    }
    assert Sar(v, 31) == if v >= 0 then 0 else -1 by {
      Two31();
      SarIs(v, 31, 0x8000_0000);
    }
    if v >= 0 {
      EncodePositive(d, Shl(v, 1));
    } else {
      EncodeNegative(v, d, Shl(v, 1));
    }
  }

  /** For any number, of its signed word. */
  lemma {:induction false} EncodeAny(v: int)
    ensures Encode32(v) == Encode(ToInt32(v)) < 0x1_0000_0000
  {
    Encode32Is(ToInt32(v));
  }

  lemma {:induction false} EncodePositive(d: nat, x: int)
    requires ToUint32(x) == d
    ensures ToUint32(Xor(x, 0)) == d
  {
    XorIs(x, 0, d, 0);
    assert XorN(d, 0) == d;
  }

  lemma {:induction false} EncodeNegative(v: int, d: nat, x: int)
    requires -0x8000_0000 <= v < 0 && d == 0x1_0000_0000 + 2 * v && ToUint32(x) == d
    ensures ToUint32(Xor(x, -1)) == -2 * v - 1
  {
    XorIs(x, -1, d, 0x1_0000_0000 - 1);
    XorAllOnes(d);
  }

  lemma {:induction false} XorAllOnes(d: nat)
    requires d < 0x1_0000_0000
    ensures XorN(d, 0x1_0000_0000 - 1) == 0x1_0000_0000 - 1 - d
  {
    Two32();
    XorOnes(d, 32, 0x1_0000_0000);
  }

  /** `v & 1 ? (~v >> 1) | 0x80000000 : v >>> 1` */
  function Decode32(v: int): int {
    if And(v, 1) != 0 then Or(Sar(Not(v), 1), 0x8000_0000) else ShrU(v, 1)
  }

  lemma {:induction false} Decode32Is(v: nat)
    requires v < 0x1_0000_0000
    ensures Decode32(v) == Decode(v)
    ensures -0x8000_0000 <= Decode(v) < 0x8000_0000
  {
    Two1();
    assert And(v, 1) == v % 2 by {
      AndMask(v, 1, 2);
      AndIs(v, 1, v, 1);
    }
    if v % 2 == 1 {
      DecodeOdd(v, v / 2);
    } else {
      ShrUIs(v, 1, 2);
    }
  }

  lemma {:induction false} DecodeOdd(v: nat, w: nat)
    requires v < 0x1_0000_0000 && v == 2 * w + 1
    ensures Or(Sar(Not(v), 1), 0x8000_0000) == -(w + 1)
  {
    var x: int := if v < 0x8000_0000 then -(w + 1) else 0x8000_0000 - (w + 1);
    assert Sar(Not(v), 1) == x by {
      Two1();
      SarIs(Not(v), 1, 2);
    }
    OrTopBit(x);
  }

  lemma {:induction false} OrTopBit(x: int)
    requires -0x8000_0000 <= x < 0x8000_0000
    ensures Or(x, 0x8000_0000) == if x < 0 then x else x - 0x8000_0000
  {
    if x < 0 {
      var u: nat := x + 0x1_0000_0000;
      SetTopAgain(u);
      OrIs(x, 0x8000_0000, u, 0x8000_0000);
    } else {
      Two31();
      OrDisjoint(x, 1, 31, 0x8000_0000);
      OrSum(x, 0x8000_0000, x, 0x8000_0000);
      assert ToUint32(x - 0x8000_0000) == x + 0x8000_0000;
    }
  }

  lemma {:induction false} SetTopAgain(u: nat)
    requires 0x8000_0000 <= u < 0x1_0000_0000
    ensures OrN(u, 0x8000_0000) == u
  {
    Two31();
    OrDisjoint(u - 0x8000_0000, 1, 31, 0x8000_0000);
    OrTwice(u - 0x8000_0000, 0x8000_0000);
  }
}
