/**
 * JavaScript's 32-bit integer operators, on mathematical integers.
 * `AndN`, `OrN` and `XorN` work bit by bit on naturals; the operators proper first take
 * their operands modulo 2^32 and deliver a signed result, as the language does.
 */
module JsInt {
  import opened Numerals

  // ---- conversions

  function ToUint32(x: int): (r: int)
    ensures 0 <= r < 0x1_0000_0000
  {
    x % 0x1_0000_0000
  }

  function ToInt32(x: int): (r: int)
    ensures -0x8000_0000 <= r < 0x8000_0000
    ensures ToUint32(r) == ToUint32(x)
    ensures -0x8000_0000 <= x < 0x8000_0000 ==> r == x
  {
    var u := x % 0x1_0000_0000;
    if u < 0x8000_0000 then u else u - 0x1_0000_0000
  }

  // ---- bits of naturals

  /** A natural is twice its `Half` plus its lowest `Bit`. */
  function Half(x: nat): (h: nat)
    ensures x > 0 ==> h < x
  {
    x / 2
  }

  predicate Odd(x: nat) {
    x % 2 == 1
  }

  function AndN(x: nat, y: nat): (r: nat)
    ensures r <= x && r <= y
    decreases x
  {
    if x == 0 || y == 0 then 0
    else
      Parts(x); Parts(y);
      (if Odd(x) && Odd(y) then 1 else 0) + 2 * AndN(Half(x), Half(y))
  }

  function OrN(x: nat, y: nat): (r: nat)
    decreases x + y
  {
    if x == 0 then y else if y == 0 then x
    else (if Odd(x) || Odd(y) then 1 else 0) + 2 * OrN(Half(x), Half(y))
  }

  function XorN(x: nat, y: nat): (r: nat)
    decreases x + y
  {
    if x == 0 then y else if y == 0 then x
    else (if Odd(x) != Odd(y) then 1 else 0) + 2 * XorN(Half(x), Half(y))
  }

  /** Bit `k` of `x`. */
  function Bit(x: nat, k: nat): (r: nat)
    ensures r < 2
    decreases k
  {
    if k == 0 then (if Odd(x) then 1 else 0) else Bit(Half(x), k - 1)
  }

  lemma {:induction false} Parts(x: nat)
    ensures x == 2 * Half(x) + (if Odd(x) then 1 else 0)
  {
  }

  lemma {:induction false} PartsIs(x: nat, h: nat, odd: bool)
    requires x == 2 * h + (if odd then 1 else 0)
    ensures Half(x) == h && Odd(x) == odd
  {
  }

  // ---- the operators

  /** `x & y` */
  function And(x: int, y: int): int {
    ToInt32(AndN(ToUint32(x), ToUint32(y)))
  }

  /** `x | y` */
  function Or(x: int, y: int): int {
    ToInt32(OrN(ToUint32(x), ToUint32(y)))
  }

  /** `x ^ y` */
  function Xor(x: int, y: int): int {
    ToInt32(XorN(ToUint32(x), ToUint32(y)))
  }

  /** `~x` */
  function Not(x: int): int {
    -ToInt32(x) - 1
  }

  /** `x << k` */
  function Shl(x: int, k: nat): int {
    ToInt32(ToUint32(x) * Pow(2, k % 32))
  }

  /** `x >> k` */
  function Sar(x: int, k: nat): int {
    ToInt32(x) / Pow(2, k % 32)
  }

  /** `x >>> k` */
  function ShrU(x: int, k: nat): (r: int)
    ensures 0 <= r
  {
    ToUint32(x) / Pow(2, k % 32)
  }

  // ---- an operator whose operands are known as unsigned words

  lemma {:induction false} AndIs(x: int, y: int, u: nat, v: nat)
    requires ToUint32(x) == u && ToUint32(y) == v
    ensures And(x, y) == ToInt32(AndN(u, v))
  {
  }

  lemma {:induction false} OrIs(x: int, y: int, u: nat, v: nat)
    requires ToUint32(x) == u && ToUint32(y) == v
    ensures Or(x, y) == ToInt32(OrN(u, v))
  {
  }

  lemma {:induction false} XorIs(x: int, y: int, u: nat, v: nat)
    requires ToUint32(x) == u && ToUint32(y) == v
    ensures Xor(x, y) == ToInt32(XorN(u, v))
  {
  }

  /** A left shift of a small natural, as a product modulo 2^32. */
  lemma {:induction false} ShlIs(x: int, k: nat, p: nat)
    requires 0 <= x < 0x1_0000_0000 && k < 32 && p == Pow(2, k)
    ensures ToUint32(Shl(x, k)) == (x * p) % 0x1_0000_0000
  {
  }

  lemma {:induction false} ShrUIs(x: int, k: nat, p: nat)
    requires 0 <= x < 0x1_0000_0000 && k < 32 && p == Pow(2, k)
    ensures ShrU(x, k) == x / p
  {
  }

  lemma {:induction false} SarIs(x: int, k: nat, p: nat)
    requires -0x8000_0000 <= x < 0x8000_0000 && k < 32 && p == Pow(2, k)
    ensures Sar(x, k) == x / p
  {
  }

  // ---- masks, disjoint unions, complements

  lemma {:induction false} ModDouble(x: nat, p: nat)
    requires p > 0
    ensures x % (2 * p) == (if Odd(x) then 1 else 0) + 2 * (Half(x) % p)
  {
    var h := Half(x);
    var q, u := h / p, h % p;
    var low := if Odd(x) then 1 else 0;
    Parts(x);
    assert h == p * q + u;
    ModDoubleStep(x, h, low, p, q, u);
    DivModUnique(x, 2 * p, q, low + 2 * u);
  }

  lemma {:induction false} ModDoubleStep(x: nat, h: nat, low: nat, p: nat, q: nat, u: nat)
    requires x == 2 * h + low && h == p * q + u
    ensures x == (2 * p) * q + (low + 2 * u)
  {
    Associate(2, p, q);
  }

  // In the lemmas below `p` names the k-th power of two, so that callers can pass a literal.

  lemma {:induction false} AndMask(x: nat, k: nat, p: nat)
    requires p == Pow(2, k)
    ensures AndN(x, p - 1) == x % p
    decreases k
  {
    if k > 0 {
      var h := Pow(2, k - 1);
      AndMask(Half(x), k - 1, h);
      ModDouble(x, h);
      PartsIs(p - 1, h - 1, true);
    }
  }

  /** A single bit of `x`. */
  lemma {:induction false} AndPower(x: nat, k: nat, p: nat)
    requires p == Pow(2, k)
    ensures AndN(x, p) == if Bit(x, k) == 1 then p else 0
    decreases k
  {
    BitZero(k);
    if k > 0 {
      var h := Pow(2, k - 1);
      AndPower(Half(x), k - 1, h);
      PartsIs(p, h, false);
    } else {
      PartsIs(1, 0, true);
    }
  }

  lemma {:induction false} OrDisjoint(x: nat, y: nat, k: nat, p: nat)
    requires p == Pow(2, k) && x < p
    ensures OrN(x, y * p) == x + y * p
    ensures OrN(y * p, x) == x + y * p
    decreases k
  {
    if k > 0 {
      var h := Pow(2, k - 1);
      Associate(y, 2, h);
      Associate(2, y, h);
      Parts(x);
      PartsIs(y * p, y * h, false);
      OrDisjoint(Half(x), y, k - 1, h);
    } else {
      assert y * p == y;
    }
  }

  /** `x | y` of words whose bits do not meet: `x` below the k-th power of two, `y` a multiple of it. */
  lemma {:induction false} OrJoin(x: int, y: int, u: nat, h: nat, k: nat, p: nat)
    requires p == Pow(2, k) && ToUint32(x) == u < p && ToUint32(y) == h * p
    ensures ToUint32(Or(x, y)) == u + h * p
    ensures ToUint32(Or(y, x)) == u + h * p
  {
    var w := h * p;
    OrDisjoint(u, h, k, p);
    assert u + w < 0x1_0000_0000 by {
      JoinBelow(u, h, k, p);
    }
    OrSum(x, y, u, w);
    OrSum(y, x, w, u);
  }

  lemma {:induction false} OrSum(x: int, y: int, u: nat, v: nat)
    requires ToUint32(x) == u && ToUint32(y) == v && OrN(u, v) == u + v < 0x1_0000_0000
    ensures ToUint32(Or(x, y)) == u + v
  {
    OrIs(x, y, u, v);
  }

  /** Joining cannot carry out of a word. */
  lemma {:induction false} JoinBelow(u: nat, h: nat, k: nat, p: nat)
    requires p == Pow(2, k) && u < p && u < 0x1_0000_0000 && h * p < 0x1_0000_0000
    ensures u + h * p < 0x1_0000_0000
  {
    if k <= 32 {
      var q := Pow(2, 32 - k);
      Two32();
      PowAdd(2, k, 32 - k);
      assert h < q by {
        MulCancel(h, q, p);
      }
      MulMono(h + 1, q, p);
      Distribute(p, h, 1);
    } else {
      Two32();
      PowMono(2, 32, k);
      if h > 0 {
        MulMono(1, h, p);
      }
    }
  }

  lemma {:induction false} OrTwice(x: nat, y: nat)
    ensures OrN(OrN(x, y), y) == OrN(x, y)
    decreases x + y
  {
    if x == 0 {
      OrSame(y);
    } else if y > 0 {
      var z := OrN(x, y);
      OrTwice(Half(x), Half(y));
      PartsIs(z, OrN(Half(x), Half(y)), Odd(x) || Odd(y));
    }
  }

  lemma {:induction false} OrSame(y: nat)
    ensures OrN(y, y) == y
    decreases y
  {
    if y > 0 {
      OrSame(Half(y));
      Parts(y);
    }
  }

  lemma {:induction false} OrBelow(x: nat, y: nat, k: nat)
    requires x < Pow(2, k) && y < Pow(2, k)
    ensures OrN(x, y) < Pow(2, k)
    decreases k
  {
    if k > 0 && x > 0 && y > 0 {
      Parts(x);
      Parts(y);
      OrBelow(Half(x), Half(y), k - 1);
    }
  }

  lemma {:induction false} XorBelow(x: nat, y: nat, k: nat)
    requires x < Pow(2, k) && y < Pow(2, k)
    ensures XorN(x, y) < Pow(2, k)
    decreases k
  {
    if k > 0 && x > 0 && y > 0 {
      Parts(x);
      Parts(y);
      XorBelow(Half(x), Half(y), k - 1);
    }
  }

  /** Exclusive-or with all ones complements. */
  lemma {:induction false} XorOnes(x: nat, k: nat, p: nat)
    requires p == Pow(2, k) && x < p
    ensures XorN(x, p - 1) == p - 1 - x
    decreases k
  {
    if k > 0 {
      var h := Pow(2, k - 1);
      Parts(x);
      PartsIs(p - 1, h - 1, true);
      XorOnes(Half(x), k - 1, h);
    }
  }

  /** Exclusive-or undoes itself. */
  lemma {:induction false} XorTwice(x: nat, y: nat)
    ensures XorN(XorN(x, y), y) == x
    decreases x + y
  {
    if x == 0 {
      XorSame(y);
    } else if y > 0 {
      var z := XorN(x, y);
      XorTwice(Half(x), Half(y));
      Parts(x);
      PartsIs(z, XorN(Half(x), Half(y)), Odd(x) != Odd(y));
      Parts(y);
      if z == 0 {
        XorSame(Half(y));
      }
    }
  }

  lemma {:induction false} XorSame(y: nat)
    ensures XorN(y, y) == 0
    decreases y
  {
    if y > 0 {
      XorSame(Half(y));
    }
  }

  // ---- bits

  lemma {:induction false} BitOr(x: nat, y: nat, k: nat)
    ensures Bit(OrN(x, y), k) == if Bit(x, k) == 1 || Bit(y, k) == 1 then 1 else 0
    decreases k
  {
    if x == 0 || y == 0 {
      BitZero(k);
    } else {
      PartsIs(OrN(x, y), OrN(Half(x), Half(y)), Odd(x) || Odd(y));
      if k > 0 {
        BitOr(Half(x), Half(y), k - 1);
      }
    }
  }

  lemma {:induction false} BitZero(k: nat)
    ensures Bit(0, k) == 0
    decreases k
  {
    PartsIs(0, 0, false);
    if k > 0 {
      BitZero(k - 1);
    }
  }

  lemma {:induction false} BitShifted(b: nat, k: nat, j: nat, p: nat)
    requires b < 2 && p == Pow(2, k)
    ensures Bit(b * p, j) == if j == k then b else 0
    decreases k
  {
    if k == 0 {
      assert b * p == b;
      PartsIs(b, 0, b == 1);
      if j > 0 {
        BitZero(j - 1);
      }
    } else {
      var h := Pow(2, k - 1);
      Associate(b, 2, h);
      Associate(2, b, h);
      PartsIs(b * p, b * h, false);
      if j > 0 {
        BitShifted(b, k - 1, j - 1, h);
      }
    }
  }

  lemma {:induction false} BitByShift(x: nat, k: nat, p: nat)
    requires p == Pow(2, k)
    ensures Bit(x, k) == x / p % 2
    decreases k
  {
    Parts(x);
    if k > 0 {
      var h := Pow(2, k - 1);
      BitByShift(Half(x), k - 1, h);
      assert Half(x) == x / 2;
      DivDiv(x, 2, h);
    }
  }

  /** Numbers below 2^k are determined by their first k bits. */
  lemma {:induction false} BitsDetermine(x: nat, y: nat, k: nat)
    requires x < Pow(2, k) && y < Pow(2, k)
    requires forall j :: 0 <= j < k ==> Bit(x, j) == Bit(y, j)
    ensures x == y
    decreases k
  {
    if k > 0 {
      assert Bit(x, 0) == Bit(y, 0);
      forall j | 0 <= j < k - 1
        ensures Bit(Half(x), j) == Bit(Half(y), j)
      {
        assert Bit(x, j + 1) == Bit(y, j + 1);
      }
      Parts(x);
      Parts(y);
      BitsDetermine(Half(x), Half(y), k - 1);
    }
  }

  // ---- shifts as division

  lemma {:induction false} DivDiv(x: nat, a: nat, b: nat)
    requires a > 0 && b > 0
    ensures a * b > 0 && x / a / b == x / (a * b)
  {
    var q := x / a;
    var r := x % a;
    var t := q / b;
    var u := q % b;
    MulMono(1, a, b);
    assert x == a * q + r;
    assert q == b * t + u;
    Distribute(a, b * t, u);
    Associate(a, b, t);
    BelowProduct(u, b, r, a);
    DivModUnique(x, a * b, t, a * u + r);
  }

  lemma {:induction false} BelowProduct(u: nat, b: nat, r: nat, a: nat)
    requires u < b && r < a
    ensures a * u + r < a * b
  {
    MulMono(u, b - 1, a);
    Distribute(a, b - 1, 1);
  }

  // ---- the powers of two that occur as literals, one lemma each so that a proof sees only its own

  lemma {:induction false} Two1()
    ensures Pow(2, 1) == 0x2
  {
  }

  lemma {:induction false} Two2()
    ensures Pow(2, 2) == 0x4
  {
  }

  lemma {:induction false} Two3()
    ensures Pow(2, 3) == 0x8
  {
  }

  lemma {:induction false} Two4()
    ensures Pow(2, 4) == 0x10
  {
  }

  lemma {:induction false} Two5()
    ensures Pow(2, 5) == 0x20
  {
  }

  lemma {:induction false} Two6()
    ensures Pow(2, 6) == 0x40
  {
  }

  lemma {:induction false} Two7()
    ensures Pow(2, 7) == 0x80
  {
    Two4();
    Two3();
    PowAdd(2, 4, 3);
  }

  lemma {:induction false} Two8()
    ensures Pow(2, 8) == 0x100
  {
    Two4();
    PowAdd(2, 4, 4);
  }

  lemma {:induction false} Two10()
    ensures Pow(2, 10) == 0x400
  {
    Two8();
    Two2();
    PowAdd(2, 8, 2);
  }

  lemma {:induction false} Two12()
    ensures Pow(2, 12) == 0x1000
  {
    Two8();
    Two4();
    PowAdd(2, 8, 4);
  }

  lemma {:induction false} Two14()
    ensures Pow(2, 14) == 0x4000
  {
    Two7();
    PowAdd(2, 7, 7);
  }

  lemma {:induction false} Two16()
    ensures Pow(2, 16) == 0x10000
  {
    Two8();
    PowAdd(2, 8, 8);
  }

  lemma {:induction false} Two18()
    ensures Pow(2, 18) == 0x40000
  {
    Two16();
    Two2();
    PowAdd(2, 16, 2);
  }

  lemma {:induction false} Two21()
    ensures Pow(2, 21) == 0x200000
  {
    Two14();
    Two7();
    PowAdd(2, 14, 7);
  }

  lemma {:induction false} Two24()
    ensures Pow(2, 24) == 0x1000000
  {
    Two16();
    Two8();
    PowAdd(2, 16, 8);
  }

  lemma {:induction false} Two25()
    ensures Pow(2, 25) == 0x2000000
  {
    Two24();
    Two1();
    PowAdd(2, 24, 1);
  }

  lemma {:induction false} Two28()
    ensures Pow(2, 28) == 0x10000000
  {
    Two14();
    PowAdd(2, 14, 14);
  }

  lemma {:induction false} Two31()
    ensures Pow(2, 31) == 0x80000000
  {
    Two28();
    Two3();
    PowAdd(2, 28, 3);
  }

  lemma {:induction false} Two32()
    ensures Pow(2, 32) == 0x100000000
  {
    Two16();
    PowAdd(2, 16, 16);
  }
}
