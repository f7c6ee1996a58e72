/**
 * Little-endian numerals in an arbitrary base: digit 0 is the least significant.
 * Every byte, decimal, base-58 and base-128 codec of the project is stated through
 * `Value`, the canonical numeral `ToDigits` and the fixed-width numeral `FixedDigits`.
 */
module Numerals {
  import opened Wrappers

  function Pow(b: nat, n: nat): (r: nat)
    ensures b > 0 ==> r > 0
  {
    if n == 0 then 1 else b * Pow(b, n - 1)
  }

  /** The number that a little-endian numeral stands for. */
  function Value(s: seq<nat>, b: nat): nat
    decreases |s|
  {
    if s == [] then 0 else s[0] + b * Value(s[1..], b)
  }

  predicate IsDigits(s: seq<nat>, b: nat) {
    forall i :: 0 <= i < |s| ==> s[i] < b
  }

  /** No zero in the most significant place. */
  predicate Canonical(s: seq<nat>) {
    s != [] ==> s[|s| - 1] != 0
  }

  /** The canonical numeral of `n`; zero is the empty numeral. */
  function ToDigits(n: nat, b: nat): (s: seq<nat>)
    requires b >= 2
    ensures IsDigits(s, b)
    ensures n > 0 ==> s != []
    decreases n
  {
    if n == 0 then [] else [Rem(n, b)] + ToDigits(Quot(n, b), b)
  }

  /** The `k` low-order digits of `n`. */
  function FixedDigits(n: nat, b: nat, k: nat): (s: seq<nat>)
    requires b >= 2
    ensures |s| == k
    ensures IsDigits(s, b)
    decreases k
  {
    if k == 0 then [] else [Rem(n, b)] + FixedDigits(Quot(n, b), b, k - 1)
  }

  // ---- division

  /** Quotient by repeated subtraction. It equals `n / b` (see `DivisionIs`); this form keeps
      proofs over an arbitrary base away from non-linear division. */
  function Quot(n: nat, b: nat): (q: nat)
    requires b > 0
    ensures b >= 2 && n > 0 ==> q < n
    decreases n
  {
    if n < b then 0 else 1 + Quot(n - b, b)
  }

  function Rem(n: nat, b: nat): (r: nat)
    requires b > 0
    ensures r < b
    decreases n
  {
    if n < b then n else Rem(n - b, b)
  }

  lemma {:induction false} QuotRem(n: nat, b: nat)
    requires b > 0
    ensures n == b * Quot(n, b) + Rem(n, b)
    decreases n
  {
    if n < b {
      assert Quot(n, b) == 0;
    } else {
      QuotRem(n - b, b);
      Distribute(b, 1, Quot(n - b, b));
    }
  }

  lemma {:induction false} DivisionIs(n: nat, b: nat)
    requires b > 0
    ensures Quot(n, b) == n / b && Rem(n, b) == n % b
  {
    QuotRem(n, b);
    DivModUnique(n, b, Quot(n, b), Rem(n, b));
  }

  /** Quotient and remainder are determined by the division equation. */
  lemma {:induction false} QuotRemUnique(n: nat, b: nat, q: nat, r: nat)
    requires b > 0 && r < b && n == b * q + r
    ensures Quot(n, b) == q && Rem(n, b) == r
  {
    QuotRem(n, b);
    SameQuotient(b, q, r, Quot(n, b), Rem(n, b));
  }

  lemma {:induction false} SameQuotient(b: nat, q: nat, r: nat, q': nat, r': nat)
    requires r < b && r' < b && b * q + r == b * q' + r'
    ensures q == q' && r == r'
  {
    Distribute(b, q, 1);
    Distribute(b, q', 1);
    if q < q' {
      MulMono(q + 1, q', b);
    } else if q' < q {
      MulMono(q' + 1, q, b);
    }
  }

  lemma {:induction false} DivModUnique(n: nat, b: nat, q: nat, r: nat)
    requires b > 0 && r < b && n == b * q + r
    ensures n / b == q && n % b == r
  {
    SameQuotient(b, q, r, n / b, n % b);
  }

  lemma MulMono(x: nat, y: nat, k: nat)
    requires x <= y
    ensures x * k <= y * k && k * x <= k * y
  {
  }

  lemma Distribute(x: int, y: int, z: int)
    ensures x * (y + z) == x * y + x * z
  {
  }

  lemma Associate(x: int, y: int, z: int)
    ensures x * (y * z) == (x * y) * z
  {
  }

  lemma {:induction false} MulCancel(x: nat, y: nat, k: nat)
    requires k > 0 && x * k < y * k
    ensures x < y
  {
    if y <= x { MulMono(y, x, k); }
  }

  /** A carry out of a number that fits is zero; out of the modulus itself it is one. */
  lemma {:induction false} SmallCarry(p: nat, c: nat, v: nat, t: nat)
    requires v < p && v + p * c == t && t <= p
    ensures t < p ==> c == 0 && v == t
    ensures t == p ==> c == 1 && v == 0
  {
    if c >= 2 {
      MulMono(2, c, p);
    } else if c == 1 {
      assert p * c == p;
    }
  }

  // ---- powers

  lemma {:induction false} PowAdd(b: nat, m: nat, n: nat)
    ensures Pow(b, m + n) == Pow(b, m) * Pow(b, n)
  {
    if m == 0 {
    } else {
      calc {
        Pow(b, m + n);
        b * Pow(b, m - 1 + n);
        { PowAdd(b, m - 1, n); }
        b * (Pow(b, m - 1) * Pow(b, n));
        (b * Pow(b, m - 1)) * Pow(b, n);
      }
    }
  }

  lemma {:induction false} PowMono(b: nat, m: nat, n: nat)
    requires b > 0 && m <= n
    ensures Pow(b, m) <= Pow(b, n)
  {
    if m < n {
      PowMono(b, m, n - 1);
      MulMono(1, b, Pow(b, n - 1));
    }
  }

  // ---- values

  lemma {:induction false} ValueBound(s: seq<nat>, b: nat)
    requires IsDigits(s, b)
    ensures Value(s, b) < Pow(b, |s|)
  {
    if s != [] {
      var v, p := Value(s[1..], b), Pow(b, |s| - 1);
      ValueBound(s[1..], b);
      MulMono(v + 1, p, b);
      Distribute(b, v, 1);
    }
  }

  lemma {:induction false} ValueConcat(s: seq<nat>, t: seq<nat>, b: nat)
    ensures Value(s + t, b) == Value(s, b) + Pow(b, |s|) * Value(t, b)
    decreases |s|
  {
    if s == [] {
      assert s + t == t;
    } else {
      var p := Pow(b, |s| - 1);
      calc {
        Value(s + t, b);
        { assert (s + t)[1..] == s[1..] + t; }
        s[0] + b * Value(s[1..] + t, b);
        { ValueConcat(s[1..], t, b); }
        s[0] + b * (Value(s[1..], b) + p * Value(t, b));
        { Distribute(b, Value(s[1..], b), p * Value(t, b)); }
        s[0] + b * Value(s[1..], b) + b * (p * Value(t, b));
        { Associate(b, p, Value(t, b)); }
        Value(s, b) + Pow(b, |s|) * Value(t, b);
      }
    }
  }

  lemma ValueZeros(s: seq<nat>, b: nat)
    requires forall i :: 0 <= i < |s| ==> s[i] == 0
    ensures Value(s, b) == 0
  {
  }

  /** Padding with zeros on the significant side leaves the value alone. */
  lemma {:induction false} ValuePad(s: seq<nat>, n: nat, b: nat)
    ensures Value(s + Repeat(0, n), b) == Value(s, b)
  {
    ValueConcat(s, Repeat(0, n), b);
    ValueZeros(Repeat(0, n), b);
  }

  /** A numeral is the fixed-width numeral of its value. */
  lemma {:induction false} FixedValue(s: seq<nat>, b: nat)
    requires b >= 2 && IsDigits(s, b)
    ensures FixedDigits(Value(s, b), b, |s|) == s
    decreases |s|
  {
    if s != [] {
      QuotRemUnique(Value(s, b), b, Value(s[1..], b), s[0]);
      FixedValue(s[1..], b);
      assert s == [s[0]] + s[1..];
    }
  }

  /** The value of a fixed-width numeral, and what it drops. */
  lemma {:induction false} ValueFixed(n: nat, b: nat, k: nat)
    requires b >= 2
    ensures Value(FixedDigits(n, b, k), b) == Rem(n, Pow(b, k))
    ensures Pow(b, k) * Quot(n, Pow(b, k)) + Value(FixedDigits(n, b, k), b) == n
    decreases k
  {
    var s := FixedDigits(n, b, k);
    ValueBound(s, b);
    if k > 0 {
      var h, p := Quot(n, b), Pow(b, k - 1);
      var s' := FixedDigits(h, b, k - 1);
      ValueFixed(h, b, k - 1);
      assert s[1..] == s';
      QuotRem(n, b);
      ValueFixedStep(n, b, h, Rem(n, b), Value(s', b), p, Quot(h, p));
      QuotRemUnique(n, Pow(b, k), Quot(h, p), Value(s, b));
    } else {
      QuotRemUnique(n, 1, n, 0);
    }
  }

  lemma {:induction false} ValueFixedStep(n: nat, b: nat, h: nat, d: nat, v: nat, p: nat, q: nat)
    requires n == b * h + d && h == p * q + v
    ensures n == (b * p) * q + (d + b * v)
  {
    Distribute(b, v, p * q);
    Associate(b, p, q);
  }

  lemma {:induction false} ValueFixedSmall(n: nat, b: nat, k: nat)
    requires b >= 2 && n < Pow(b, k)
    ensures Value(FixedDigits(n, b, k), b) == n
  {
    ValueFixed(n, b, k);
  }

  lemma {:induction false} ValueToDigits(n: nat, b: nat)
    requires b >= 2
    ensures Value(ToDigits(n, b), b) == n
    ensures Canonical(ToDigits(n, b))
    decreases n
  {
    if n > 0 {
      var t := ToDigits(Quot(n, b), b);
      ValueToDigits(Quot(n, b), b);
      QuotRem(n, b);
      assert ToDigits(n, b) == [Rem(n, b)] + t;
      assert ToDigits(n, b)[1..] == t;
      if t == [] {
        assert Quot(n, b) == 0;
      } else {
        assert ToDigits(n, b)[|t|] == t[|t| - 1];
      }
    }
  }

  /** Two numerals of one width with one value are equal. */
  lemma {:induction false} FixedUnique(s: seq<nat>, t: seq<nat>, b: nat)
    requires b >= 2 && IsDigits(s, b) && IsDigits(t, b)
    requires |s| == |t| && Value(s, b) == Value(t, b)
    ensures s == t
  {
    FixedValue(s, b);
    FixedValue(t, b);
  }

  /** The top digit is not zero exactly when the value needs every place. */
  lemma {:induction false} CanonicalByValue(s: seq<nat>, b: nat)
    requires b >= 2 && IsDigits(s, b) && s != []
    ensures s[|s| - 1] != 0 <==> Value(s, b) >= Pow(b, |s| - 1)
  {
    var k := |s| - 1;
    var low := s[..k];
    assert s == low + [s[k]];
    ValueConcat(low, [s[k]], b);
    ValueBound(low, b);
    assert Value([s[k]], b) == s[k] + b * Value([], b) == s[k];
    var p := Pow(b, k);
    if s[k] == 0 {
      assert p * s[k] == 0;
    } else {
      assert p * s[k] >= p by { MulMono(1, s[k], p); }
    }
  }

  /** A canonical numeral is the canonical numeral of its value. */
  lemma {:induction false} CanonicalUnique(s: seq<nat>, b: nat)
    requires b >= 2 && IsDigits(s, b) && Canonical(s)
    ensures ToDigits(Value(s, b), b) == s
  {
    var n := Value(s, b);
    var t := ToDigits(n, b);
    ValueToDigits(n, b);
    CanonicalLength(s, t, b);
    CanonicalLength(t, s, b);
    FixedUnique(s, t, b);
  }

  lemma {:induction false} CanonicalLength(s: seq<nat>, t: seq<nat>, b: nat)
    requires b >= 2 && IsDigits(s, b) && IsDigits(t, b) && Canonical(s)
    requires Value(s, b) <= Value(t, b)
    ensures |s| <= |t|
  {
    if |t| < |s| {
      CanonicalByValue(s, b);
      ValueBound(t, b);
      PowMono(b, |t|, |s| - 1);
    }
  }

  /** The canonical numeral of a number that fits in `k` places has at most `k` digits. */
  lemma {:induction false} ToDigitsLength(n: nat, b: nat, k: nat)
    requires b >= 2
    ensures |ToDigits(n, b)| <= k <==> n < Pow(b, k)
  {
    var t := ToDigits(n, b);
    ValueToDigits(n, b);
    ValueBound(t, b);
    if |t| <= k {
      PowMono(b, |t|, k);
    } else {
      CanonicalByValue(t, b);
      PowMono(b, k, |t| - 1);
    }
  }

  // ---- multiply a numeral by m and add c, digit by digit

  /** The digits left behind, and the carry out of the last place. */
  datatype Carried = Carried(digits: seq<nat>, carry: nat)

  /** The effect of the source's loop `x = r[j] * m + carry; r[j] = x mod b; carry = x div b`. */
  function MulAdd(s: seq<nat>, m: nat, c: nat, b: nat): (r: Carried)
    requires b >= 2
    ensures |r.digits| == |s|
    ensures IsDigits(r.digits, b)
    decreases |s|
  {
    if s == [] then Carried([], c)
    else
      var x := s[0] * m + c;
      var rest := MulAdd(s[1..], m, Quot(x, b), b);
      Carried([Rem(x, b)] + rest.digits, rest.carry)
  }

  lemma {:induction false} MulAddValue(s: seq<nat>, m: nat, c: nat, b: nat)
    requires b >= 2
    ensures var r := MulAdd(s, m, c, b);
            Value(r.digits, b) + Pow(b, |s|) * r.carry == Value(s, b) * m + c
    decreases |s|
  {
    if s != [] {
      var x := s[0] * m + c;
      var q, d := Quot(x, b), Rem(x, b);
      var rest := MulAdd(s[1..], m, q, b);
      MulAddValue(s[1..], m, q, b);
      assert MulAdd(s, m, c, b).digits[1..] == rest.digits;
      QuotRem(x, b);
      MulAddStep(s[0], m, c, b, Value(s[1..], b), Pow(b, |s| - 1), q, d, Value(rest.digits, b), rest.carry);
    }
  }

  /** One place of `MulAddValue`: `d` is the place, `v` the value above it, `u` and `k` what is left above. */
  lemma {:induction false} MulAddStep(d: nat, m: nat, c: nat, b: nat, v: nat, p: nat, q: nat, r: nat, u: nat, k: nat)
    requires d * m + c == b * q + r
    requires u + p * k == v * m + q
    ensures r + b * u + (b * p) * k == (d + b * v) * m + c
  {
    calc {
      r + b * u + (b * p) * k;
      { Associate(b, p, k); Distribute(b, u, p * k); }
      r + b * (u + p * k);
      r + b * (v * m + q);
      { Distribute(b, v * m, q); Associate(b, v, m); }
      d * m + c + (b * v) * m;
      { Distribute(m, d, b * v); }
      (d + b * v) * m + c;
    }
  }

  /** The carry out of any place stays below the multiplier, or below the first carry if that is larger. */
  lemma {:induction false} MulAddCarry(s: seq<nat>, m: nat, c: nat, b: nat, bound: nat)
    requires b >= 2 && IsDigits(s, b) && m <= bound && c < bound
    ensures MulAdd(s, m, c, b).carry < bound
    decreases |s|
  {
    if s != [] {
      CarryStep(s[0], m, c, b, bound);
      MulAddCarry(s[1..], m, Quot(s[0] * m + c, b), b, bound);
    }
  }

  lemma {:induction false} CarryStep(d: nat, m: nat, c: nat, b: nat, bound: nat)
    requires 2 <= b && d < b && m <= bound && c < bound
    ensures Quot(d * m + c, b) < bound
  {
    var q := Quot(d * m + c, b);
    QuotRem(d * m + c, b);
    MulMono(d, b - 1, m);
    MulMono(m, bound, b - 1);
    Distribute(bound, b - 1, 1);
    if q >= bound {
      MulMono(bound, q, b);
    }
  }

  /** On a fixed width: the low digits of n = v*m + c, and whether they are all of it. */
  lemma {:induction false} MulAddFixed(v: nat, k: nat, m: nat, c: nat, b: nat, n: nat)
    requires b >= 2 && v < Pow(b, k) && n == v * m + c
    ensures var r := MulAdd(FixedDigits(v, b, k), m, c, b);
            && (r.carry == 0 <==> n < Pow(b, k))
            && (r.carry == 0 ==> r.digits == FixedDigits(n, b, k))
  {
    var s := FixedDigits(v, b, k);
    var r := MulAdd(s, m, c, b);
    ValueFixedSmall(v, b, k);
    MulAddValue(s, m, c, b);
    ValueBound(r.digits, b);
    if r.carry == 0 {
      assert Pow(b, k) * r.carry == 0;
      FixedValue(r.digits, b);
    } else {
      MulMono(1, r.carry, Pow(b, k));
    }
  }

  /** `s` padded with zeros on the significant side up to `n` digits. */
  function Pad(s: seq<nat>, n: nat): (r: seq<nat>) {
    if |s| < n then s + Repeat(0, n - |s|) else s
  }

  /** On a growing width: multiply and add, then append the carry's digits. */
  lemma {:induction false} MulAddGrow(v: nat, pad: nat, m: nat, c: nat, b: nat, n: nat)
    requires b >= 2 && m >= 1 && n == v * m + c
    ensures var r := MulAdd(Pad(ToDigits(v, b), pad), m, c, b);
            r.digits + ToDigits(r.carry, b) == Pad(ToDigits(n, b), pad)
  {
    var s := Pad(ToDigits(v, b), pad);
    var r := MulAdd(s, m, c, b);
    var out := r.digits + ToDigits(r.carry, b);
    assert Value(out, b) == n by {
      PadValue(v, pad, b);
      MulAddValue(s, m, c, b);
      ValueConcat(r.digits, ToDigits(r.carry, b), b);
      ValueToDigits(r.carry, b);
    }
    ValueToDigits(r.carry, b);
    if |out| > pad && r.carry == 0 {
      assert out == r.digits && |s| > pad;
      PadValue(v, pad, b);
      ValueToDigits(v, b);
      CanonicalByValue(s, b);
      MulMono(1, m, v);
      CanonicalByValue(out, b);
    }
    PadUnique(out, pad, b);
  }

  /** A numeral without zeros beyond the padding is the padded numeral of its value. */
  lemma {:induction false} PadUnique(s: seq<nat>, pad: nat, b: nat)
    requires b >= 2 && IsDigits(s, b) && |s| >= pad && (|s| > pad ==> Canonical(s))
    ensures s == Pad(ToDigits(Value(s, b), b), pad)
  {
    var n := Value(s, b);
    if |s| > pad {
      CanonicalUnique(s, b);
    } else {
      ValueBound(s, b);
      ToDigitsLength(n, b, pad);
      PadValue(n, pad, b);
      FixedUnique(s, Pad(ToDigits(n, b), pad), b);
    }
  }

  lemma {:induction false} PadValue(v: nat, pad: nat, b: nat)
    requires b >= 2
    ensures Value(Pad(ToDigits(v, b), pad), b) == v
    ensures IsDigits(Pad(ToDigits(v, b), pad), b)
  {
    ValueToDigits(v, b);
    if |ToDigits(v, b)| < pad {
      ValuePad(ToDigits(v, b), pad - |ToDigits(v, b)|, b);
    }
  }

  // ---- Euclidean division of integers

  lemma {:induction false} FloorUnique(n: int, p: nat, q: int, r: nat)
    requires p > 0 && r < p && n == p * q + r
    ensures n % p == r && n / p == q
  {
    var q', r' := n / p, n % p;
    assert n == p * q' + r';
    Distribute(p, q, 1);
    Distribute(p, q', 1);
    if q' > q {
      MulMonoInt(q + 1, q', p);
    } else if q' < q {
      MulMonoInt(q' + 1, q, p);
    }
  }

  lemma MulMonoInt(x: int, y: int, k: nat)
    requires x <= y
    ensures k * x <= k * y
  {
  }
}
