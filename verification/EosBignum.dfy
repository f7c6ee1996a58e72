/**
 * Fixed-size little-endian integers and their decimal strings
 * (packages/coin-eos/src/numeric.ts). The loops work in place on byte arrays; each is
 * proved against the numeral functions, and the lemmas at the end state what the pair of
 * conversions promises.
 */
module EosBignum {
  import opened Wrappers
  import opened Numerals
  import opened Decimal

  datatype NumericError = InvalidNumber | OutOfRange

  // ---- meaning

  /** `n` modulo 256^size, little-endian. */
  function LittleEndian(n: nat, size: nat): (b: seq<byte>)
    ensures |b| == size
  {
    FixedDigits(n, 256, size)
  }

  /** The unsigned reading of a bignum. */
  function Unsigned(b: seq<byte>): (n: nat)
    ensures n < Pow(256, |b|)
  {
    ValueBound(b, 256);
    Value(b, 256)
  }

  predicate Negative(b: seq<byte>) {
    |b| > 0 && b[|b| - 1] >= 128
  }

  /** The value that two's-complement negation leaves. */
  function Opposite(b: seq<byte>): nat {
    if Unsigned(b) == 0 then 0 else Pow(256, |b|) - Unsigned(b)
  }

  /** The two's-complement reading of a bignum. */
  function Signed(b: seq<byte>): int {
    if Negative(b) then Unsigned(b) - Pow(256, |b|) else Unsigned(b)
  }

  /** What `decimalToBinary` delivers or throws, stated by value rather than by loop. */
  function ParseUnsigned(size: nat, s: string): Result<seq<byte>, NumericError> {
    var p := DigitPrefix(s);
    if DecValue(s[..p]) >= Pow(256, size) then Failure(OutOfRange)
    else if p < |s| then Failure(InvalidNumber)
    else Success(LittleEndian(DecValue(s[..p]), size))
  }

  /** The value range that `signedDecimalToBinary` accepts for a magnitude and a sign. */
  predicate InSignedRange(size: nat, minus: bool, m: nat) {
    if minus then 0 < m && 2 * m <= Pow(256, size)
    else 2 * m < Pow(256, size) || size == 0
  }

  /** What `signedDecimalToBinary` delivers or throws, stated by value. */
  function ParseSigned(size: nat, s: string): Result<seq<byte>, NumericError> {
    var u := ParseUnsigned(size, Magnitude(s));
    if u.Failure? then u
    else
      var m := DecValue(Magnitude(s)[..DigitPrefix(Magnitude(s))]);
      if !InSignedRange(size, HasMinus(s), m) then Failure(OutOfRange)
      else if HasMinus(s) then Success(LittleEndian(Pow(256, size) - m, size))
      else u
  }

  /** What `signedBinaryToDecimal` prints. */
  function PrintSigned(b: seq<byte>, minDigits: nat): (s: string)
    ensures |s| >= minDigits
  {
    if Negative(b) then "-" + NatString(Opposite(b), minDigits)
    else NatString(Unsigned(b), minDigits)
  }

  // ---- the sign bit

  lemma {:induction false} NegativeIff(b: seq<byte>)
    requires b != []
    ensures Negative(b) <==> 2 * Unsigned(b) >= Pow(256, |b|)
  {
    var k := |b| - 1;
    var low := b[..k];
    var p := Pow(256, k);
    assert b == low + [b[k]];
    ValueConcat(low, [b[k]], 256);
    ValueBound(low, 256);
    assert Value([b[k]], 256) == b[k] + 256 * Value([], 256) == b[k];
    if b[k] >= 128 {
      MulMono(128, b[k], p);
    } else {
      MulMono(b[k], 127, p);
    }
  }

  // ---- negation

  /** The loop of `negate`: complement each byte and add a carry. */
  function Complement(s: seq<byte>, c: nat): (r: Carried)
    ensures |r.digits| == |s| && IsDigits(r.digits, 256)
    decreases |s|
  {
    if s == [] then Carried([], c)
    else
      var x := 255 - s[0] + c;
      var rest := Complement(s[1..], x / 256);
      Carried([x % 256] + rest.digits, rest.carry)
  }

  lemma {:induction false} ComplementValue(s: seq<byte>, c: nat)
    ensures var r := Complement(s, c);
            Value(r.digits, 256) + Pow(256, |s|) * r.carry == Pow(256, |s|) - 1 - Unsigned(s) + c
    decreases |s|
  {
    if s != [] {
      var x := 255 - s[0] + c;
      var rest := Complement(s[1..], x / 256);
      var p := Pow(256, |s| - 1);
      ComplementValue(s[1..], x / 256);
      assert Complement(s, c).digits[1..] == rest.digits;
      Associate(256, p, rest.carry);
    }
  }

  /** Negation modulo 256^size. */
  lemma {:induction false} ComplementNegates(s: seq<byte>)
    ensures Complement(s, 1).digits == LittleEndian(Opposite(s), |s|)
  {
    var r := Complement(s, 1);
    var p := Pow(256, |s|);
    var t: nat := p - Unsigned(s);
    ComplementValue(s, 1);
    ValueBound(r.digits, 256);
    SmallCarry(p, r.carry, Value(r.digits, 256), t);
    FixedValue(r.digits, 256);
  }

  method Negate(a: array<byte>)
    modifies a
    ensures a[..] == Complement(old(a[..]), 1).digits
  {
    var carry: nat := 1;
    ghost var was, full := a[..], Complement(a[..], 1);
    assert was[0..] == was && full.digits[0..] == full.digits;
    for i := 0 to a.Length
      invariant forall k :: 0 <= k < i ==> a[k] == full.digits[k]
      invariant forall k :: i <= k < a.Length ==> a[k] == was[k]
      invariant Complement(was[i..], carry) == Carried(full.digits[i..], full.carry)
    {
      assert was[i..][1..] == was[i + 1..] && full.digits[i..][1..] == full.digits[i + 1..];
      var x: nat := 255 - (a[i] as int) + carry;
      assert full.digits[i..][0] == x % 256;
      a[i] := x % 256;
      carry := x / 256;
    }
  }

  // ---- decimal to binary

  /** The inner loop shared by the decimal and the base-58 parsers. */
  method MulAddInPlace(a: array<byte>, m: nat, c: nat) returns (carry: nat)
    modifies a
    ensures a[..] == MulAdd(old(a[..]), m, c, 256).digits
    ensures carry == MulAdd(old(a[..]), m, c, 256).carry
  {
    carry := c;
    ghost var was, full := a[..], MulAdd(a[..], m, c, 256);
    assert was[0..] == was && full.digits[0..] == full.digits;
    for j := 0 to a.Length
      invariant forall k :: 0 <= k < j ==> a[k] == full.digits[k]
      invariant forall k :: j <= k < a.Length ==> a[k] == was[k]
      invariant MulAdd(was[j..], m, carry, 256) == Carried(full.digits[j..], full.carry)
    {
      MulAddAt(was, j, m, carry, 256, full);
      var x: nat := a[j] * m + carry;
      a[j] := x % 256;
      carry := x / 256;
    }
  }

  /** One round of the inner loop: what it stores, and what it leaves to do. */
  lemma {:induction false} MulAddAt(s: seq<nat>, j: nat, m: nat, c: nat, b: nat, full: Carried)
    requires b >= 2 && j < |s| == |full.digits|
    requires MulAdd(s[j..], m, c, b) == Carried(full.digits[j..], full.carry)
    ensures var x := s[j] * m + c;
            && full.digits[j] == x % b
            && MulAdd(s[j + 1..], m, x / b, b) == Carried(full.digits[j + 1..], full.carry)
  {
    var x := s[j] * m + c;
    assert s[j..][1..] == s[j + 1..];
    DivisionIs(x, b);
    assert full.digits[j..] == [x % b] + MulAdd(s[j + 1..], m, x / b, b).digits;
    assert full.digits[j..][1..] == full.digits[j + 1..];
  }

  method DecimalToBinary(size: nat, s: string) returns (r: Result<array<byte>, NumericError>)
    ensures r.Success? ==> fresh(r.value)
    ensures ParseUnsigned(size, s) == if r.Success? then Success(r.value[..]) else Failure(r.error)
  {
    var result := new byte[size](_ => 0);
    FixedZero(size);
    assert result[..] == LittleEndian(0, size);
    for i := 0 to |s|
      invariant AllDigits(s[..i])
      invariant DecValue(s[..i]) < Pow(256, size)
      invariant result[..] == LittleEndian(DecValue(s[..i]), size)
    {
      if !IsDigit(s[i]) {
        DigitPrefixIs(s, i);
        return Failure(InvalidNumber);
      }
      ghost var v := DecValue(s[..i]);
      assert s[..i + 1] == s[..i] + [s[i]];
      DecValueAppend(s[..i], s[i]);
      MulAddFixed(v, size, 10, DigitOf(s[i]), 256, DecValue(s[..i + 1]));
      var carry := MulAddInPlace(result, 10, DigitOf(s[i]));
      if carry != 0 {
        PrefixReaches(s, i + 1);
        return Failure(OutOfRange);
      }
    }
    assert s[..|s|] == s;
    DigitPrefixIs(s, |s|);
    return Success(result);
  }

  lemma {:induction false} FixedZero(size: nat)
    ensures LittleEndian(0, size) == Repeat(0, size)
  {
    if size > 0 {
      FixedZero(size - 1);
    }
  }

  lemma {:induction false} PrefixReaches(s: string, i: nat)
    requires i <= |s| && AllDigits(s[..i])
    ensures i <= DigitPrefix(s) && DecValue(s[..i]) <= DecValue(s[..DigitPrefix(s)])
  {
    var p := DigitPrefix(s);
    assert forall k :: 0 <= k < i ==> s[k] == s[..i][k];
    assert s[..p][..i] == s[..i];
    assert s[..p][..p] == s[..p];
    DecValueMono(s[..p], i, p);
  }

  method SignedDecimalToBinary(size: nat, s: string) returns (r: Result<array<byte>, NumericError>)
    ensures r.Success? ==> fresh(r.value)
    ensures ParseSigned(size, s) == if r.Success? then Success(r.value[..]) else Failure(r.error)
  {
    var negative := s != [] && s[0] == '-';
    var body := s;
    if negative {
      body := s[1..];
    }
    r := DecimalToBinary(size, body);
    if r.Failure? {
      return;
    }
    var result := r.value;
    if negative {
      MinusCase(size, s, result[..]);
      Negate(result);
      if !(result.Length > 0 && result[result.Length - 1] >= 128) {
        return Failure(OutOfRange);
      }
    } else {
      PlusCase(size, s, result[..]);
      if result.Length > 0 && result[result.Length - 1] >= 128 {
        return Failure(OutOfRange);
      }
    }
  }

  /** The sign test on the bytes agrees with the range test on the value: after a minus sign. */
  lemma {:induction false} MinusCase(size: nat, s: string, u: seq<byte>)
    requires ParseUnsigned(size, Magnitude(s)) == Success(u) && HasMinus(s)
    ensures var d: seq<byte> := Complement(u, 1).digits;
            ParseSigned(size, s) == if Negative(d) then Success(d) else Failure(OutOfRange)
  {
    var body := Magnitude(s);
    var m := DecValue(body[..DigitPrefix(body)]);
    ValueFixedSmall(m, 256, size);
    assert Unsigned(u) == m;
    NegatedSign(u);
    if Negative(Complement(u, 1).digits) {
      ComplementNegates(u);
    }
  }

  /** And without one. */
  lemma {:induction false} PlusCase(size: nat, s: string, u: seq<byte>)
    requires ParseUnsigned(size, Magnitude(s)) == Success(u) && !HasMinus(s)
    ensures ParseSigned(size, s) == if Negative(u) then Failure(OutOfRange) else Success(u)
  {
    var body := Magnitude(s);
    var m := DecValue(body[..DigitPrefix(body)]);
    ValueFixedSmall(m, 256, size);
    assert Unsigned(u) == m;
    if u != [] {
      NegativeIff(u);
    }
  }

  lemma {:induction false} NegatedValue(u: seq<byte>)
    ensures Unsigned(Complement(u, 1).digits) == Opposite(u)
    ensures Negative(u) ==> Unsigned(u) > 0
  {
    if u != [] {
      NegativeIff(u);
    }
    ComplementNegates(u);
    ValueFixedSmall(Opposite(u), 256, |u|);
  }

  /** The negated bignum has its sign bit set exactly when the magnitude was in range. */
  lemma {:induction false} NegatedSign(u: seq<byte>)
    ensures Negative(Complement(u, 1).digits) <==> InSignedRange(|u|, true, Unsigned(u))
  {
    NegatedValue(u);
    if u != [] {
      NegativeIff(Complement(u, 1).digits);
    }
  }

  // ---- binary to decimal

  /** The inner loop of the printers, over a list of digits that grows between calls. */
  method MulAddDigits(s: seq<nat>, m: nat, c: nat, b: nat) returns (r: seq<nat>, carry: nat)
    requires b >= 2
    ensures r == MulAdd(s, m, c, b).digits && carry == MulAdd(s, m, c, b).carry
  {
    r, carry := s, c;
    ghost var full := MulAdd(s, m, c, b);
    assert s[0..] == s && full.digits[0..] == full.digits;
    for j := 0 to |s|
      invariant |r| == |s|
      invariant forall k :: 0 <= k < j ==> r[k] == full.digits[k]
      invariant forall k :: j <= k < |s| ==> r[k] == s[k]
      invariant MulAdd(s[j..], m, carry, b) == Carried(full.digits[j..], full.carry)
    {
      MulAddAt(s, j, m, carry, b, full);
      var x: nat := r[j] * m + carry;
      r := r[j := x % b];
      carry := x / b;
    }
  }

  /** `while (carry) { result.push(carry % b); carry = (carry / b) | 0; }` */
  method AppendCarry(s: seq<nat>, c: nat, b: nat) returns (r: seq<nat>)
    requires b >= 2
    ensures r == s + ToDigits(c, b)
  {
    r := s;
    var carry: nat := c;
    while carry != 0
      invariant r + ToDigits(carry, b) == s + ToDigits(c, b)
      decreases carry
    {
      DivisionIs(carry, b);
      AppendStep(r, carry % b, ToDigits(carry / b, b));
      r := r + [carry % b];
      carry := carry / b;
    }
    assert r + [] == r;
  }

  /** `binaryToDecimal`; the result is kept as digits rather than as their character codes. */
  method BinaryToDecimal(bignum: seq<byte>, minDigits: nat := 1) returns (s: string)
    ensures s == NatString(Unsigned(bignum), minDigits)
  {
    var result := Repeat(0, minDigits);
    assert bignum[|bignum|..] == [];
    var i := |bignum|;
    while i > 0
      invariant 0 <= i <= |bignum|
      invariant result == Pad(ToDigits(Unsigned(bignum[i..]), 10), minDigits)
    {
      i := i - 1;
      assert bignum[i..][1..] == bignum[i + 1..];
      MulAddGrow(Unsigned(bignum[i + 1..]), minDigits, 256, bignum[i], 10, Unsigned(bignum[i..]));
      var carry: nat;
      result, carry := MulAddDigits(result, 256, bignum[i], 10);
      result := AppendCarry(result, carry, 10);
    }
    assert bignum[0..] == bignum;
    PadValue(Unsigned(bignum), minDigits, 10);
    return Print(result);
  }

  method SignedBinaryToDecimal(bignum: seq<byte>, minDigits: nat := 1) returns (s: string)
    ensures s == PrintSigned(bignum, minDigits)
  {
    if |bignum| > 0 && bignum[|bignum| - 1] >= 128 {
      assert Negative(bignum);
      var x := new byte[|bignum|](i requires 0 <= i < |bignum| => bignum[i]);
      assert x[..] == bignum;
      Negate(x);
      NegatedValue(bignum);
      var digits := BinaryToDecimal(x[..], minDigits);
      return "-" + digits;
    }
    assert !Negative(bignum);
    s := BinaryToDecimal(bignum, minDigits);
  }

  // ---- what the conversions promise

  /**
   * The signed parser accepts exactly the digit strings in [-2^(8n-1), 2^(8n-1)) other
   * than a negative zero (or a bare minus sign), and delivers two's complement.
   */
  lemma {:induction false} ParseSignedExact(size: nat, s: string)
    requires size >= 1
    ensures ParseSigned(size, s).Success? <==>
            && AllDigits(Magnitude(s))
            && -(Pow(256, size) as int) <= 2 * SignedValue(s) < Pow(256, size)
            && (HasMinus(s) ==> SignedValue(s) != 0)
    ensures ParseSigned(size, s).Success? ==>
            && |ParseSigned(size, s).value| == size
            && Signed(ParseSigned(size, s).value) == SignedValue(s)
  {
    var body := Magnitude(s);
    var p := DigitPrefix(body);
    if AllDigits(body) {
      DigitPrefixIs(body, |body|);
      assert body[..|body|] == body;
    }
    if p == |body| {
      assert body[..p] == body;
      var m := DecValue(body);
      var b := ParseSigned(size, s);
      if b.Success? {
        ValueFixedSmall(if HasMinus(s) then Pow(256, size) - m else m, 256, size);
        NegativeIff(b.value);
      }
    }
  }

  /** Parsing what was printed restores every bignum, at any padding. */
  lemma {:induction false} PrintThenParse(b: seq<byte>, minDigits: nat)
    requires b != []
    ensures ParseSigned(|b|, PrintSigned(b, minDigits)) == Success(b)
  {
    NegativeIff(b);
    FixedValue(b, 256);
    if Negative(b) {
      PrintThenParseNegative(b, minDigits);
    } else {
      PrintedMagnitude(Unsigned(b), minDigits);
    }
  }

  lemma {:induction false} PrintThenParseNegative(b: seq<byte>, minDigits: nat)
    requires Negative(b)
    ensures ParseSigned(|b|, PrintSigned(b, minDigits)) == Success(b)
  {
    PrintedMinus(b, minDigits);
    assert 2 * Unsigned(b) >= Pow(256, |b|) by {
      NegativeIff(b);
    }
    ParseMinus(|b|, PrintSigned(b, minDigits), Opposite(b), Unsigned(b));
    FixedValue(b, 256);
  }

  lemma {:induction false} PrintedMinus(b: seq<byte>, minDigits: nat)
    requires Negative(b)
    ensures var s := PrintSigned(b, minDigits);
            && HasMinus(s) && DigitPrefix(Magnitude(s)) == |Magnitude(s)|
            && DecValue(Magnitude(s)[..DigitPrefix(Magnitude(s))]) == Opposite(b)
  {
    var digits := NatString(Opposite(b), minDigits);
    assert ("-" + digits)[1..] == digits;
    PrintedMagnitude(Opposite(b), minDigits);
  }

  lemma {:induction false} ParseMinus(size: nat, s: string, n: nat, v: nat)
    requires HasMinus(s) && DigitPrefix(Magnitude(s)) == |Magnitude(s)|
    requires DecValue(Magnitude(s)[..DigitPrefix(Magnitude(s))]) == n
    requires 0 < n && n + v == Pow(256, size) && 2 * n <= Pow(256, size) && v > 0
    ensures ParseSigned(size, s) == Success(LittleEndian(v, size))
  {
    assert LittleEndian(Pow(256, size) - n, size) == LittleEndian(v, size);
  }

  lemma {:induction false} PrintedMagnitude(n: nat, minDigits: nat)
    ensures var digits := NatString(n, minDigits);
            && !HasMinus(digits) && DigitPrefix(digits) == |digits|
            && DecValue(digits[..DigitPrefix(digits)]) == n
  {
    var digits := NatString(n, minDigits);
    DigitsHaveNoMinus(digits);
    NatStringValue(n, minDigits);
    AllDigitsPrefix(digits);
  }

  lemma {:induction false} DigitsHaveNoMinus(s: string)
    requires AllDigits(s)
    ensures !HasMinus(s)
  {
    if s != [] {
      assert IsDigit(s[0]);
    }
  }

  lemma {:induction false} AllDigitsPrefix(s: string)
    ensures AllDigits(s) <==> DigitPrefix(s) == |s|
    ensures s[..|s|] == s
  {
    if AllDigits(s) {
      DigitPrefixIs(s, |s|);
    }
    assert s[..|s|] == s;
  }

  /** Printing is the decimal of the signed reading. */
  lemma {:induction false} PrintSignedInt(b: seq<byte>)
    ensures PrintSigned(b, 1) == IntString(Signed(b))
  {
    if Negative(b) {
      NegativeIff(b);
      NegativeNumber(Opposite(b), Signed(b));
    }
  }

  lemma {:induction false} NegativeNumber(n: nat, v: int)
    requires n > 0 && v + n == 0
    ensures IntString(v) == "-" + NatString(n, 1)
  {
  }

  /** Printing what was parsed gives the canonical decimal of the number. */
  lemma {:induction false} ParseThenPrint(size: nat, s: string)
    requires size >= 1 && ParseSigned(size, s).Success?
    ensures PrintSigned(ParseSigned(size, s).value, 1) == IntString(Signed(ParseSigned(size, s).value))
    ensures AllDigits(Magnitude(s)) && Signed(ParseSigned(size, s).value) == SignedValue(s)
  {
    ParseSignedExact(size, s);
    PrintSignedInt(ParseSigned(size, s).value);
  }

  /** The unsigned pair: printing then parsing. */
  lemma {:induction false} PrintThenParseUnsigned(b: seq<byte>)
    ensures ParseUnsigned(|b|, NatString(Unsigned(b), 1)) == Success(b)
  {
    var n := Unsigned(b);
    assert LittleEndian(n, |b|) == b by {
      FixedValue(b, 256);
    }
    ParsePlain(|b|, NatString(n, 1), n) by {
      PrintedMagnitude(n, 1);
    }
  }

  lemma {:induction false} ParsePlain(size: nat, s: string, n: nat)
    requires DigitPrefix(s) == |s| && DecValue(s[..DigitPrefix(s)]) == n
    requires n < Pow(256, size)
    ensures ParseUnsigned(size, s) == Success(LittleEndian(n, size))
  {
  }

  /** The unsigned parser accepts exactly the digit strings below 256^size. */
  lemma {:induction false} ParseUnsignedExact(size: nat, s: string)
    ensures ParseUnsigned(size, s).Success? <==> AllDigits(s) && DecValue(s) < Pow(256, size)
    ensures ParseUnsigned(size, s).Success? ==> Unsigned(ParseUnsigned(size, s).value) == DecValue(s)
  {
    AllDigitsPrefix(s);
    if ParseUnsigned(size, s).Success? {
      ValueFixedSmall(DecValue(s), 256, size);
    }
  }
}
