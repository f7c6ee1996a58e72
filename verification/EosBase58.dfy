/**
 * Base-58 byte strings and the checksummed keys built on them
 * (packages/coin-eos/src/numeric.ts). Byte strings are big-endian, and each leading zero
 * byte is one leading '1'.
 */
module EosBase58 {
  import opened Wrappers
  import opened Numerals
  import opened EosBignum

  datatype Base58Error = InvalidBase58 | Base58OutOfRange | TooShort | BadChecksum | UnknownFormat

  /** `base58Map[code]`: a digit, -1 for the other codes below 256, and nothing beyond. */
  datatype Lookup = Digit(d: nat) | NotInAlphabet | Undefined

  // ---- the alphabet: 1-9 A-H J-N P-Z a-k m-z

  function Char58(d: nat): (c: char)
    requires d < 58
  {
    (if d < 9 then d + '1' as int
     else if d < 17 then d - 9 + 'A' as int
     else if d < 22 then d - 17 + 'J' as int
     else if d < 33 then d - 22 + 'P' as int
     else if d < 44 then d - 33 + 'a' as int
     else d - 44 + 'm' as int) as char
  }

  function Lookup58(c: char): (r: Lookup)
    ensures r.Digit? ==> r.d < 58 && Char58(r.d) == c
    ensures r.Digit? && r.d == 0 <==> c == '1'
  {
    var x := c as int;
    if '1' <= c <= '9' then Digit(x - '1' as int)
    else if 'A' <= c <= 'H' then Digit(x - 'A' as int + 9)
    else if 'J' <= c <= 'N' then Digit(x - 'J' as int + 17)
    else if 'P' <= c <= 'Z' then Digit(x - 'P' as int + 22)
    else if 'a' <= c <= 'k' then Digit(x - 'a' as int + 33)
    else if 'm' <= c <= 'z' then Digit(x - 'm' as int + 44)
    else if x < 256 then NotInAlphabet
    else Undefined
  }

  /** The digits are the ASCII digits and letters without 0, O, I and l, in the order of their codes. */
  lemma Alphabet58(d: nat, e: nat, c: char)
    requires d < e < 58
    ensures Char58(d) < Char58(e)
    ensures Lookup58(c).Digit?
            <==> ('0' <= c <= '9' || 'A' <= c <= 'Z' || 'a' <= c <= 'z') && c != '0' && c != 'O' && c != 'I' && c != 'l'
    ensures Lookup58(c).Digit? ==> Char58(Lookup58(c).d) == c
  {
  }

  lemma LookupChar(d: nat)
    requires d < 58
    ensures Lookup58(Char58(d)) == Digit(d)
  {
  }

  predicate IsBase58(s: string) {
    forall i :: 0 <= i < |s| ==> Lookup58(s[i]).Digit?
  }

  // ---- one character of the decoders

  /** Multiply by 58 and add the digit. An undefined digit makes the first product NaN, which is
      stored as zero with no carry. */
  function DigitStep(r: seq<nat>, d: Lookup): (k: Carried)
    requires !d.NotInAlphabet?
    ensures |k.digits| == |r| && IsDigits(k.digits, 256)
  {
    if d.Digit? then MulAdd(r, 58, d.d, 256)
    else if r == [] then Carried([], 0)
    else
      var t := MulAdd(r[1..], 58, 0, 256);
      Carried([0] + t.digits, t.carry)
  }

  /** The loop of `base58ToBinary` from little-endian state `r`. */
  function FoldFixed(r: seq<nat>, s: string): (res: Result<seq<nat>, Base58Error>)
    ensures res.Success? && s != [] ==> IsDigits(res.value, 256)
    ensures res.Success? ==> |res.value| == |r|
    decreases |s|
  {
    if s == [] then Success(r)
    else if Lookup58(s[0]).NotInAlphabet? then Failure(InvalidBase58)
    else
      var k := DigitStep(r, Lookup58(s[0]));
      if k.carry != 0 then Failure(Base58OutOfRange) else FoldFixed(k.digits, s[1..])
  }

  /** The loop of `base58ToBinaryVarSize`. */
  function FoldVar(r: seq<nat>, s: string): (res: Result<seq<nat>, Base58Error>)
    decreases |s|
  {
    if s == [] then Success(r)
    else if Lookup58(s[0]).NotInAlphabet? then Failure(InvalidBase58)
    else
      var k := DigitStep(r, Lookup58(s[0]));
      FoldVar(if k.carry != 0 then k.digits + [k.carry] else k.digits, s[1..])
  }

  /** How often `x` leads `s`. */
  function Leading<T(==)>(s: seq<T>, x: T): (n: nat)
    ensures n <= |s|
    ensures forall i :: 0 <= i < n ==> s[i] == x
    ensures n < |s| ==> s[n] != x
    decreases |s|
  {
    if s != [] && s[0] == x then 1 + Leading(s[1..], x) else 0
  }

  // ---- meaning

  /** The number that a byte string denotes, most significant byte first. */
  function BigEndian(b: seq<byte>): nat {
    Value(Reverse(b), 256)
  }

  /** Reading base-58 characters from the left, starting at `v`. */
  function Acc58(v: nat, s: string): nat
    requires IsBase58(s)
    decreases |s|
  {
    if s == [] then v else Acc58(v * 58 + Lookup58(s[0]).d, s[1..])
  }

  /** Characters of a base-58 numeral, most significant first. */
  function Print58(ds: seq<nat>): (s: string)
    requires IsDigits(ds, 58)
    ensures |s| == |ds| && IsBase58(s)
  {
    var s := seq(|ds|, i requires 0 <= i < |ds| => Char58(ds[|ds| - 1 - i]));
    assert forall i :: 0 <= i < |s| ==> Lookup58(s[i]).Digit? by {
      forall i | 0 <= i < |s| ensures Lookup58(s[i]).Digit? { LookupChar(ds[|ds| - 1 - i]); }
    }
    s
  }

  /** What `binaryToBase58` returns. */
  function Encode58(b: seq<byte>): string {
    Repeat('1', Leading(b, 0)) + Print58(ToDigits(BigEndian(b), 58))
  }

  /** What `base58ToBinary` returns for a nonzero size, or throws. */
  function DecodeFixed(size: nat, s: string): Result<seq<byte>, Base58Error>
    requires size > 0
  {
    var r := FoldFixed(Repeat(0, size), s);
    if r.Failure? then Failure(r.error) else Success(Reverse(Bytes(r.value)))
  }

  /** What `base58ToBinary` returns for size zero, or throws. */
  function DecodeVar(s: string): Result<seq<byte>, Base58Error> {
    var r := FoldVar([], s);
    if r.Failure? then Failure(r.error)
    else Success(Reverse(Bytes(r.value) + Repeat(0, Leading(s, '1'))))
  }

  /** Storing into a byte array. */
  function Bytes(s: seq<nat>): (b: seq<byte>)
    ensures |b| == |s|
    ensures IsDigits(s, 256) ==> b == s
  {
    seq(|s|, i requires 0 <= i < |s| => s[i] % 256)
  }

  // ---- the loops

  /** `for (j) { x = result[j] * 58 + carry; ... }` with a carry that may be undefined. */
  method DigitStepDigits(r: seq<nat>, d: Lookup) returns (out: seq<nat>, carry: nat)
    requires !d.NotInAlphabet?
    ensures out == DigitStep(r, d).digits && carry == DigitStep(r, d).carry
  {
    if d.Digit? {
      out, carry := MulAddDigits(r, 58, d.d, 256);
    } else if r == [] {
      out, carry := [], 0;
    } else {
      out, carry := MulAddDigits(r[1..], 58, 0, 256);
      out := [0] + out;
    }
  }

  method Base58ToBinary(size: nat, s: string) returns (res: Result<seq<byte>, Base58Error>)
    ensures res == if size == 0 then DecodeVar(s) else DecodeFixed(size, s)
  {
    if size == 0 {
      res := Base58ToBinaryVarSize(s);
      return;
    }
    var result := Repeat(0, size);
    assert s[0..] == s;
    for i := 0 to |s|
      invariant |result| == size
      invariant FoldFixed(result, s[i..]) == FoldFixed(Repeat(0, size), s)
    {
      assert s[i..][1..] == s[i + 1..];
      var d := Lookup58(s[i]);
      if d.NotInAlphabet? {
        return Failure(InvalidBase58);
      }
      var carry: nat;
      result, carry := DigitStepDigits(result, d);
      if carry != 0 {
        return Failure(Base58OutOfRange);
      }
    }
    return Success(Reverse(Bytes(result)));
  }

  method Base58ToBinaryVarSize(s: string) returns (res: Result<seq<byte>, Base58Error>)
    ensures res == DecodeVar(s)
  {
    var result: seq<nat> := [];
    assert s[0..] == s;
    for i := 0 to |s|
      invariant FoldVar(result, s[i..]) == FoldVar([], s)
    {
      assert s[i..][1..] == s[i + 1..];
      var d := Lookup58(s[i]);
      if d.NotInAlphabet? {
        return Failure(InvalidBase58);
      }
      var carry: nat;
      result, carry := DigitStepDigits(result, d);
      if carry != 0 {
        result := result + [carry];
      }
    }
    assert s[|s|..] == [];
    var zeros: seq<byte> := [];
    var i := 0;
    while i < |s| && s[i] == '1'
      invariant 0 <= i <= |s|
      invariant zeros == Repeat(0, i) && i + Leading(s[i..], '1') == Leading(s, '1')
    {
      assert s[i..][1..] == s[i + 1..];
      zeros := zeros + [0];
      i := i + 1;
    }
    assert i < |s| ==> s[i..][0] == s[i];
    assert i == Leading(s, '1') && zeros == Repeat<byte>(0, i);
    return Success(Reverse(Bytes(result) + zeros));
  }

  /** `binaryToBase58`; the digits are kept as numbers until the end. */
  method BinaryToBase58(bignum: seq<byte>) returns (s: string)
    ensures s == Encode58(bignum)
  {
    hide Print58, BigEndian, ToDigits;
    var result: seq<nat> := [];
    assert bignum[..0] == [];
    NoDigits();
    for n := 0 to |bignum|
      invariant result == ToDigits(BigEndian(bignum[..n]), 58)
    {
      BigEndianAppend(bignum[..n], bignum[n]);
      assert bignum[..n + 1] == bignum[..n] + [bignum[n]];
      MulAddGrow(BigEndian(bignum[..n]), 0, 256, bignum[n], 58, BigEndian(bignum[..n + 1]));
      var carry: nat;
      result, carry := MulAddDigits(result, 256, bignum[n], 58);
      result := AppendCarry(result, carry, 58);
    }
    assert bignum[..|bignum|] == bignum;
    var ones: string := [];
    var i := 0;
    while i < |bignum| && bignum[i] == 0
      invariant 0 <= i <= |bignum|
      invariant ones == Repeat('1', i) && i + Leading(bignum[i..], 0) == Leading(bignum, 0)
    {
      assert bignum[i..][1..] == bignum[i + 1..];
      ones := ones + ['1'];
      i := i + 1;
    }
    assert i < |bignum| ==> bignum[i..][0] == bignum[i];
    return ones + Print58(result);
  }

  lemma NoDigits()
    ensures ToDigits(BigEndian([]), 58) == []
  {
  }

  lemma {:induction false} BigEndianAppend(b: seq<byte>, x: byte)
    ensures BigEndian(b + [x]) == BigEndian(b) * 256 + x
  {
    ReverseConcat(b, [x]);
    assert Reverse([x]) == [x];
    assert Reverse(b + [x]) == [x] + Reverse(b);
  }

  // ---- what the decoders compute on base-58 strings

  lemma {:induction false} AccMono(v: nat, s: string)
    requires IsBase58(s)
    ensures Acc58(v, s) >= v
    decreases |s|
  {
    if s != [] {
      AccMono(v * 58 + Lookup58(s[0]).d, s[1..]);
    }
  }

  /** A fixed size accepts exactly the values that fit, and stores them in full width. */
  lemma {:induction false} FoldFixedValue(v: nat, size: nat, s: string)
    requires IsBase58(s) && v < Pow(256, size)
    ensures FoldFixed(LittleEndian(v, size), s) ==
            if Acc58(v, s) < Pow(256, size) then Success(LittleEndian(Acc58(v, s), size))
            else Failure(Base58OutOfRange)
    decreases |s|
  {
    if s != [] {
      var d := Lookup58(s[0]).d;
      MulAddFixed(v, size, 58, d, 256, v * 58 + d);
      if v * 58 + d < Pow(256, size) {
        FoldFixedValue(v * 58 + d, size, s[1..]);
      } else {
        AccMono(v * 58 + d, s[1..]);
      }
    }
  }

  lemma {:induction false} FoldVarValue(v: nat, s: string)
    requires IsBase58(s)
    ensures FoldVar(ToDigits(v, 256), s) == Success(ToDigits(Acc58(v, s), 256))
    decreases |s|
  {
    if s != [] {
      var d := Lookup58(s[0]).d;
      var k := MulAdd(ToDigits(v, 256), 58, d, 256);
      MulAddGrow(v, 0, 58, d, 256, v * 58 + d);
      MulAddCarry(ToDigits(v, 256), 58, d, 256, 58);
      assert ToDigits(k.carry, 256) == if k.carry == 0 then [] else [k.carry];
      assert k.digits + [] == k.digits;
      FoldVarValue(v * 58 + d, s[1..]);
    }
  }

  // ---- leading characters

  /** Leading ones add nothing. */
  lemma {:induction false} AccOnes(n: nat, s: string)
    requires IsBase58(s)
    ensures IsBase58(Repeat('1', n) + s) && Acc58(0, Repeat('1', n) + s) == Acc58(0, s)
  {
    var t := Repeat('1', n) + s;
    if n == 0 {
      assert t == s;
    } else {
      AccOnes(n - 1, s);
      assert t[1..] == Repeat('1', n - 1) + s;
      assert t[0] == '1';
    }
  }

  lemma {:induction false} LeadingRepeat<T>(x: T, n: nat, s: seq<T>)
    requires s != [] ==> s[0] != x
    ensures Leading(Repeat(x, n) + s, x) == n
  {
    var t := Repeat(x, n) + s;
    if n == 0 {
      assert t == s;
    } else {
      LeadingRepeat(x, n - 1, s);
      assert t[1..] == Repeat(x, n - 1) + s;
    }
  }

  // ---- numerals and characters

  /** Printing a numeral and reading it back. */
  lemma {:induction false} AccPrint(v: nat, ds: seq<nat>)
    requires IsDigits(ds, 58)
    ensures Acc58(v, Print58(ds)) == v * Pow(58, |ds|) + Value(ds, 58)
    decreases |ds|
  {
    if ds != [] {
      var k := |ds| - 1;
      var low := ds[..k];
      LookupChar(ds[k]);
      assert Print58(ds)[1..] == Print58(low);
      AccPrint(v * 58 + ds[k], low);
      assert ds == low + [ds[k]];
      ValueConcat(low, [ds[k]], 58);
      assert Value([ds[k]], 58) == ds[k] + 58 * Value([], 58) == ds[k];
      AccPrintStep(v, ds[k], Pow(58, k), Value(low, 58));
    }
  }

  lemma {:induction false} AccPrintStep(v: nat, d: nat, p: nat, u: nat)
    ensures (v * 58 + d) * p + u == v * (58 * p) + (u + p * d)
  {
    Distribute(p, v * 58, d);
    Associate(v, 58, p);
  }

  /** The numeral that a base-58 string spells, least significant digit first. */
  function LowFirst58(s: string): (ds: seq<nat>)
    requires IsBase58(s)
    ensures |ds| == |s| && IsDigits(ds, 58)
  {
    seq(|s|, i requires 0 <= i < |s| => Lookup58(s[|s| - 1 - i]).d)
  }

  lemma {:induction false} PrintLowFirst58(s: string)
    requires IsBase58(s)
    ensures Print58(LowFirst58(s)) == s
  {
    var p := Print58(LowFirst58(s));
    forall i | 0 <= i < |s|
      ensures p[i] == s[i]
    {
      assert p[i] == Char58(Lookup58(s[i]).d);
    }
  }

  lemma {:induction false} ReverseRepeat<T>(x: T, n: nat)
    ensures Reverse(Repeat(x, n)) == Repeat(x, n)
  {
    var r := Repeat(x, n);
    var q := Reverse(r);
    forall i | 0 <= i < n
      ensures q[i] == r[i]
    {
      assert q[i] == r[n - 1 - i];
    }
    assert q == r;
  }

  /** A byte string is its leading zeros and then the canonical numeral of its value. */
  lemma {:induction false} StripZeros(b: seq<byte>)
    ensures b == Repeat(0, Leading(b, 0)) + Reverse(Bytes(ToDigits(BigEndian(b), 256)))
  {
    var z := Leading(b, 0);
    var t := b[z..];
    assert b == Repeat(0, z) + t;
    BigEndianZeros(z, t);
    if t != [] {
      assert Reverse(t)[|t| - 1] == t[0];
    }
    CanonicalUnique(Reverse(t), 256);
    ReverseReverse(t);
  }

  lemma {:induction false} BigEndianZeros(z: nat, t: seq<byte>)
    ensures BigEndian(Repeat<byte>(0, z) + t) == BigEndian(t)
  {
    ReverseConcat(Repeat<byte>(0, z), t);
    ReverseRepeat<byte>(0, z);
    assert Repeat<byte>(0, z) == Repeat<nat>(0, z);
    ValuePad(Reverse(t), z, 256);
  }

  // ---- the bijection

  /** Decoding at variable size undoes encoding, for every byte string. */
  lemma {:induction false} DecodeVarEncode(b: seq<byte>)
    ensures DecodeVar(Encode58(b)) == Success(b)
  {
    var z, v := Leading(b, 0), BigEndian(b);
    var p := Print58(ToDigits(v, 58));
    ValueToDigits(v, 58);
    AccPrint(0, ToDigits(v, 58));
    AccOnes(z, p);
    PrintFirst(v);
    LeadingRepeat('1', z, p);
    FoldVarValue(0, Encode58(b));
    StripZeros(b);
    ReverseConcat(Bytes(ToDigits(v, 256)), Repeat(0 as byte, z));
    ReverseRepeat(0 as byte, z);
  }

  lemma {:induction false} PrintFirst(v: nat)
    ensures var p := Print58(ToDigits(v, 58)); p != [] ==> p[0] != '1'
  {
    var ds := ToDigits(v, 58);
    ValueToDigits(v, 58);
    if ds != [] {
      LookupChar(ds[|ds| - 1]);
    }
  }

  /** Encoding undoes decoding at variable size, for every base-58 string. */
  lemma {:induction false} EncodeDecodeVar(s: string)
    requires IsBase58(s)
    ensures DecodeVar(s).Success? && Encode58(DecodeVar(s).value) == s
  {
    var z := Leading(s, '1');
    var t := s[z..];
    assert s == Repeat('1', z) + t;
    var ds := LowFirst58(t);
    PrintLowFirst58(t);
    var v := Value(ds, 58);
    AccOnes(z, t);
    AccPrint(0, ds);
    FoldVarValue(0, s);
    var r := Bytes(ToDigits(v, 256));
    ReverseConcat(r, Repeat(0 as byte, z));
    ReverseRepeat(0 as byte, z);
    assert DecodeVar(s).value == Repeat(0, z) + Reverse(r);
    EncodeStripped(z, v);
    if t != [] {
      assert ds[|ds| - 1] == Lookup58(t[0]).d;
    }
    CanonicalUnique(ds, 58);
  }

  /** Encoding a canonical number behind `z` zero bytes. */
  lemma {:induction false} EncodeStripped(z: nat, v: nat)
    ensures Encode58(Repeat(0, z) + Reverse(Bytes(ToDigits(v, 256)))) == Repeat('1', z) + Print58(ToDigits(v, 58))
  {
    var r := Bytes(ToDigits(v, 256));
    ValueToDigits(v, 256);
    if r != [] {
      assert Reverse(r)[0] == r[|r| - 1];
    }
    LeadingRepeat(0, z, Reverse(r));
    BigEndianZeros(z, Reverse(r));
    ReverseReverse(r);
  }

  /** A fixed size rejects exactly the base-58 values that do not fit, and otherwise keeps the value. */
  lemma {:induction false} DecodeFixedExact(size: nat, s: string)
    requires size > 0 && IsBase58(s)
    ensures DecodeFixed(size, s).Success? <==> Acc58(0, s) < Pow(256, size)
    ensures DecodeFixed(size, s).Failure? ==> DecodeFixed(size, s).error == Base58OutOfRange
    ensures DecodeFixed(size, s).Success? ==>
            && |DecodeFixed(size, s).value| == size
            && BigEndian(DecodeFixed(size, s).value) == Acc58(0, s)
  {
    FixedZero(size);
    assert Repeat<nat>(0, size) == LittleEndian(0, size);
    FoldFixedValue(0, size, s);
    if Acc58(0, s) < Pow(256, size) {
      StoredBigEndian(Acc58(0, s), size);
    }
  }

  lemma {:induction false} StoredBigEndian(v: nat, size: nat)
    requires v < Pow(256, size)
    ensures BigEndian(Reverse(Bytes(LittleEndian(v, size)))) == v
  {
    ReverseReverse(LittleEndian(v, size));
    ValueFixedSmall(v, 256, size);
  }

  /** Both decoders agree whenever the variable size comes out as the fixed one. */
  lemma {:induction false} DecodersAgree(size: nat, s: string)
    requires size > 0 && IsBase58(s) && DecodeVar(s).Success? && |DecodeVar(s).value| == size
    ensures DecodeFixed(size, s) == DecodeVar(s)
  {
    var b := DecodeVar(s).value;
    EncodeDecodeVar(s);
    EncodedValue(b);
    DecodeFixedExact(size, s);
    BigEndianUnique(b, DecodeFixed(size, s).value);
  }

  lemma {:induction false} EncodedValue(b: seq<byte>)
    ensures IsBase58(Encode58(b)) && Acc58(0, Encode58(b)) == BigEndian(b) < Pow(256, |b|)
  {
    var v := BigEndian(b);
    ValueToDigits(v, 58);
    AccPrint(0, ToDigits(v, 58));
    AccOnes(Leading(b, 0), Print58(ToDigits(v, 58)));
    ValueBound(Reverse(b), 256);
  }

  lemma {:induction false} BigEndianUnique(b: seq<byte>, c: seq<byte>)
    requires |b| == |c| && BigEndian(b) == BigEndian(c)
    ensures b == c
  {
    FixedUnique(Reverse(b), Reverse(c), 256);
    ReverseReverse(b);
    ReverseReverse(c);
  }

  /** Decoding at the right fixed size undoes encoding. */
  lemma {:induction false} DecodeFixedEncode(b: seq<byte>)
    requires b != []
    ensures DecodeFixed(|b|, Encode58(b)) == Success(b)
  {
    EncodedValue(b);
    DecodeVarEncode(b);
    DecodersAgree(|b|, Encode58(b));
  }

  /** At a fixed size, encoding restores the string exactly when its leading ones and the digits of its number
      fill the size, that is, when the variable size comes out as the fixed one; otherwise several strings name
      one byte string. */
  lemma {:induction false} EncodeDecodeFixed(size: nat, s: string)
    requires size > 0 && IsBase58(s) && DecodeFixed(size, s).Success?
    ensures Encode58(DecodeFixed(size, s).value) == s
            <==> Leading(s, '1') + |ToDigits(Acc58(0, s), 256)| == size
    ensures DecodeVar(s).Success? && |DecodeVar(s).value| == Leading(s, '1') + |ToDigits(Acc58(0, s), 256)|
  {
    var b := DecodeFixed(size, s).value;
    DecodeFixedExact(size, s);
    StripZeros(b);
    OnesMatch(s, b);
    FoldVarValue(0, s);
  }

  /** Encoding bytes with the number of a base-58 string restores the string exactly when the leading ones
      match the leading zeros. */
  lemma {:induction false} OnesMatch(s: string, b: seq<byte>)
    requires IsBase58(s) && BigEndian(b) == Acc58(0, s)
    ensures Encode58(b) == s <==> Leading(s, '1') == Leading(b, 0)
  {
    var z := Leading(s, '1');
    var t := s[z..];
    assert s == Repeat('1', z) + t;
    var ds := LowFirst58(t);
    PrintLowFirst58(t);
    AccOnes(z, t);
    AccPrint(0, ds);
    if t != [] {
      assert ds[|ds| - 1] == Lookup58(t[0]).d;
    }
    CanonicalUnique(ds, 58);
    assert Print58(ToDigits(BigEndian(b), 58)) == t;
    PrintFirst(BigEndian(b));
    LeadingRepeat('1', Leading(b, 0), t);
  }

  // ---- characters outside the alphabet

  /** The characters that the decoders do not reject: the alphabet, and every code above 255. */
  predicate Accepted(s: string) {
    forall i :: 0 <= i < |s| ==> !Lookup58(s[i]).NotInAlphabet?
  }

  /** A code above 255 counts as the digit 0, but also clears the lowest byte of the number read so far. */
  function Next(v: nat, d: Lookup): nat {
    if d.Digit? then v * 58 + d.d else 58 * (v - v % 256)
  }

  function AccAny(v: nat, s: string): nat
    decreases |s|
  {
    if s == [] then v else AccAny(Next(v, Lookup58(s[0])), s[1..])
  }

  /** No number on the way reaches the limit. */
  predicate Below(v: nat, s: string, limit: nat)
    decreases |s|
  {
    s == [] || (Next(v, Lookup58(s[0])) < limit && Below(Next(v, Lookup58(s[0])), s[1..], limit))
  }

  lemma {:induction false} DigitStepValue(r: seq<nat>, d: Lookup)
    requires IsDigits(r, 256) && !d.NotInAlphabet? && (d.Digit? ==> d.d < 58)
    ensures var k := DigitStep(r, d);
      Value(k.digits, 256) + Pow(256, |r|) * k.carry == Next(Value(r, 256), d) && k.carry < 58
  {
    if d.Digit? {
      MulAddValue(r, 58, d.d, 256);
      MulAddCarry(r, 58, d.d, 256, 58);
    } else if r != [] {
      var t := MulAdd(r[1..], 58, 0, 256);
      MulAddValue(r[1..], 58, 0, 256);
      MulAddCarry(r[1..], 58, 0, 256, 58);
      DivModUnique(Value(r, 256), 256, Value(r[1..], 256), r[0]);
      assert ([0] + t.digits)[1..] == t.digits;
      Associate(256, Pow(256, |r| - 1), t.carry);
    }
  }

  lemma {:induction false} FoldVarAny(r: seq<nat>, s: string)
    requires IsDigits(r, 256)
    ensures FoldVar(r, s).Success? <==> Accepted(s)
    ensures FoldVar(r, s).Success? ==>
      IsDigits(FoldVar(r, s).value, 256) && Value(FoldVar(r, s).value, 256) == AccAny(Value(r, 256), s)
    decreases |s|
  {
    AcceptedFirst(s);
    if s != [] && !Lookup58(s[0]).NotInAlphabet? {
      hide Accepted, DigitStep, Lookup58, Next;
      var k := DigitStep(r, Lookup58(s[0]));
      DigitStepValue(r, Lookup58(s[0]));
      var more := if k.carry != 0 then k.digits + [k.carry] else k.digits;
      if k.carry != 0 {
        ValueConcat(k.digits, [k.carry], 256);
        assert Value([k.carry], 256) == k.carry + 256 * Value([], 256);
      }
      FoldVarAny(more, s[1..]);
    }
  }

  lemma {:induction false} FoldFixedAny(r: seq<nat>, s: string)
    requires IsDigits(r, 256)
    ensures FoldFixed(r, s).Success? <==> Accepted(s) && Below(Value(r, 256), s, Pow(256, |r|))
    ensures FoldFixed(r, s).Success? ==>
      IsDigits(FoldFixed(r, s).value, 256) && Value(FoldFixed(r, s).value, 256) == AccAny(Value(r, 256), s)
    decreases |s|
  {
    AcceptedFirst(s);
    if s != [] && !Lookup58(s[0]).NotInAlphabet? {
      hide Accepted, DigitStep, Lookup58, Next;
      var k := DigitStep(r, Lookup58(s[0]));
      DigitStepValue(r, Lookup58(s[0]));
      ValueBound(k.digits, 256);
      if k.carry != 0 {
        MulMono(1, k.carry, Pow(256, |r|));
      } else {
        FoldFixedAny(k.digits, s[1..]);
      }
    }
  }

  lemma {:induction false} AcceptedFirst(s: string)
    ensures Accepted(s) <==> s == [] || (!Lookup58(s[0]).NotInAlphabet? && Accepted(s[1..]))
  {
    hide Lookup58;
    if s != [] {
      assert s == [s[0]] + s[1..];
    }
  }

  /** The variable-size decoder accepts exactly the strings in which every character outside the alphabet has a
      code above 255, and delivers the number read. */
  lemma {:induction false} DecodeVarAccepts(s: string)
    ensures DecodeVar(s).Success? <==> Accepted(s)
    ensures DecodeVar(s).Success? ==> BigEndian(DecodeVar(s).value) == AccAny(0, s)
  {
    hide FoldVar, Accepted, AccAny;
    FoldVarAny([], s);
    if DecodeVar(s).Success? {
      var r := FoldVar([], s).value;
      var z := Leading(s, '1');
      assert Repeat<byte>(0, z) == Repeat<nat>(0, z);
      ReverseReverse(Bytes(r) + Repeat(0, z));
      ValuePad(r, z, 256);
    }
  }

  /** A fixed size accepts exactly those of them on which no number on the way is too large. */
  lemma {:induction false} DecodeFixedAccepts(size: nat, s: string)
    requires size > 0
    ensures DecodeFixed(size, s).Success? <==> Accepted(s) && Below(0, s, Pow(256, size))
    ensures DecodeFixed(size, s).Success? ==>
      |DecodeFixed(size, s).value| == size && BigEndian(DecodeFixed(size, s).value) == AccAny(0, s)
  {
    hide FoldFixed, Accepted, AccAny, Below;
    var zeros: seq<nat> := Repeat(0, size);
    ValueZeros(zeros, 256);
    FoldFixedAny(zeros, s);
    if DecodeFixed(size, s).Success? {
      ReverseReverse(Bytes(FoldFixed(zeros, s).value));
    }
  }

  /** On base-58 strings this is the number of the string. */
  lemma {:induction false} AccAnyBase58(v: nat, s: string)
    requires IsBase58(s)
    ensures Accepted(s) && AccAny(v, s) == Acc58(v, s)
    decreases |s|
  {
    if s != [] {
      AccAnyBase58(v * 58 + Lookup58(s[0]).d, s[1..]);
    }
  }

  /** On its own such a character decodes as if nothing had been there; after a digit it clears it. */
  lemma {:induction false} WideCharacter(c: char)
    requires c as int > 255
    ensures DecodeVar([c]) == Success([]) == DecodeVar("")
    ensures AccAny(0, ['2', c]) == 0 && AccAny(0, "2") == 1
  {
    assert [c][1..] == [] && ['2', c][1..] == [c];
    assert FoldVar([], [c]) == FoldVar([], []);
    assert Leading([c], '1') == 0;
    assert AccAny(1, [c]) == AccAny(0, []);
    assert Lookup58('2') == Digit(1);
    var s: string := "2";
    assert s[1..] == [];
  }
}
