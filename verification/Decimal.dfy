/** Decimal strings of natural numbers. */
module Decimal {
  import opened Wrappers
  import opened Numerals

  predicate IsDigit(c: char) {
    '0' <= c <= '9'
  }

  predicate AllDigits(s: string) {
    forall i :: 0 <= i < |s| ==> IsDigit(s[i])
  }

  function DigitOf(c: char): (d: nat)
    requires IsDigit(c)
    ensures d < 10
  {
    c as int - '0' as int
  }

  function DigitChar(d: nat): (c: char)
    requires d < 10
    ensures IsDigit(c) && DigitOf(c) == d
  {
    (d + '0' as int) as char
  }

  /** The digits of `s`, least significant first. */
  function LowFirst(s: string): (ds: seq<nat>)
    requires AllDigits(s)
    ensures |ds| == |s| && IsDigits(ds, 10)
  {
    seq(|s|, i requires 0 <= i < |s| => DigitOf(s[|s| - 1 - i]))
  }

  /** The characters of a numeral, most significant first. */
  function Print(ds: seq<nat>): (s: string)
    requires IsDigits(ds, 10)
    ensures |s| == |ds| && AllDigits(s)
    ensures LowFirst(s) == ds
  {
    var s := seq(|ds|, i requires 0 <= i < |ds| => DigitChar(ds[|ds| - 1 - i]));
    assert LowFirst(s) == ds;
    s
  }

  /** The number a string of digits denotes; the empty string denotes zero. */
  function DecValue(s: string): nat
    requires AllDigits(s)
  {
    Value(LowFirst(s), 10)
  }

  lemma {:induction false} PrintLowFirst(s: string)
    requires AllDigits(s)
    ensures Print(LowFirst(s)) == s
  {
    forall i | 0 <= i < |s|
      ensures Print(LowFirst(s))[i] == s[i]
    {
      assert LowFirst(s)[|s| - 1 - i] == DigitOf(s[i]);
      DigitCharOf(s[i]);
    }
  }

  lemma DigitCharOf(c: char)
    requires IsDigit(c)
    ensures DigitChar(DigitOf(c)) == c
  {
  }

  lemma {:induction false} DecValueAppend(s: string, c: char)
    requires AllDigits(s) && IsDigit(c)
    ensures AllDigits(s + [c])
    ensures DecValue(s + [c]) == DecValue(s) * 10 + DigitOf(c)
  {
    assert LowFirst(s + [c]) == [DigitOf(c)] + LowFirst(s);
  }

  /** Longer prefixes of a digit string denote no smaller numbers. */
  lemma {:induction false} DecValueMono(s: string, i: nat, j: nat)
    requires AllDigits(s) && i <= j <= |s|
    ensures DecValue(s[..i]) <= DecValue(s[..j])
    decreases j - i
  {
    if i < j {
      assert s[..i + 1] == s[..i] + [s[i]];
      DecValueAppend(s[..i], s[i]);
      DecValueMono(s, i + 1, j);
    }
  }

  /** `n` in decimal, padded with zeros to at least `minDigits` characters. */
  function NatString(n: nat, minDigits: nat): (s: string)
    ensures AllDigits(s) && |s| >= minDigits
  {
    PadValue(n, minDigits, 10);
    Print(Pad(ToDigits(n, 10), minDigits))
  }

  /** A decimal string denotes its number and has no leading zero beyond the padding. */
  lemma {:induction false} NatStringValue(n: nat, minDigits: nat)
    ensures DecValue(NatString(n, minDigits)) == n
    ensures |NatString(n, minDigits)| > minDigits ==> NatString(n, minDigits)[0] != '0'
  {
    PadValue(n, minDigits, 10);
    ValueToDigits(n, 10);
    var ds := Pad(ToDigits(n, 10), minDigits);
    var s := NatString(n, minDigits);
    if |s| > minDigits {
      assert s[0] == DigitChar(ds[|ds| - 1]);
      assert DigitOf(s[0]) != 0;
    }
  }

  /** Those two properties determine the string. */
  lemma {:induction false} NatStringUnique(s: string, minDigits: nat)
    requires AllDigits(s) && |s| >= minDigits
    requires |s| > minDigits ==> s[0] != '0'
    ensures s == NatString(DecValue(s), minDigits)
  {
    var ds := LowFirst(s);
    var n := DecValue(s);
    PrintLowFirst(s);
    if |s| > minDigits {
      assert ds[|ds| - 1] == DigitOf(s[0]);
    }
    PadUnique(ds, minDigits, 10);
  }

  lemma {:induction false} DecConcat(s: string, t: string)
    requires AllDigits(s) && AllDigits(t)
    ensures AllDigits(s + t)
    ensures DecValue(s + t) == DecValue(t) + Pow(10, |t|) * DecValue(s)
  {
    assert LowFirst(s + t) == LowFirst(t) + LowFirst(s);
    ValueConcat(LowFirst(t), LowFirst(s), 10);
  }

  lemma {:induction false} DecBound(s: string)
    requires AllDigits(s)
    ensures DecValue(s) < Pow(10, |s|)
  {
    ValueBound(LowFirst(s), 10);
  }

  lemma {:induction false} LeadingDigit(s: string)
    requires AllDigits(s) && s != [] && s[0] != '0'
    ensures DecValue(s) >= Pow(10, |s| - 1)
  {
    var ds := LowFirst(s);
    assert ds[|ds| - 1] == DigitOf(s[0]) != 0;
    CanonicalByValue(ds, 10);
  }

  lemma {:induction false} DecZeros(s: string)
    requires forall i :: 0 <= i < |s| ==> s[i] == '0'
    ensures AllDigits(s) && DecValue(s) == 0
  {
    var ds := LowFirst(s);
    assert forall i :: 0 <= i < |s| ==> ds[i] == DigitOf(s[|s| - 1 - i]) == 0;
    ValueZeros(ds, 10);
  }

  /** A number below 10^k, padded to `k` digits, has exactly `k`. */
  lemma {:induction false} NatStringWidth(n: nat, k: nat)
    requires k > 0 && n < Pow(10, k)
    ensures |NatString(n, k)| == k
  {
    hide NatString, DecValue;
    var s := NatString(n, k);
    if |s| > k {
      NatStringValue(n, k);
      LeadingDigit(s);
      PowMono(10, k, |s| - 1);
    }
  }

  /** Decimal digits of a number split after the `k` lowest. */
  lemma {:induction false} NatStringSplit(q: nat, r: nat, k: nat)
    requires k > 0 && q > 0 && r < Pow(10, k)
    ensures NatString(q, 1) + NatString(r, k) == NatString(r + Pow(10, k) * q, 1)
  {
    hide NatString, DecValue;
    var s, t := NatString(q, 1), NatString(r, k);
    NatStringValue(q, 1);
    NatStringValue(r, k);
    NatStringWidth(r, k);
    DecConcat(s, t);
    NatStringFirst(q);
    assert (s + t)[0] == s[0];
    NatStringUnique(s + t, 1);
  }

  lemma {:induction false} NatStringFirst(q: nat)
    requires q > 0
    ensures NatString(q, 1)[0] != '0'
  {
    hide NatString, DecValue;
    var s := NatString(q, 1);
    NatStringValue(q, 1);
    if |s| == 1 && s[0] == '0' {
      DecZeros(s);
    }
  }

  /** `n` in decimal with a sign, as JavaScript prints an integer. */
  function IntString(n: int): (s: string)
    ensures s != []
  {
    if n < 0 then "-" + NatString(-n, 1) else NatString(n, 1)
  }

  /** A leading minus sign. */
  predicate HasMinus(s: string) {
    s != [] && s[0] == '-'
  }

  function Magnitude(s: string): string {
    if HasMinus(s) then s[1..] else s
  }

  /** The number a signed decimal string denotes. */
  function SignedValue(s: string): int
    requires AllDigits(Magnitude(s))
  {
    if HasMinus(s) then -(DecValue(Magnitude(s)) as int) else DecValue(Magnitude(s))
  }

  /** Longest prefix of digits. */
  function DigitPrefix(s: string): (p: nat)
    ensures p <= |s| && AllDigits(s[..p])
    ensures p < |s| ==> !IsDigit(s[p])
    decreases |s|
  {
    if s == [] || !IsDigit(s[0]) then 0 else 1 + DigitPrefix(s[1..])
  }

  lemma {:induction false} DigitPrefixIs(s: string, p: nat)
    requires p <= |s| && AllDigits(s[..p]) && (p < |s| ==> !IsDigit(s[p]))
    ensures DigitPrefix(s) == p
  {
    if p > 0 {
      assert s[..p][0] == s[0];
      assert s[..p][1..] == s[1..][..p - 1];
      DigitPrefixIs(s[1..], p - 1);
    }
  }
}
