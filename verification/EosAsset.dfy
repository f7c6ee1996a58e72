/**
 * Assets: an 8-byte signed amount, a precision byte and up to seven letters
 * (packages/coin-eos/src/serialize.ts, `pushAsset`, `getAsset`, `pushSymbol`, `getSymbol`).
 */
module EosAsset {
  import opened Wrappers
  import opened Numerals
  import opened Decimal
  import opened EosBignum

  datatype AssetError = NoDigits | BadAmount(why: NumericError) | BadSymbol

  /** The characters that `String.prototype.trim` removes. */
  predicate IsSpace(c: char) {
    var x := c as int;
    || 0x09 <= x <= 0x0d || x == 0x20 || x == 0xa0 || x == 0x1680 || 0x2000 <= x <= 0x200a
    || x == 0x2028 || x == 0x2029 || x == 0x202f || x == 0x205f || x == 0x3000 || x == 0xfeff
  }

  function TrimLeft(s: string): (r: string)
    ensures |r| <= |s|
    decreases |s|
  {
    if s != [] && IsSpace(s[0]) then TrimLeft(s[1..]) else s
  }

  function TrimRight(s: string): (r: string)
    ensures |r| <= |s|
    decreases |s|
  {
    if s != [] && IsSpace(s[|s| - 1]) then TrimRight(s[..|s| - 1]) else s
  }

  function Trim(s: string): string {
    TrimRight(TrimLeft(s))
  }

  predicate IsSymbolName(name: string) {
    1 <= |name| <= 7 && forall i :: 0 <= i < |name| ==> 'A' <= name[i] <= 'Z'
  }

  // ---- symbols

  /** `pushSymbol`: precision byte, letters, zeros up to eight bytes. */
  function PackSymbol(name: string, precision: nat): (r: Result<seq<byte>, AssetError>)
    ensures r.Success? ==> |r.value| == 8
  {
    if !IsSymbolName(name) then Failure(BadSymbol)
    else Success([precision % 256] + Letters(name) + Repeat<byte>(0, 7 - |name|))
  }

  function Letters(name: string): (b: seq<byte>)
    ensures |b| == |name|
  {
    seq(|name|, i requires 0 <= i < |name| => name[i] as int % 256)
  }

  /** How many bytes precede the first zero. */
  function NameLength(a: seq<byte>): (n: nat)
    ensures n <= |a|
    ensures forall i :: 0 <= i < n ==> a[i] != 0
    ensures n < |a| ==> a[n] == 0
    decreases |a|
  {
    if a == [] || a[0] == 0 then 0 else 1 + NameLength(a[1..])
  }

  /** The name that `getSymbol` decodes; one character per byte, which is UTF-8 for ASCII. */
  function NameOf(a: seq<byte>): (s: string)
    ensures |s| == NameLength(a)
  {
    seq(NameLength(a), i requires 0 <= i < NameLength(a) => a[i] as char)
  }

  /** Seven name bytes as `pushSymbol` writes them: letters, then zeros. */
  predicate IsPackedName(a: seq<byte>) {
    && |a| == 7 && IsSymbolName(NameOf(a))
    && forall i :: NameLength(a) <= i < 7 ==> a[i] == 0
  }

  /** `pushSymbol` undoes `getSymbol`. */
  lemma {:induction false} PackSymbolOf(precision: byte, a: seq<byte>)
    requires IsPackedName(a)
    ensures PackSymbol(NameOf(a), precision) == Success([precision] + a)
  {
    var n := NameLength(a);
    forall i | 0 <= i < n
      ensures Letters(NameOf(a))[i] == a[i]
    {
      assert NameOf(a)[i] as int == a[i];
    }
    assert a == Letters(NameOf(a)) + Repeat<byte>(0, 7 - n);
    assert [precision] + a == [precision] + Letters(NameOf(a)) + Repeat<byte>(0, 7 - n);
    assert precision % 256 == precision;
  }

  /** `getSymbol` undoes `pushSymbol`, for precisions that fit their byte. */
  lemma {:induction false} SymbolOfPacked(name: string, precision: nat)
    requires IsSymbolName(name) && precision < 256
    ensures var b := PackSymbol(name, precision).value;
            b[0] == precision && IsPackedName(b[1..]) && NameOf(b[1..]) == name
  {
    var b := PackSymbol(name, precision).value;
    var t := b[1..];
    assert t == Letters(name) + Repeat<byte>(0, 7 - |name|);
    var n := NameLength(t);
    forall i | 0 <= i < |name|
      ensures t[i] == name[i] as int && t[i] != 0
    {
      assert 'A' <= name[i] <= 'Z';
      assert t[i] == Letters(name)[i];
    }
    assert |name| < 7 ==> t[|name|] == 0;
    assert n == |name|;
    assert NameOf(t) == name;
  }

  // ---- assets

  /** The pieces that `pushAsset` cuts a trimmed string into. */
  datatype Pieces = Pieces(minus: bool, whole: string, fraction: string, name: string)

  function Cut(s: string): Pieces {
    var minus := s != [] && s[0] == '-';
    CutBody(minus, if minus then s[1..] else s)
  }

  /** What `pushAsset` appends or throws. */
  function ParseAsset(s: string): (r: Result<seq<byte>, AssetError>)
    ensures r.Success? ==> |r.value| == 16
  {
    var c := Cut(Trim(s));
    if c.whole == [] then Failure(NoDigits)
    else
      var amount := ParseSigned(8, Sign(c.minus) + c.whole + c.fraction);
      if amount.Failure? then Failure(BadAmount(amount.error))
      else
        var symbol := PackSymbol(c.name, |c.fraction|);
        if symbol.Failure? then Failure(symbol.error) else Success(amount.value + symbol.value)
  }

  /** What `getAsset` returns for 16 bytes. */
  function PrintAsset(a: seq<byte>): string
    requires |a| == 16
  {
    var precision: nat := a[8];
    var digits := PrintSigned(a[..8], precision + 1);
    WithPoint(digits, precision) + (" " + NameOf(a[9..]))
  }

  function WithPoint(digits: string, precision: nat): string
    requires precision <= |digits|
  {
    if precision == 0 then digits
    else digits[..|digits| - precision] + ("." + digits[|digits| - precision..])
  }

  // ---- the round trip

  lemma {:induction false} TrimmedAlready(s: string)
    requires s != [] && !IsSpace(s[0]) && !IsSpace(s[|s| - 1])
    ensures Trim(s) == s
  {
  }

  lemma {:induction false} TrimName(name: string)
    requires IsSymbolName(name)
    ensures Trim(" " + name) == name
  {
    assert (" " + name)[1..] == name;
    assert TrimLeft(" " + name) == name;
    assert !IsSpace(name[0]) && !IsSpace(name[|name| - 1]);
  }

  /** The part of `Cut` after the sign. */
  function CutBody(minus: bool, body: string): Pieces {
    var p := DigitPrefix(body);
    var rest := body[p..];
    if rest != [] && rest[0] == '.' then
      var q := DigitPrefix(rest[1..]);
      Pieces(minus, body[..p], rest[1..][..q], Trim(rest[1..][q..]))
    else Pieces(minus, body[..p], "", Trim(rest))
  }

  /** Cutting a printed asset finds its pieces: without a point, */
  lemma {:induction false} CutInteger(minus: bool, digits: string, name: string)
    requires AllDigits(digits) && IsSymbolName(name)
    ensures CutBody(minus, digits + (" " + name)) == Pieces(minus, digits, "", name)
  {
    TrimName(name);
    PrefixOf(digits, " " + name);
  }

  /** and with one. */
  lemma {:induction false} CutPoint(minus: bool, whole: string, fraction: string, name: string)
    requires AllDigits(whole) && AllDigits(fraction) && IsSymbolName(name)
    ensures CutBody(minus, whole + ("." + (fraction + (" " + name)))) == Pieces(minus, whole, fraction, name)
  {
    var tail := " " + name;
    var rest := "." + (fraction + tail);
    TrimName(name);
    PrefixOf(whole, rest);
    assert rest[1..] == fraction + tail;
    PrefixOf(fraction, tail);
  }

  lemma {:induction false} CutPrinted(minus: bool, digits: string, precision: nat, name: string)
    requires AllDigits(digits) && |digits| > precision && IsSymbolName(name)
    ensures var w := |digits| - precision;
            CutBody(minus, WithPoint(digits, precision) + (" " + name)) == Pieces(minus, digits[..w], digits[w..], name)
  {
    hide CutBody, WithPoint, AllDigits, IsSymbolName;
    var w := |digits| - precision;
    DigitParts(digits, w);
    if precision == 0 {
      NoPoint(digits);
      CutInteger(minus, digits, name);
    } else {
      PointShape(digits, precision, " " + name);
      CutPoint(minus, digits[..w], digits[w..], name);
    }
  }

  lemma DigitParts(digits: string, w: nat)
    requires AllDigits(digits) && w <= |digits|
    ensures AllDigits(digits[..w]) && AllDigits(digits[w..])
  {
  }

  lemma NoPoint(digits: string)
    ensures WithPoint(digits, 0) == digits == digits[..|digits|] && digits[|digits|..] == ""
  {
  }

  lemma {:induction false} PointShape(digits: string, precision: nat, tail: string)
    requires 0 < precision < |digits|
    ensures var w := |digits| - precision;
            WithPoint(digits, precision) + tail == digits[..w] + ("." + (digits[w..] + tail))
  {
  }

  /** A run of digits followed by something else. */
  lemma {:induction false} PrefixOf(digits: string, rest: string)
    requires AllDigits(digits) && rest != [] && !IsDigit(rest[0])
    ensures DigitPrefix(digits + rest) == |digits|
    ensures (digits + rest)[..|digits|] == digits && (digits + rest)[|digits|..] == rest
  {
    assert (digits + rest)[..|digits|] == digits;
    DigitPrefixIs(digits + rest, |digits|);
  }

  /** The digits of a printed amount, without sign and point. */
  function PrintedDigits(amount: seq<byte>, precision: nat): (s: string)
    ensures AllDigits(s) && |s| > precision
  {
    NatString(if Negative(amount) then Opposite(amount) else Unsigned(amount), precision + 1)
  }

  function Sign(minus: bool): string {
    if minus then "-" else ""
  }

  lemma {:induction false} PrintSignedIs(amount: seq<byte>, precision: nat)
    ensures PrintSigned(amount, precision + 1) == Sign(Negative(amount)) + PrintedDigits(amount, precision)
  {
  }

  lemma {:induction false} PrintAssetIs(a: seq<byte>, precision: nat, amount: seq<byte>, name: string)
    requires |a| == 16 && precision == a[8] && amount == a[..8] && name == NameOf(a[9..])
    ensures PrintAsset(a) ==
            Sign(Negative(amount)) + (WithPoint(PrintedDigits(amount, precision), precision) + (" " + name))
  {
    var minus, digits := Negative(amount), PrintedDigits(amount, precision);
    PrintSignedIs(amount, precision);
    SignedPoint(minus, digits, precision);
    ConcatAssoc(Sign(minus), WithPoint(digits, precision), " " + name);
  }

  /** A printed asset: a minus sign for a negative amount, the digits of its absolute value with the point before the
      last `precision` of them, a space, and the name. */
  lemma {:induction false} AssetText(a: seq<byte>) returns (whole: string, fraction: string)
    requires |a| == 16
    ensures AllDigits(whole + fraction) && whole != [] && |fraction| == a[8]
    ensures var n := Signed(a[..8]); DecValue(whole + fraction) == (if n < 0 then -n else n)
    ensures PrintAsset(a)
            == (if Signed(a[..8]) < 0 then "-" else "") + whole + (if a[8] == 0 then "" else "." + fraction) + " " + NameOf(a[9..])
  {
    hide *;
    var amount, name := a[..8], NameOf(a[9..]);
    var precision: nat := a[8];
    var digits := PrintedDigits(amount, precision);
    PrintedValue(amount, precision);
    PrintAssetIs(a, precision, amount, name);
    whole, fraction := digits[..|digits| - precision], digits[|digits| - precision..];
    assert digits == whole + fraction;
    TextParts(Sign(Negative(amount)), digits, precision, name);
    SignIs(amount);
  }

  lemma {:induction false} PrintedValue(amount: seq<byte>, precision: nat)
    requires amount != []
    ensures var n := Signed(amount); DecValue(PrintedDigits(amount, precision)) == (if n < 0 then -n else n)
  {
    hide DecValue, NatString;
    NegativeIff(amount);
    NatStringValue(if Negative(amount) then Opposite(amount) else Unsigned(amount), precision + 1);
  }

  lemma SignIs(amount: seq<byte>)
    ensures Sign(Negative(amount)) == if Signed(amount) < 0 then "-" else ""
  {
  }

  lemma TextParts(sign: string, digits: string, precision: nat, name: string)
    requires precision <= |digits|
    ensures var w := |digits| - precision;
      sign + (WithPoint(digits, precision) + (" " + name))
      == sign + digits[..w] + (if precision == 0 then "" else "." + digits[w..]) + " " + name
  {
  }

  /** `pushAsset` after `getAsset` restores all 16 bytes: every amount, every precision byte,
      every valid symbol. */
  lemma {:induction false} ParsePrintedAsset(a: seq<byte>)
    requires |a| == 16 && IsPackedName(a[9..])
    ensures ParseAsset(PrintAsset(a)) == Success(a)
  {
    var amount, name := a[..8], NameOf(a[9..]);
    var precision: nat := a[8];
    var digits := PrintedDigits(amount, precision);
    var symbol: seq<byte> := [a[8]] + a[9..];
    PrintAssetIs(a, precision, amount, name);
    assert ParseSigned(8, Sign(Negative(amount)) + digits) == Success(amount) by {
      PrintSignedIs(amount, precision);
      PrintThenParse(amount, precision + 1);
    }
    assert PackSymbol(name, precision) == Success(symbol) by {
      PackSymbolOf(a[8], a[9..]);
    }
    ParseAssembled(PrintAsset(a), Negative(amount), digits, precision, name, amount, symbol);
    SplitAsset(a);
  }

  lemma {:induction false} ParseAssembled(s: string, minus: bool, digits: string, precision: nat, name: string,
                                          amount: seq<byte>, symbol: seq<byte>)
    requires AllDigits(digits) && |digits| > precision && IsSymbolName(name)
    requires s == Sign(minus) + (WithPoint(digits, precision) + (" " + name))
    requires ParseSigned(8, Sign(minus) + digits) == Success(amount) && PackSymbol(name, precision) == Success(symbol)
    ensures ParseAsset(s) == Success(amount + symbol)
  {
    var w := |digits| - precision;
    var c := Pieces(minus, digits[..w], digits[w..], name);
    assert Cut(Trim(s)) == c by {
      CutWhole(s, minus, digits, precision, name);
    }
    assert digits[..w] + digits[w..] == digits;
    ParsePieces(s, c, digits, precision, amount, symbol);
  }

  lemma {:induction false} SplitAsset(a: seq<byte>)
    requires |a| == 16
    ensures a == a[..8] + ([a[8]] + a[9..])
  {
  }

  lemma {:induction false} CutWhole(s: string, minus: bool, digits: string, precision: nat, name: string)
    requires AllDigits(digits) && |digits| > precision && IsSymbolName(name)
    requires s == Sign(minus) + (WithPoint(digits, precision) + (" " + name))
    ensures var w := |digits| - precision;
            Cut(Trim(s)) == Pieces(minus, digits[..w], digits[w..], name)
  {
    PrintedShape(minus, digits, precision, name);
    CutPrinted(minus, digits, precision, name);
  }

  lemma {:induction false} ParsePieces(s: string, c: Pieces, digits: string, precision: nat,
                                       amount: seq<byte>, symbol: seq<byte>)
    requires Cut(Trim(s)) == c && c.whole != [] && c.whole + c.fraction == digits && |c.fraction| == precision
    requires ParseSigned(8, Sign(c.minus) + digits) == Success(amount)
    requires PackSymbol(c.name, precision) == Success(symbol)
    ensures ParseAsset(s) == Success(amount + symbol)
  {
    ConcatAssoc(Sign(c.minus), c.whole, c.fraction);
  }

  /** A printed asset has no spaces at its ends, and a minus sign just when it should. */
  lemma {:induction false} PrintedShape(minus: bool, digits: string, precision: nat, name: string)
    requires AllDigits(digits) && |digits| > precision && IsSymbolName(name)
    ensures var body := WithPoint(digits, precision) + (" " + name);
            var s := Sign(minus) + body;
            Trim(s) == s && Cut(s) == CutBody(minus, body)
  {
    var body := WithPoint(digits, precision) + (" " + name);
    var s := Sign(minus) + body;
    assert IsDigit(digits[0]) && body[0] == digits[0];
    assert s[|s| - 1] == name[|name| - 1];
    TrimmedAlready(s);
    assert minus ==> s[1..] == body;
    assert !minus ==> s == body;
  }

  /** The sign stays in front when the point is inserted. */
  lemma {:induction false} SignedPoint(minus: bool, digits: string, precision: nat)
    requires |digits| > precision
    ensures WithPoint(Sign(minus) + digits, precision) == Sign(minus) + WithPoint(digits, precision)
  {
    SliceConcat(Sign(minus), digits, |digits| - precision);
    assert |Sign(minus) + digits| - precision == |Sign(minus)| + (|digits| - precision);
    if precision > 0 {
      var w := |digits| - precision;
      ConcatAssoc(Sign(minus), digits[..w], "." + digits[w..]);
    }
  }

  // ---- the scanning loops of pushAsset

  /** `while (pos < s.length && s[pos] is a digit) { ...; ++pos }` */
  method ScanDigits(s: string, start: nat) returns (pos: nat)
    requires start <= |s|
    ensures pos == start + DigitPrefix(s[start..]) && pos <= |s|
  {
    pos := start;
    while pos < |s| && IsDigit(s[pos])
      invariant start <= pos <= |s|
      invariant AllDigits(s[start..pos])
    {
      assert s[start..pos + 1] == s[start..pos] + [s[pos]];
      pos := pos + 1;
    }
    assert s[start..][..pos - start] == s[start..pos];
    DigitPrefixIs(s[start..], pos - start);
  }

  method CutAsset(s: string) returns (c: Pieces)
    ensures c == Cut(s)
  {
    if s != [] && s[0] == '-' {
      c := CutUnsigned(true, s[1..]);
    } else {
      c := CutUnsigned(false, s);
    }
  }

  method CutUnsigned(minus: bool, s: string) returns (c: Pieces)
    ensures c == CutBody(minus, s)
  {
    hide Trim, DigitPrefix;
    var pos := ScanDigits(s, 0);
    assert s[0..] == s;
    if pos < |s| && s[pos] == '.' {
      var from := pos + 1;
      ghost var rest := s[pos..];
      assert rest[0] == '.' && rest[1..] == s[from..];
      var end := ScanDigits(s, from);
      assert s[from..][..end - from] == s[from..end] && s[from..][end - from..] == s[end..];
      return Pieces(minus, s[..pos], s[from..end], Trim(s[end..]));
    }
    return Pieces(minus, s[..pos], "", Trim(s[pos..]));
  }

  method PushAssetBytes(s: string) returns (r: Result<seq<byte>, AssetError>)
    ensures r == ParseAsset(s)
  {
    var c := CutAsset(Trim(s));
    if c.whole == [] {
      return Failure(NoDigits);
    }
    var value := SignedDecimalToBinary(8, Sign(c.minus) + c.whole + c.fraction);
    if value.Failure? {
      return Failure(BadAmount(value.error));
    }
    var symbol := PackSymbol(c.name, |c.fraction|);
    if symbol.Failure? {
      return Failure(symbol.error);
    }
    return Success(value.value[..] + symbol.value);
  }

  /** `getAsset` on the 16 bytes it reads. */
  method GetAssetString(a: seq<byte>) returns (s: string)
    requires |a| == 16
    ensures s == PrintAsset(a)
  {
    var amount, precision: nat := a[..8], a[8];
    var digits := SignedBinaryToDecimal(amount, precision + 1);
    assert digits == PrintSigned(amount, precision + 1);
    s := WithPoint(digits, precision) + (" " + NameOf(a[9..]));
  }
}
