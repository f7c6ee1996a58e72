/** Hexadecimal strings as `arrayToHex` and `hexToUint8Array` of
    packages/coin-eos/src/serialize.ts read and write them. */
module EosHex {
  import opened Wrappers

  function HexValue(c: char): (v: Option<nat>)
    ensures v.Some? ==> v.value < 16
  {
    if '0' <= c <= '9' then Some(c as int - '0' as int)
    else if 'a' <= c <= 'f' then Some(c as int - 'a' as int + 10)
    else if 'A' <= c <= 'F' then Some(c as int - 'A' as int + 10)
    else None
  }

  function HexChar(v: nat): (c: char)
    requires v < 16
    ensures HexValue(c) == Some(v)
  {
    if v < 10 then (v + '0' as int) as char else (v - 10 + 'A' as int) as char
  }

  /** Sixteen digits in either case are read alike, nothing else is a digit, and upper case is printed. */
  lemma {:induction false} HexDigits(v: nat, c: char)
    requires v < 16
    ensures HexChar(v) == "0123456789ABCDEF"[v]
    ensures HexValue(c) == Some(v) <==> c == "0123456789ABCDEF"[v] || c == "0123456789abcdef"[v]
    ensures HexValue(c).Some? <==> c in "0123456789ABCDEF" || c in "0123456789abcdef"
  {
    var upper, lower := "0123456789ABCDEF", "0123456789abcdef";
    if HexValue(c).Some? {
      var w := HexValue(c).value;
      assert c == upper[w] || c == lower[w];
    }
  }

  /** Whitespace that `parseInt` skips, among the characters a pair can hold. */
  predicate IsSpace(c: char) {
    var x := c as int;
    || 0x09 <= x <= 0x0d || x == 0x20 || x == 0xa0 || x == 0x1680 || 0x2000 <= x <= 0x200a
    || x == 0x2028 || x == 0x2029 || x == 0x202f || x == 0x205f || x == 0x3000 || x == 0xfeff
  }

  /** `parseInt(pair, 16)` stored into a byte; `None` is NaN. Besides two digits it takes a digit
      followed by anything, and a digit after a space or a sign. */
  function ParsePair(c: char, d: char): Option<byte> {
    if HexValue(c).Some? then
      if HexValue(d).Some? then Some(16 * HexValue(c).value + HexValue(d).value)
      else if c == '0' && (d == 'x' || d == 'X') then None
      else Some(HexValue(c).value)
    else if HexValue(d).Some? && (IsSpace(c) || c == '+') then Some(HexValue(d).value)
    else if HexValue(d).Some? && c == '-' then Some((256 - HexValue(d).value) % 256)
    else None
  }

  /** `hexToUint8Array`; `None` stands for the exception. */
  function FromHex(s: string): (r: Option<seq<byte>>)
    ensures r.Some? ==> 2 * |r.value| == |s|
    decreases |s|
  {
    if s == [] then Some([])
    else if |s| == 1 || ParsePair(s[0], s[1]).None? then None
    else
      var rest := FromHex(s[2..]);
      if rest.None? then None else Some([ParsePair(s[0], s[1]).value] + rest.value)
  }

  /** `arrayToHex` */
  function ToHex(b: seq<byte>): (s: string)
    ensures |s| == 2 * |b|
    decreases |b|
  {
    if b == [] then "" else [HexChar(b[0] / 16), HexChar(b[0] % 16)] + ToHex(b[1..])
  }

  /** Two digits to a byte, the high one first. */
  lemma {:induction false} ToHexAt(b: seq<byte>, i: nat)
    requires i < |b|
    ensures ToHex(b)[2 * i] == "0123456789ABCDEF"[b[i] / 16] && ToHex(b)[2 * i + 1] == "0123456789ABCDEF"[b[i] % 16]
    decreases i
  {
    if i == 0 {
      HexDigits(b[0] / 16, '0');
      HexDigits(b[0] % 16, '0');
    } else {
      ToHexAt(b[1..], i - 1);
      assert ToHex(b)[2..] == ToHex(b[1..]);
    }
  }

  lemma {:induction false} FromToHex(b: seq<byte>)
    ensures FromHex(ToHex(b)) == Some(b)
    decreases |b|
  {
    if b != [] {
      FromToHex(b[1..]);
      var s := ToHex(b);
      assert s[2..] == ToHex(b[1..]);
      assert ParsePair(s[0], s[1]) == Some(b[0]);
      assert b == [b[0]] + b[1..];
    }
  }
}
