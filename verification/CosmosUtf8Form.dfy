/**
 * What UTF-8 is (section 3 of RFC 3629), stated without the operators of packages/coin-cosmos/src/utf8.ts:
 * which byte strings are well formed and which numbers they stand for. A surrogate on its own, which that
 * section forbids, is written by the source as any other number of three bytes.
 */
module CosmosUtf8Form {
  import opened Wrappers
  import opened CosmosUtf8

  // ---- byte strings

  /** A byte that continues a character. */
  predicate IsTail(b: byte) {
    0x80 <= b <= 0xBF
  }

  /** One character in its shortest form. */
  predicate IsCharacter(b: seq<byte>) {
    match |b|
    case 1 => b[0] <= 0x7F
    case 2 => 0xC2 <= b[0] <= 0xDF && IsTail(b[1])
    case 3 => 0xE0 <= b[0] <= 0xEF && IsTail(b[1]) && IsTail(b[2]) && (b[0] == 0xE0 ==> b[1] >= 0xA0)
    case 4 =>
      && 0xF0 <= b[0] <= 0xF4 && IsTail(b[1]) && IsTail(b[2]) && IsTail(b[3])
      && (b[0] == 0xF0 ==> b[1] >= 0x90) && (b[0] == 0xF4 ==> b[1] <= 0x8F)
    case _ => false
  }

  /** The number of a character. */
  function NumberOf(b: seq<byte>): (n: nat)
    requires IsCharacter(b)
  {
    var w: seq<int> := b;
    match |w|
    case 1 => w[0]
    case 2 => (w[0] - 0xC0) * 0x40 + (w[1] - 0x80)
    case 3 => (w[0] - 0xE0) * 0x1000 + (w[1] - 0x80) * 0x40 + (w[2] - 0x80)
    case _ => (w[0] - 0xF0) * 0x4_0000 + (w[1] - 0x80) * 0x1000 + (w[2] - 0x80) * 0x40 + (w[3] - 0x80)
  }

  /** The first byte says how many there are. */
  function Announced(b: byte): nat {
    if b < 0xC0 then 1 else if b < 0xE0 then 2 else if b < 0xF0 then 3 else 4
  }

  predicate IsUtf8(b: seq<byte>)
    decreases |b|
  {
    b == [] || (var k := Announced(b[0]); k <= |b| && IsCharacter(b[..k]) && IsUtf8(b[k..]))
  }

  function Numbers(b: seq<byte>): seq<nat>
    requires IsUtf8(b)
    decreases |b|
  {
    if b == [] then [] else [NumberOf(b[..Announced(b[0])])] + Numbers(b[Announced(b[0])..])
  }

  // ---- code units

  /** A pair of surrogates in front (section 2.1 of RFC 2781). */
  predicate StartsWithPair(s: seq<unit16>) {
    |s| >= 2 && 0xD800 <= s[0] <= 0xDBFF && 0xDC00 <= s[1] <= 0xDFFF
  }

  function PairNumber(high: nat, low: nat): int {
    0x1_0000 + (high - 0xD800) * 0x400 + (low - 0xDC00)
  }

  /** The numbers of the characters: pairs stand for one, every other unit for itself. */
  function Codes(s: seq<unit16>): seq<nat>
    decreases |s|
  {
    if s == [] then []
    else if StartsWithPair(s) then [PairNumber(s[0], s[1])] + Codes(s[2..])
    else [s[0]] + Codes(s[1..])
  }

  // ---- the encoding

  lemma {:induction false} PairedIs(s: seq<unit16>)
    ensures Paired(s) <==> StartsWithPair(s)
    ensures Paired(s) ==> CodePoint(s[0], s[1]) == PairNumber(s[0], s[1])
  {
  }

  /** Only one character has a number. */
  lemma {:induction false} NumberUnique(b: seq<byte>, c: seq<byte>)
    requires IsCharacter(b) && IsCharacter(c) && NumberOf(b) == NumberOf(c)
    ensures b == c
  {
    NumberRange(b);
    NumberRange(c);
    assert |b| == |c|;
  }

  /** The numbers of characters of one length. */
  lemma {:induction false} NumberRange(b: seq<byte>)
    requires IsCharacter(b)
    ensures |b| == 1 <==> NumberOf(b) < 0x80
    ensures |b| == 2 <==> 0x80 <= NumberOf(b) < 0x800
    ensures |b| == 3 <==> 0x800 <= NumberOf(b) < 0x1_0000
    ensures |b| == 4 <==> 0x1_0000 <= NumberOf(b) < 0x11_0000
    ensures |b| == Announced(b[0])
  {
  }

  lemma {:induction false} FirstIs(s: seq<unit16>)
    requires s != []
    ensures IsCharacter(FirstBytes(s)) && FirstUnits(s) == (if StartsWithPair(s) then 2 else 1)
    ensures NumberOf(FirstBytes(s)) == Codes(s)[0] && Codes(s)[1..] == Codes(s[FirstUnits(s)..])
  {
    PairedIs(s);
    var c: nat := s[0];
    if Paired(s) {
      var v := CodePoint(s[0], s[1]);
      FourIs(v);
    } else if c >= 0x800 {
      ThreeIs(c);
    }
  }

  lemma {:induction false} ThreeIs(c: nat)
    requires 0x800 <= c < 0x1_0000
    ensures IsCharacter([c / 0x1000 + 224, c / 0x40 % 0x40 + 128, c % 0x40 + 128])
    ensures NumberOf([c / 0x1000 + 224, c / 0x40 % 0x40 + 128, c % 0x40 + 128]) == c
  {
    ThreeGroups(c, c / 0x1000, c / 0x40 % 0x40, c % 0x40);
  }

  lemma {:induction false} FourIs(v: nat)
    requires 0x1_0000 <= v < 0x11_0000
    ensures IsCharacter([v / 0x4_0000 + 240, v / 0x1000 % 0x40 + 128, v / 0x40 % 0x40 + 128, v % 0x40 + 128])
    ensures NumberOf([v / 0x4_0000 + 240, v / 0x1000 % 0x40 + 128, v / 0x40 % 0x40 + 128, v % 0x40 + 128]) == v
  {
    FourGroups(v, v / 0x4_0000, v / 0x1000 % 0x40, v / 0x40 % 0x40, v % 0x40);
  }

  /** The encoding is the one well-formed byte string that stands for the characters of `s`. */
  lemma {:induction false} Utf8Exactly(s: seq<unit16>, b: seq<byte>)
    ensures IsUtf8(b) && Numbers(b) == Codes(s) <==> b == Utf8(s)
    decreases |s|
  {
    hide IsCharacter, NumberOf, Announced, FirstUnits, FirstBytes, StartsWithPair;
    if s != [] {
      var first, rest := FirstBytes(s), s[FirstUnits(s)..];
      FirstIs(s);
      NumberRange(first);
      var u := Utf8(s);
      assert u[..|first|] == first && u[|first|..] == Utf8(rest);
      Utf8Exactly(rest, Utf8(rest));
      assert Codes(s) == [Codes(s)[0]] + Codes(s)[1..];
      if b != [] && IsUtf8(b) && Numbers(b) == Codes(s) {
        var k := Announced(b[0]);
        assert Numbers(b)[0] == NumberOf(b[..k]) && Numbers(b)[1..] == Numbers(b[k..]);
        NumberUnique(b[..k], first);
        Utf8Exactly(rest, b[k..]);
        assert b == b[..k] + b[k..];
      }
    }
  }

  lemma {:induction false} FirstAscii(s: seq<unit16>, i: nat)
    requires s != [] && i < |FirstBytes(s)| && FirstBytes(s)[i] < 0x80
    ensures FirstBytes(s)[i] == s[0]
  {
    FirstIs(s);
    NumberRange(FirstBytes(s));
    assert |FirstBytes(s)| == 1;
  }

  /** A byte below 0x80 in the encoding is such a unit. */
  lemma {:induction false} AsciiOnly(s: seq<unit16>, i: nat)
    requires i < |Utf8(s)| && Utf8(s)[i] < 0x80
    ensures Utf8(s)[i] in s
    decreases |s|
  {
    hide FirstBytes, FirstUnits;
    var first, k := FirstBytes(s), FirstUnits(s);
    if i < |first| {
      FirstAscii(s, i);
    } else {
      var rest := s[k..];
      assert Utf8(s)[i] == Utf8(rest)[i - |first|];
      AsciiOnly(rest, i - |first|);
      var j :| 0 <= j < |rest| && rest[j] == Utf8(s)[i];
      assert s[k + j] == rest[j];
    }
  }
}
