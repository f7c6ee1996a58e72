/**
 * Rune names (packages/coin-bitcoin/src/runestones.ts): names as numbers in bijective base 26, and spacers
 * between letters as a bit mask.
 */
module RuneNames {
  import opened Wrappers
  import opened Numerals
  import opened JsInt
  import opened JsBytes

  // ---- bijective base 26

  predicate IsLetter(c: char) {
    'A' <= c <= 'Z'
  }

  predicate IsName(s: string) {
    forall i :: 0 <= i < |s| ==> IsLetter(s[i])
  }

  /** `charCodeAt(i) - 'A'.charCodeAt(0)` */
  function Code(c: char): int {
    c as int - 'A' as int
  }

  /** The number of a name, counted from one; the empty name is zero. */
  function Rank(s: string): int
    decreases |s|
  {
    if s == [] then 0 else 26 * Rank(s[..|s| - 1]) + Code(s[|s| - 1]) + 1
  }

  /** The number that stands for a name. */
  function NameNumber(s: string): int {
    if s == [] then 0 else Rank(s) - 1
  }

  /** The name with a number. */
  function NameAt(m: nat): (s: string)
    ensures IsName(s) && (m > 0 ==> s != [])
    decreases m
  {
    if m == 0 then [] else NameAt((m - 1) / 26) + [('A' as int + (m - 1) % 26) as char]
  }

  lemma {:induction false} RankName(m: nat)
    ensures Rank(NameAt(m)) == m
    decreases m
  {
    if m > 0 {
      RankName((m - 1) / 26);
      var s := NameAt(m);
      assert s[..|s| - 1] == NameAt((m - 1) / 26);
    }
  }

  lemma {:induction false} NameRank(s: string)
    requires IsName(s)
    ensures Rank(s) >= 0 && NameAt(Rank(s)) == s
    decreases |s|
  {
    if s != [] {
      var front, c := s[..|s| - 1], s[|s| - 1];
      NameRank(front);
      DivModUnique(Rank(s) - 1, 26, Rank(front), Code(c));
      assert s == front + [c];
    }
  }

  /** `base26Encode` */
  method Base26Encode(input: string) returns (result: int)
    ensures result == NameNumber(input)
  {
    result := 0;
    for i := 0 to |input|
      invariant result == if i == |input| > 0 then Rank(input) - 1 else Pow(26, |input| - i) * Rank(input[..i])
    {
      var charCode := Code(input[i]);
      var iInv := |input| - 1 - i;
      assert input[..i + 1][..i] == input[..i];
      var r := Rank(input[..i]);
      if iInv == 0 {
        assert input[..i + 1] == input && Pow(26, 1) == 26 * Pow(26, 0);
        result := result + charCode;
      } else {
        var base := Pow(26, iInv);
        Regroup(base, r, charCode + 1);
        result := result + base * (charCode + 1);
      }
    }
  }

  lemma {:induction false} Regroup(base: nat, r: int, c: int)
    ensures 26 * base * r + base * c == base * (26 * r + c)
  {
    Distribute(base, 26 * r, c);
    Associate(base, 26, r);
  }

  lemma {:induction false} RankFour(s: string)
    requires |s| == 4
    ensures Rank(s) == 17576 * Code(s[0]) + 676 * Code(s[1]) + 26 * Code(s[2]) + Code(s[3]) + 18279
  {
    assert s[..3][..2] == s[..2] && s[..2][..1] == s[..1] && s[..1][..0] == [];
    assert Rank(s[..1]) == Code(s[0]) + 1;
    assert Rank(s[..2]) == 26 * Rank(s[..1]) + Code(s[1]) + 1;
    assert Rank(s[..3]) == 26 * Rank(s[..2]) + Code(s[2]) + 1;
  }

  lemma {:induction false} RankAppend(s: string, t: string)
    requires |t| == 4
    ensures Rank(s + t) == 456976 * Rank(s) + (17576 * Code(t[0]) + 676 * Code(t[1]) + 26 * Code(t[2]) + Code(t[3]) + 18279)
  {
    var u := s + t;
    var n := |s|;
    assert u[..n + 3][..n + 2] == u[..n + 2] && u[..n + 2][..n + 1] == u[..n + 1] && u[..n + 1][..n] == u[..n] == s;
    assert Rank(u[..n + 1]) == 26 * Rank(s) + Code(t[0]) + 1;
    assert Rank(u[..n + 2]) == 26 * Rank(u[..n + 1]) + Code(t[1]) + 1;
    assert Rank(u[..n + 3]) == 26 * Rank(u[..n + 2]) + Code(t[2]) + 1;
  }

  /** The largest 128-bit number is answered from a constant, which is its name. */
  lemma {:induction false} LargestName()
    ensures IsName("BCGDENLQRQWDSLRUGSNLBTMFIJAV")
    ensures Rank("BCGDENLQRQWDSLRUGSNLBTMFIJAV") == 340282366920938463463374607431768211456
  {
    hide Rank;
    var s1: string := "BCGD";
    RankFour(s1);
    var s2 := s1 + "ENLQ";
    RankAppend(s1, "ENLQ");
    assert Rank(s2) == 17075462889;
    var s3 := s2 + "RQWD";
    RankAppend(s2, "RQWD");
    assert Rank(s3) == 7803076729492126;
    var s4 := s3 + "SLRU";
    RankAppend(s3, "SLRU");
    assert Rank(s4) == 3565818791536394113521;
    var s5 := s4 + "GSNL";
    RankAppend(s4, "GSNL");
    assert Rank(s5) == 1629493608081135236420508748;
    var s6 := s5 + "BTMF";
    RankAppend(s5, "BTMF");
    assert Rank(s6) == 744639471046484855798498405675064;
    var s7 := s6 + "IJAV";
    RankAppend(s6, "IJAV");
    assert Rank(s7) == 340282366920938463463374607431768211456;
    assert s7 == "BCGDENLQRQWDSLRUGSNLBTMFIJAV";
  }

  /** `base26Decode` */
  method Base26Decode(s0: nat) returns (name: string)
    ensures name == NameAt(s0 + 1)
  {
    if s0 == 340282366920938463463374607431768211455 {
      LargestName();
      NameRank("BCGDENLQRQWDSLRUGSNLBTMFIJAV");
      return "BCGDENLQRQWDSLRUGSNLBTMFIJAV";
    }
    var s: nat := s0 + 1;
    var symbol: string := [];
    while s > 0
      invariant NameAt(s0 + 1) == NameAt(s) + Reverse(symbol)
      decreases s
    {
      var i := (s - 1) % 26;
      var c := "ABCDEFGHIJKLMNOPQRSTUVWXYZ"[i];
      assert c == ('A' as int + i) as char;
      ConcatAssoc(NameAt((s - 1) / 26), [c], Reverse(symbol));
      ReverseConcat(symbol, [c]);
      assert Reverse([c]) == [c];
      symbol := symbol + [c];
      s := (s - 1) / 26;
    }
    assert NameAt(s) == [] && [] + Reverse(symbol) == Reverse(symbol);
    return Reverse(symbol);
  }

  /** Names and numbers correspond one to one, both ways. */
  lemma {:induction false} NamesAndNumbers(s: string, n: nat)
    requires IsName(s) && s != []
    ensures NameNumber(s) >= 0 && NameAt(NameNumber(s) + 1) == s
    ensures NameAt(n + 1) != [] && NameNumber(NameAt(n + 1)) == n
  {
    NameRank(s);
    RankName(n + 1);
  }

  // ---- spacers

  predicate IsSpacer(c: char) {
    c == '\U{2022}' || c == '.'
  }

  predicate NoSpacers(s: string) {
    forall i :: 0 <= i < |s| ==> !IsSpacer(s[i])
  }

  /** `removeSpacers` */
  function RemoveSpacers(s: string): (r: string)
    ensures NoSpacers(r)
    decreases |s|
  {
    if s == [] then [] else (if IsSpacer(s[0]) then [] else [s[0]]) + RemoveSpacers(s[1..])
  }

  /** Letters with a spacer after each whose bit is set. */
  function Spaced(s: string, mask: nat): string
    decreases |s|
  {
    if s == [] then [] else [s[0]] + ((if mask % 2 == 1 then ['\U{2022}'] else []) + Spaced(s[1..], mask / 2))
  }

  /** What a spacer adds after `k` letters: `1 << (k - 1)`. */
  function SpacerBit(k: nat): int {
    Shl(1, (k + 31) % 32)
  }

  /** The value of the spacers in `s` when `k` letters precede. */
  function SpacersFrom(s: string, k: nat): int
    decreases |s|
  {
    if s == [] then 0
    else if IsSpacer(s[0]) then SpacerBit(k) + SpacersFrom(s[1..], k)
    else SpacersFrom(s[1..], k + 1)
  }

  /** The spacers that `1 << 31` makes negative: those after a multiple of 32 letters, leading ones included. */
  function NegativeBits(s: string, k: nat): nat
    decreases |s|
  {
    if s == [] then 0
    else if IsSpacer(s[0]) then (if k % 32 == 0 then 1 else 0) + NegativeBits(s[1..], k)
    else NegativeBits(s[1..], k + 1)
  }

  /** The bits of all other spacers, added up. */
  function PositiveBits(s: string, k: nat): nat
    decreases |s|
  {
    if s == [] then 0
    else if IsSpacer(s[0]) then (if k % 32 == 0 then 0 else Pow(2, k % 32 - 1)) + PositiveBits(s[1..], k)
    else PositiveBits(s[1..], k + 1)
  }

  function LeadingSpacers(s: string): nat
    decreases |s|
  {
    if s == [] || !IsSpacer(s[0]) then 0 else 1 + LeadingSpacers(s[1..])
  }

  /** What `applySpacers` makes of any number: the shift takes it to a signed 32-bit word, and a number that is
      not positive adds no more spacers. */
  function Applied(s: string, mask: int): string
    decreases |s|
  {
    if s == [] then []
    else if mask <= 0 then s
    else [s[0]] + ((if mask % 2 == 1 then ['\U{2022}'] else []) + Applied(s[1..], Sar(mask, 1)))
  }

  /** `applySpacers` */
  method ApplySpacers(str: string, mask: int) returns (res: string)
    ensures res == Applied(str, mask)
  {
    hide Sar, And;
    res := [];
    var spacers := mask;
    assert str[0..] == str;
    for i := 0 to |str|
      invariant res + Applied(str[i..], spacers) == Applied(str, mask)
    {
      ghost var more := str[i..];
      assert more[0] == str[i] && more[1..] == str[i + 1..];
      if spacers > 0 {
        ghost var rest := Applied(str[i + 1..], Sar(spacers, 1));
        AppendStep(res, str[i], (if spacers % 2 == 1 then ['\U{2022}'] else []) + rest);
        res := res + [str[i]];
        LowestBit(spacers);
        var bit := And(spacers, 1);
        if bit == 1 {
          AppendStep(res, '\U{2022}', rest);
          res := res + ['\U{2022}'];
        } else {
          assert [] + rest == rest;
        }
        spacers := Sar(spacers, 1);
      } else {
        assert more == [str[i]] + str[i + 1..];
        AppendStep(res, str[i], str[i + 1..]);
        res := res + [str[i]];
        assert Applied(str[i + 1..], spacers) == str[i + 1..];
      }
    }
    assert str[|str|..] == [] && res + [] == res;
  }

  lemma {:induction false} LowestBit(x: nat)
    ensures And(x, 1) == x % 2
  {
    Two1();
    MaskIs(x, ToUint32(x), 1, 2);
    FloorUnique(x, 2, 0x8000_0000 * (x / 0x1_0000_0000) + ToUint32(x) / 2, ToUint32(x) % 2);
  }

  /** Below 2^31 the shift halves. */
  lemma {:induction false} AppliedSpaced(s: string, mask: nat)
    requires mask < 0x8000_0000
    ensures Applied(s, mask) == Spaced(s, mask)
    decreases |s|
  {
    if s != [] {
      hide Sar;
      Halved(mask);
      AppliedSpaced(s[1..], mask / 2);
      if mask == 0 {
        AppliedSpaced(s[1..], 0);
        assert s == [s[0]] + s[1..] && [] + s[1..] == s[1..];
      }
    }
  }

  lemma {:induction false} Halved(mask: nat)
    requires mask < 0x8000_0000
    ensures Sar(mask, 1) == mask / 2
  {
    Two1();
    SarIs(mask, 1, 2);
  }

  /** `getSpacersVal` */
  method GetSpacersVal(str: string) returns (res: int)
    ensures res == SpacersFrom(str, 0)
  {
    res := 0;
    var spacersCnt: nat := 0;
    assert str[0..] == str;
    for i := 0 to |str|
      invariant spacersCnt <= i && res + SpacersFrom(str[i..], i - spacersCnt) == SpacersFrom(str, 0)
    {
      assert str[i..][0] == str[i] && str[i..][1..] == str[i + 1..];
      if IsSpacer(str[i]) {
        res := res + SpacerBit(i - spacersCnt);
        spacersCnt := spacersCnt + 1;
      }
    }
    assert str[|str|..] == [];
  }

  lemma {:induction false} SpacerBitIs(k: nat)
    requires 0 < k <= 31
    ensures SpacerBit(k) == Pow(2, k - 1)
  {
    hide Shl, Pow;
    var p := Pow(2, k - 1);
    assert (k + 31) % 32 == k - 1;
    SmallBit(k - 1);
    ShlIs(1, k - 1, p);
    FloorUnique(p, 0x1_0000_0000, 0, p);
    ShlRange(1, k - 1);
    SmallWord(Shl(1, k - 1));
  }

  lemma {:induction false} TopBit()
    ensures Shl(1, 31) == -0x8000_0000
  {
    hide Shl;
    Two31();
    ShlIs(1, 31, 0x8000_0000);
    ShlRange(1, 31);
  }

  /** The bit of a spacer after any number of letters. */
  lemma {:induction false} AnySpacerBit(k: nat)
    ensures SpacerBit(k) == if k % 32 == 0 then -0x8000_0000 else Pow(2, k % 32 - 1)
  {
    hide Shl, Pow;
    if k % 32 == 0 {
      TopBit();
    } else {
      assert (k + 31) % 32 == (k % 32 + 31) % 32;
      SpacerBitIs(k % 32);
    }
  }

  /** `getSpacersVal` for every string. */
  lemma {:induction false} SpacersSplit(s: string, k: nat)
    ensures SpacersFrom(s, k) == PositiveBits(s, k) - 0x8000_0000 * NegativeBits(s, k)
    decreases |s|
  {
    hide SpacerBit, Pow;
    if s != [] {
      AnySpacerBit(k);
      if IsSpacer(s[0]) {
        SpacersSplit(s[1..], k);
      } else {
        SpacersSplit(s[1..], k + 1);
      }
    }
  }

  /** With fewer than 32 letters only leading spacers are negative. */
  lemma {:induction false} FewLetters(s: string, k: nat)
    requires k + |RemoveSpacers(s)| < 32
    ensures NegativeBits(s, k) == if k == 0 then LeadingSpacers(s) else 0
    decreases |s|
  {
    if s != [] {
      if IsSpacer(s[0]) {
        FewLetters(s[1..], k);
      } else {
        FewLetters(s[1..], k + 1);
      }
    }
  }

  lemma ShlRange(x: int, k: nat)
    ensures -0x8000_0000 <= Shl(x, k) < 0x8000_0000
  {
  }

  lemma {:induction false} SmallBit(k: nat)
    requires k <= 30
    ensures Pow(2, k) < 0x8000_0000
  {
    PowMono(2, k, 30);
    Two31();
    assert Pow(2, 31) == 2 * Pow(2, 30);
  }

  /** The spacer after the first letter, and the rest. */
  lemma {:induction false} SpacedFirst(s: string, mask: nat, k: nat)
    requires s != [] && !IsSpacer(s[0])
    ensures SpacersFrom(Spaced(s, mask), k)
            == (if mask % 2 == 1 then SpacerBit(k + 1) else 0) + SpacersFrom(Spaced(s[1..], mask / 2), k + 1)
  {
    hide SpacerBit;
    var rest := Spaced(s[1..], mask / 2);
    var dot: string := if mask % 2 == 1 then ['\U{2022}'] else [];
    assert Spaced(s, mask)[1..] == dot + rest;
    if mask % 2 == 1 {
      assert (dot + rest)[1..] == rest && (dot + rest)[0] == '\U{2022}';
    } else {
      assert dot + rest == rest;
    }
  }

  /** The mask that comes back: the bits that have a letter. */
  lemma {:induction false} SpacedMask(s: string, mask: nat, k: nat)
    requires NoSpacers(s) && mask * Pow(2, k) < 0x8000_0000
    ensures SpacersFrom(Spaced(s, mask), k) == Pow(2, k) * (mask % Pow(2, |s|))
    decreases |s|
  {
    if s == [] {
      assert mask % Pow(2, 0) == 0;
    } else {
      hide SpacersFrom, Spaced, SpacerBit, NoSpacers;
      var p, q := Pow(2, k), Pow(2, |s| - 1);
      HalfMask(mask, p);
      TailLetters(s);
      SpacedMask(s[1..], mask / 2, k + 1);
      SpacedFirst(s, mask, k);
      if mask % 2 == 1 {
        SmallPower(k, p, mask);
        SpacerBitIs(k + 1);
      }
      assert Pow(2, k + 1) == 2 * p && Pow(2, |s|) == 2 * q;
      hide Pow;
      MaskStep(p, q, mask, SpacersFrom(Spaced(s[1..], mask / 2), k + 1));
    }
  }

  lemma TailLetters(s: string)
    requires s != [] && NoSpacers(s)
    ensures !IsSpacer(s[0]) && NoSpacers(s[1..])
  {
  }

  lemma {:induction false} MaskStep(p: nat, q: nat, mask: nat, rest: int)
    requires q > 0 && rest == (2 * p) * ((mask / 2) % q)
    ensures (if mask % 2 == 1 then p else 0) + rest == p * (mask % (2 * q))
  {
    ModDouble(mask, q);
    MaskSum(p, mask % 2, (mask / 2) % q);
  }

  lemma {:induction false} HalfMask(mask: nat, p: nat)
    requires mask * p < 0x8000_0000
    ensures mask / 2 * (2 * p) < 0x8000_0000
  {
    var h := mask / 2;
    Associate(h, 2, p);
    MulMono(h * 2, mask, p);
  }

  lemma {:induction false} SmallPower(k: nat, p: nat, mask: nat)
    requires p == Pow(2, k) && mask >= 1 && mask * p < 0x8000_0000
    ensures k + 1 <= 31
  {
    MulMono(1, mask, p);
    if k >= 31 {
      PowMono(2, 31, k);
      Two31();
    }
  }

  lemma {:induction false} MaskSum(p: nat, low: nat, high: nat)
    ensures p * low + (2 * p) * high == p * (low + 2 * high)
  {
    Distribute(p, low, 2 * high);
    Associate(p, 2, high);
  }

  lemma {:induction false} SpacedRead(s: string, mask: nat)
    requires NoSpacers(s) && mask < 0x8000_0000
    ensures SpacersFrom(Spaced(s, mask), 0) == mask <==> mask < Pow(2, |s|)
  {
    assert Pow(2, 0) == 1;
    SpacedMask(s, mask, 0);
    var p := Pow(2, |s|);
    if mask < p {
      FloorUnique(mask, p, 0, mask);
    }
  }

  lemma {:induction false} RemoveApplied(s: string, mask: int)
    requires NoSpacers(s)
    ensures RemoveSpacers(Applied(s, mask)) == s
    decreases |s|
  {
    if s != [] {
      if mask <= 0 {
        NothingRemoved(s);
      } else {
        var dot: string := if mask % 2 == 1 then ['\U{2022}'] else [];
        var rest := Applied(s[1..], Sar(mask, 1));
        RemoveApplied(s[1..], Sar(mask, 1));
        assert Applied(s, mask)[1..] == dot + rest;
        if mask % 2 == 1 {
          assert (dot + rest)[1..] == rest && (dot + rest)[0] == '\U{2022}';
        } else {
          assert dot + rest == rest;
        }
      }
    }
  }

  lemma {:induction false} NothingRemoved(s: string)
    requires NoSpacers(s)
    ensures RemoveSpacers(s) == s && forall k: nat :: SpacersFrom(s, k) == 0
    decreases |s|
  {
    if s != [] {
      NothingRemoved(s[1..]);
      assert s == [s[0]] + s[1..];
    }
  }

  lemma {:induction false} AppliedFirst(s: string, mask: int)
    requires s != [] && !IsSpacer(s[0]) && mask > 0
    ensures SpacersFrom(Applied(s, mask), 0)
            == (if mask % 2 == 1 then SpacerBit(1) else 0) + SpacersFrom(Applied(s[1..], Sar(mask, 1)), 1)
  {
    hide Sar, SpacerBit;
    var rest := Applied(s[1..], Sar(mask, 1));
    var dot: string := if mask % 2 == 1 then ['\U{2022}'] else [];
    assert Applied(s, mask)[1..] == dot + rest;
    if mask % 2 == 1 {
      assert (dot + rest)[1..] == rest && (dot + rest)[0] == '\U{2022}';
    } else {
      assert dot + rest == rest;
    }
  }

  /** The part of a mask after its lowest bit reads as no more than it is. */
  lemma {:induction false} RestBounded(s: string, half: int)
    requires NoSpacers(s) && half < 0x4000_0000
    ensures SpacersFrom(Applied(s, half), 1) <= if half <= 0 then 0 else 2 * half
  {
    hide SpacersFrom;
    if half <= 0 {
      NothingRemoved(s);
      assert SpacersFrom(s, 1) == 0;
    } else {
      AppliedSpaced(s, half);
      assert Pow(2, 1) == 2 * Pow(2, 0) == 2;
      SpacedMask(s, half, 1);
      var q := Pow(2, |s|);
      Reduced(half, q);
      assert SpacersFrom(Spaced(s, half), 1) == 2 * (half % q);
    }
  }

  /** A mask from 2^31 on, or a negative one, is never read back. */
  lemma {:induction false} LargeMask(s: string, mask: int)
    requires NoSpacers(s) && (mask < 0 || mask >= 0x8000_0000)
    ensures SpacersFrom(Applied(s, mask), 0) != mask
  {
    if s == [] || mask < 0 {
      NothingRemoved(s);
    } else {
      hide SpacersFrom, Applied, Sar, SpacerBit;
      TailLetters(s);
      AppliedFirst(s, mask);
      HalfRange(mask);
      RestBounded(s[1..], Sar(mask, 1));
      SpacerBitIs(1);
      assert Pow(2, 0) == 1;
    }
  }

  lemma {:induction false} HalfRange(x: int)
    ensures -0x4000_0000 <= Sar(x, 1) < 0x4000_0000
  {
    Two1();
  }

  lemma Reduced(x: nat, p: nat)
    requires p > 0
    ensures x % p <= x
  {
  }

  /** Applying spacers never loses a letter, and the mask comes back exactly when it has at most 31 bits and
      every set bit has a letter. */
  lemma {:induction false} SpacersRoundTrip(s: string, mask: int)
    requires NoSpacers(s)
    ensures RemoveSpacers(Applied(s, mask)) == s
    ensures SpacersFrom(Applied(s, mask), 0) == mask <==> 0 <= mask < 0x8000_0000 && mask < Pow(2, |s|)
  {
    RemoveApplied(s, mask);
    if 0 <= mask < 0x8000_0000 {
      AppliedSpaced(s, mask);
      SpacedRead(s, mask);
    } else {
      LargeMask(s, mask);
    }
  }
}
