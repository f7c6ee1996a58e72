/**
 * Account names: up to twelve 5-bit symbols and a thirteenth of 4 bits, packed from bit 63
 * down (packages/coin-eos/src/serialize.ts, `pushName` and `getName`).
 */
module EosName {
  import opened Wrappers
  import opened Numerals
  import opened JsInt

  /** The 32 name symbols: '.', '1'-'5', 'a'-'z'. */
  function SymbolOf(c: char): (n: nat)
    ensures n < 32
  {
    if 'a' <= c <= 'z' then c as int - 'a' as int + 6
    else if '1' <= c <= '5' then c as int - '1' as int + 1
    else 0
  }

  function CharOf(n: nat): (c: char)
    requires n < 32
  {
    if n >= 6 then (n + 'a' as int - 6) as char
    else if n >= 1 then (n + '1' as int - 1) as char
    else '.'
  }

  /** The symbols are '.', the digits 1 to 5 and the small letters, in the order of their codes. */
  lemma NameAlphabet(m: nat, n: nat, c: char)
    requires m < n < 32
    ensures CharOf(m) < CharOf(n)
    ensures c == CharOf(SymbolOf(c)) <==> c == '.' || '1' <= c <= '5' || 'a' <= c <= 'z'
  {
  }

  predicate IsNameChar(c: char) {
    c == '.' || '1' <= c <= '5' || 'a' <= c <= 'z'
  }

  /** The regular expression `^[.1-5a-z]{0,12}[.1-5a-j]?$`. */
  predicate IsName(s: string) {
    && |s| <= 13
    && (forall i :: 0 <= i < |s| ==> IsNameChar(s[i]))
    && (|s| == 13 ==> SymbolOf(s[12]) < 16)
  }

  /** The symbol that position `i` of a name contributes; absent positions read as '.'. */
  function SymbolAt(s: string, i: nat): (n: nat)
    ensures n < 32
  {
    if i < |s| then SymbolOf(s[i]) else 0
  }

  /** `(c >> j) & 1` for a symbol. */
  function SymbolBit(c: nat, j: nat): (b: nat)
    requires j < 5
    ensures b < 2
  {
    if j == 0 then c % 2
    else if j == 1 then c / 2 % 2
    else if j == 2 then c / 4 % 2
    else if j == 3 then c / 8 % 2
    else c / 16 % 2
  }

  /** Bit `k` of the packed form. Bit 63 is the top bit of symbol 0; the last symbol has only
      the four bits 3..0. */
  function NameBit(s: string, k: nat): (b: nat)
    requires k < 64
    ensures b < 2
  {
    var p := 63 - k;
    if p < 60 then SymbolBit(SymbolAt(s, p / 5), 4 - p % 5) else SymbolBit(SymbolAt(s, 12), k)
  }

  type bit = x: nat | x < 2

  /** Bit `k` of eight bytes, least significant byte first. */
  function BitAt(a: seq<byte>, k: nat): (b: bit)
    requires |a| == 8 && k < 64
  {
    Bit(a[k / 8], k % 8)
  }

  function BitsOf(a: seq<byte>): (b: seq<bit>)
    requires |a| == 8
    ensures |b| == 64
  {
    seq(64, k requires 0 <= k < 64 => BitAt(a, k))
  }

  /** The 64 bits of a packed name. */
  function NameBits(s: string): (b: seq<bit>)
    ensures |b| == 64
  {
    seq(64, k requires 0 <= k < 64 => NameBit(s, k))
  }

  predicate Packs(a: seq<byte>, s: string) {
    |a| == 8 && BitsOf(a) == NameBits(s)
  }

  /** Five bits, most significant first, as `c = (c << 1) | b` collects them. */
  function Join(b4: nat, b3: nat, b2: nat, b1: nat, b0: nat): (n: nat)
    ensures b4 < 2 && b3 < 2 && b2 < 2 && b1 < 2 && b0 < 2 ==> n < 32 && (b4 == 0 ==> n < 16)
  {
    2 * (2 * (2 * (2 * b4 + b3) + b2) + b1) + b0
  }

  /** Symbol `i` of 64 packed bits. */
  function Unpacked(b: seq<bit>, i: nat): (n: nat)
    requires |b| == 64 && i < 13
    ensures n < 32
    ensures i == 12 ==> n < 16
  {
    if i < 12 then
      var k := 63 - 5 * i;
      Join(b[k], b[k - 1], b[k - 2], b[k - 3], b[k - 4])
    else
      Join(0, b[3], b[2], b[1], b[0])
  }

  /** All thirteen characters, trailing dots included. */
  function Characters(a: seq<byte>): (s: string)
    requires |a| == 8
    ensures |s| == 13
  {
    seq(13, i requires 0 <= i < 13 => CharOf(Unpacked(BitsOf(a), i)))
  }

  function StripDots(s: string): (r: string)
    ensures |r| <= |s| && r == s[..|r|]
    ensures r != [] ==> r[|r| - 1] != '.'
    ensures forall i :: |r| <= i < |s| ==> s[i] == '.'
    decreases |s|
  {
    if s != [] && s[|s| - 1] == '.' then StripDots(s[..|s| - 1]) else s
  }

  /** What `getName` returns for eight bytes. */
  function NameOf(a: seq<byte>): string
    requires |a| == 8
  {
    StripDots(Characters(a))
  }

  // ---- single symbols

  lemma {:induction false} SymbolChar(n: nat, c: char)
    ensures n < 32 ==> SymbolOf(CharOf(n)) == n && IsNameChar(CharOf(n))
    ensures IsNameChar(c) ==> CharOf(SymbolOf(c)) == c
  {
  }

  /** A 5-bit number is the join of its bits. */
  lemma {:induction false} FiveBits(n: nat)
    requires n < 32
    ensures n == Join(SymbolBit(n, 4), SymbolBit(n, 3), SymbolBit(n, 2), SymbolBit(n, 1), SymbolBit(n, 0))
    ensures n < 16 ==> SymbolBit(n, 4) == 0
  {
  }

  /** And the bits of a join are the bits joined. */
  lemma {:induction false} BitsOfJoin(b4: nat, b3: nat, b2: nat, b1: nat, b0: nat, j: nat)
    requires b4 < 2 && b3 < 2 && b2 < 2 && b1 < 2 && b0 < 2 && j < 5
    ensures SymbolBit(Join(b4, b3, b2, b1, b0), j) ==
            if j == 0 then b0 else if j == 1 then b1 else if j == 2 then b2 else if j == 3 then b3 else b4
  {
  }

  /** The packed bit that round `j` of symbol `i` fills. */
  lemma {:induction false} NameBitAt(s: string, i: nat, j: nat)
    requires i < 12 && j < 5
    ensures NameBit(s, 63 - 5 * i - j) == SymbolBit(SymbolAt(s, i), 4 - j)
  {
    assert (5 * i + j) / 5 == i && (5 * i + j) % 5 == j;
    assert 63 - (63 - 5 * i - j) == 5 * i + j;
  }

  lemma {:induction false} UnpackedBit(b: seq<bit>, i: nat, j: nat)
    requires |b| == 64 && i < 12 && j < 5
    ensures SymbolBit(Unpacked(b, i), 4 - j) == b[63 - 5 * i - j]
  {
    var k := 63 - 5 * i;
    BitsOfJoin(b[k], b[k - 1], b[k - 2], b[k - 3], b[k - 4], 4 - j);
  }

  // ---- packing is determined by its bits

  lemma {:induction false} BytesDetermined(a: seq<byte>, b: seq<byte>)
    requires |a| == 8 && |b| == 8
    requires BitsOf(a) == BitsOf(b)
    ensures a == b
  {
    forall q | 0 <= q < 8
      ensures a[q] == b[q]
    {
      forall j | 0 <= j < 8
        ensures Bit(a[q], j) == Bit(b[q], j)
      {
        assert (8 * q + j) / 8 == q && (8 * q + j) % 8 == j;
        assert BitsOf(a)[8 * q + j] == BitsOf(b)[8 * q + j];
      }
      Two8();
      BitsDetermine(a[q], b[q], 8);
    }
  }

  // ---- the packed bytes as a function

  /** The number with the given bits, least significant first. */
  function FromBits(b: seq<bit>): (n: nat)
    ensures n < Pow(2, |b|)
    decreases |b|
  {
    if b == [] then 0 else b[0] as int + 2 * FromBits(b[1..])
  }

  lemma {:induction false} BitOfFromBits(b: seq<bit>, j: nat)
    requires j < |b|
    ensures Bit(FromBits(b), j) == b[j]
    decreases |b|
  {
    PartsIs(FromBits(b), FromBits(b[1..]), b[0] == 1);
    if j > 0 {
      BitOfFromBits(b[1..], j - 1);
    }
  }

  function ByteOf(b: seq<bit>, q: nat): byte
    requires |b| == 64 && q < 8
  {
    Two8();
    FromBits(b[8 * q..8 * q + 8])
  }

  /** What `pushName` appends. */
  function Pack(s: string): (a: seq<byte>)
    ensures |a| == 8
  {
    seq(8, q requires 0 <= q < 8 => ByteOf(NameBits(s), q))
  }

  lemma {:induction false} PackPacks(s: string)
    ensures Packs(Pack(s), s)
  {
    var a, b := Pack(s), NameBits(s);
    forall k | 0 <= k < 64
      ensures BitsOf(a)[k] == b[k]
    {
      var q, j := k / 8, k % 8;
      BitOfFromBits(b[8 * q..8 * q + 8], j);
      assert b[8 * q..8 * q + 8][j] == b[k];
    }
  }

  lemma {:induction false} PacksOnly(a: seq<byte>, s: string)
    requires Packs(a, s)
    ensures a == Pack(s)
  {
    PackPacks(s);
    BytesDetermined(a, Pack(s));
  }

  // ---- the bijection

  /** Unpacking recovers every symbol of a packed name. */
  lemma {:induction false} UnpackNameBits(s: string, i: nat)
    requires IsName(s) && i < 13
    ensures Unpacked(NameBits(s), i) == SymbolAt(s, i)
  {
    var n := SymbolAt(s, i);
    if i < 12 {
      NameBitsAt(s, i, NameBits(s), n);
    } else {
      LastBitsAt(s, NameBits(s), n);
    }
    FiveBits(n);
  }

  lemma {:induction false} NameBitsAt(s: string, i: nat, b: seq<bit>, n: nat)
    requires i < 12 && b == NameBits(s) && n == SymbolAt(s, i)
    ensures Unpacked(b, i) == Join(SymbolBit(n, 4), SymbolBit(n, 3), SymbolBit(n, 2), SymbolBit(n, 1), SymbolBit(n, 0))
  {
    hide NameBit, SymbolAt, SymbolBit, Join;
    var k := 63 - 5 * i;
    assert b[k] == SymbolBit(n, 4) by { NameBitAt(s, i, 0); }
    assert b[k - 1] == SymbolBit(n, 3) by { NameBitAt(s, i, 1); }
    assert b[k - 2] == SymbolBit(n, 2) by { NameBitAt(s, i, 2); }
    assert b[k - 3] == SymbolBit(n, 1) by { NameBitAt(s, i, 3); }
    assert b[k - 4] == SymbolBit(n, 0) by { NameBitAt(s, i, 4); }
  }

  lemma {:induction false} LastBitsAt(s: string, b: seq<bit>, n: nat)
    requires b == NameBits(s) && n == SymbolAt(s, 12)
    ensures Unpacked(b, 12) == Join(0, SymbolBit(n, 3), SymbolBit(n, 2), SymbolBit(n, 1), SymbolBit(n, 0))
  {
  }

  /** Reading a packed name gives the name without its trailing dots, for every accepted name. */
  lemma {:induction false} NameOfPacked(s: string)
    requires IsName(s)
    ensures NameOf(Pack(s)) == StripDots(s)
  {
    var a := Pack(s);
    PackPacks(s);
    var t := Characters(a);
    forall i | 0 <= i < 13
      ensures t[i] == if i < |s| then s[i] else '.'
    {
      UnpackNameBits(s, i);
      if i < |s| {
        SymbolChar(0, s[i]);
      }
    }
    StripDotsUnique(t, s);
  }

  /** Two strings that agree up to trailing dots strip to the same string. */
  lemma {:induction false} StripDotsUnique(t: string, s: string)
    requires |t| >= |s|
    requires forall i :: 0 <= i < |t| ==> t[i] == if i < |s| then s[i] else '.'
    ensures StripDots(t) == StripDots(s)
    decreases |t|
  {
    if |t| > |s| {
      StripDotsUnique(t[..|t| - 1], s);
    } else {
      assert t == s;
    }
  }

  /** Packing the name read from eight bytes gives those eight bytes: all of them, including every
      value of the 4-bit thirteenth symbol. */
  lemma {:induction false} PackNameOf(a: seq<byte>)
    requires |a| == 8
    ensures Pack(NameOf(a)) == a
  {
    var s := NameOf(a);
    forall k | 0 <= k < 64
      ensures NameBits(s)[k] == BitsOf(a)[k]
    {
      NameOfBit(a, (63 - k) / 5, (63 - k) % 5);
    }
    PacksOnly(a, s);
  }

  /** The name read from eight bytes has their bits. */
  lemma {:induction false} NameOfBit(a: seq<byte>, i: nat, j: nat)
    requires |a| == 8 && j < 5 && 5 * i + j < 64
    ensures NameBits(NameOf(a))[63 - 5 * i - j] == BitsOf(a)[63 - 5 * i - j]
  {
    hide NameOf, Unpacked, SymbolAt, BitsOf;
    NameSymbol(a, i);
    if i < 12 {
      NameBitAt(NameOf(a), i, j);
      UnpackedBit(BitsOf(a), i, j);
    } else {
      LastBit(BitsOf(a), 3 - j);
    }
  }

  lemma {:induction false} LastBit(b: seq<bit>, k: nat)
    requires |b| == 64 && k < 4
    ensures SymbolBit(Unpacked(b, 12), k) == b[k]
  {
    BitsOfJoin(0, b[3], b[2], b[1], b[0], k);
  }

  lemma {:induction false} NameSymbol(a: seq<byte>, i: nat)
    requires |a| == 8 && i < 13
    ensures SymbolAt(NameOf(a), i) == Unpacked(BitsOf(a), i)
    ensures i < |NameOf(a)| ==> IsNameChar(NameOf(a)[i])
  {
    var t := Characters(a);
    SymbolChar(Unpacked(BitsOf(a), i), '.');
    assert t[i] == CharOf(Unpacked(BitsOf(a), i));
    if i >= |NameOf(a)| {
      assert t[i] == '.';
    }
  }

  /** Every eight bytes read as an accepted name without trailing dots, so `pushName` takes it back. */
  lemma {:induction false} NameOfAccepted(a: seq<byte>)
    requires |a| == 8
    ensures IsName(NameOf(a)) && StripDots(NameOf(a)) == NameOf(a)
  {
    forall i | 0 <= i < |NameOf(a)|
      ensures IsNameChar(NameOf(a)[i])
    {
      NameSymbol(a, i);
    }
    NameSymbol(a, 12);
    var s := NameOf(a);
    if s != [] {
      assert s[|s| - 1] != '.';
    }
  }

  // ---- the loops

  /** `a[floor(bit / 8)] |= b << bit % 8`, on a bit that is still clear. */
  method SetBit(a: array<byte>, bit: nat, b: nat)
    requires a.Length == 8 && bit < 64 && b < 2
    requires BitsOf(a[..])[bit] == 0
    modifies a
    ensures BitsOf(a[..]) == old(BitsOf(a[..]))[bit := b]
  {
    var p := Pow(2, bit % 8);
    ghost var was := a[..];
    assert b * p < 256 && a[bit / 8] < 256 by {
      Two7();
      PowMono(2, bit % 8, 7);
      MulMono(b, 1, p);
    }
    Two8();
    OrBelow(a[bit / 8], b * p, 8);
    a[bit / 8] := OrN(a[bit / 8], b * p);
    forall k | 0 <= k < 64
      ensures BitsOf(a[..])[k] == BitsOf(was)[bit := b][k]
    {
      if k / 8 == bit / 8 {
        assert k == bit <==> k % 8 == bit % 8;
        BitOr(was[bit / 8], b * p, k % 8);
        BitShifted(b, bit % 8, k % 8, p);
      }
    }
  }

  /** The bits above `bit` are those of the name, and the others still clear. */
  predicate Filled(b: seq<bit>, s: string, bit: int) {
    && |b| == 64 && -1 <= bit < 64 && b[bit + 1..] == NameBits(s)[bit + 1..]
    && (forall k :: 0 <= k <= bit ==> b[k] == 0)
  }

  /** `pushName`'s packing; `None` stands for the exception on a rejected name. */
  method PackName(s: string) returns (r: Option<seq<byte>>)
    ensures r.Some? <==> IsName(s)
    ensures r.Some? ==> r.value == Pack(s)
  {
    hide BitsOf, NameBits, Filled, Pack, SymbolOf;
    if !IsName(s) {
      return None;
    }
    var a := new byte[8](_ => 0);
    FilledStart(a[..], s);
    var bit := 63;
    for i := 0 to |s|
      invariant bit == if i < 13 then 63 - 5 * i else -1
      invariant Filled(BitsOf(a[..]), s, bit)
    {
      bit := PackSymbol(a, s, i, bit);
    }
    FilledAll(a[..], s, bit);
    return Some(a[..]);
  }

  /** The inner loop: up to five bits from bit `top` down. */
  method PackSymbol(a: array<byte>, s: string, i: nat, top: int) returns (bit: int)
    requires a.Length == 8 && i < |s| <= 13 && top == 63 - 5 * i && Filled(BitsOf(a[..]), s, top)
    modifies a
    ensures bit == (if i < 12 then top - 5 else -1) && Filled(BitsOf(a[..]), s, bit)
  {
    hide BitsOf, NameBits, NameBit, Filled, SymbolBit;
    bit := top;
    var c := SymbolOf(s[i]);
    if bit < 5 {
      c := c * 2;
    }
    var j := 4;
    while j >= 0
      invariant -1 <= j <= 4
      invariant bit == if top - (4 - j) >= -1 then top - (4 - j) else -1
      invariant Filled(BitsOf(a[..]), s, bit)
    {
      if bit >= 0 {
        PackStep(s, i, j, bit, c);
        FilledBit(BitsOf(a[..]), s, bit);
        SetBit(a, bit, SymbolBit(c, j));
        bit := bit - 1;
      }
      j := j - 1;
    }
  }

  lemma {:induction false} FilledStart(a: seq<byte>, s: string)
    requires |a| == 8 && forall i :: 0 <= i < 8 ==> a[i] == 0
    ensures Filled(BitsOf(a), s, 63)
  {
    forall k | 0 <= k < 64
      ensures BitsOf(a)[k] == 0
    {
      BitZero(k % 8);
    }
  }

  /** The next bit, with the name's bit put in. */
  lemma {:induction false} FilledBit(b: seq<bit>, s: string, k: nat)
    requires k < 64 && Filled(b, s, k)
    ensures |b| == 64 && b[k] == 0 && Filled(b[k := NameBit(s, k)], s, k - 1)
  {
    assert NameBits(s)[k] == NameBit(s, k);
    AddBit(b, NameBits(s), k);
  }

  lemma {:induction false} FilledAll(a: seq<byte>, s: string, bit: int)
    requires |a| == 8 && |s| <= 13 && Filled(BitsOf(a), s, bit) && bit == if |s| < 13 then 63 - 5 * |s| else -1
    ensures a == Pack(s)
  {
    forall k | 0 <= k < 64
      ensures BitsOf(a)[k] == NameBits(s)[k]
    {
      if k <= bit {
        AbsentSymbol(s, k);
      } else {
        assert BitsOf(a)[bit + 1..][k - bit - 1] == NameBits(s)[bit + 1..][k - bit - 1];
      }
    }
    PacksOnly(a, s);
  }

  lemma {:induction false} AddBit(b: seq<bit>, target: seq<bit>, k: nat)
    requires |b| == |target| && k < |b| && b[k + 1..] == target[k + 1..]
    ensures b[k := target[k]][k..] == target[k..]
  {
    assert target[k..] == [target[k]] + target[k + 1..];
    assert b[k := target[k]][k..] == [target[k]] + b[k + 1..];
  }

  lemma {:induction false} PackStep(s: string, i: nat, j: nat, bit: nat, c: nat)
    requires i < |s| <= 13 && j < 5 && bit < 64 && bit + 5 * i + 4 - j == 63
    requires c == if i == 12 then SymbolOf(s[i]) * 2 else SymbolOf(s[i])
    ensures SymbolBit(c, j) == NameBit(s, bit)
  {
    var p := 5 * i + 4 - j;
    assert p == 63 - bit;
    if i == 12 {
      assert bit == j - 1;
    } else {
      assert p / 5 == i && p % 5 == 4 - j;
    }
  }

  lemma {:induction false} AbsentSymbol(s: string, k: nat)
    requires k < 64 && |s| <= 13 && k + 5 * |s| <= 63
    ensures NameBit(s, k) == 0
  {
    var p := 63 - k;
    assert (if p < 60 then p / 5 else 12) >= |s|;
  }

  /** `(a[floor(bit / 8)] >> bit % 8) & 1` */
  method TestBit(a: seq<byte>, k: nat) returns (b: nat)
    requires |a| == 8 && k < 64
    ensures b == BitsOf(a)[k]
  {
    b := BitAt(a, k);
  }

  /** The inner loop of `getName`: up to five bits from bit `top` down. */
  method ReadSymbol(a: seq<byte>, top: nat) returns (c: nat, bit: int)
    requires |a| == 8 && top < 64
    ensures c == PartialSymbol(BitsOf(a), top, 5)
    ensures bit == if top >= 4 then top - 5 else -1
  {
    c, bit := 0, top;
    ghost var bits := BitsOf(a);
    for i := 0 to 5
      invariant bit == if top - i >= -1 then top - i else -1
      invariant c == PartialSymbol(bits, top, i)
    {
      if bit >= 0 {
        var b := TestBit(a, bit);
        c := c * 2 + b;
        bit := bit - 1;
      }
    }
  }

  /** `getName`'s unpacking. */
  method UnpackName(a: seq<byte>) returns (result: string)
    requires |a| == 8
    ensures result == NameOf(a)
  {
    result := "";
    var bit: int := 63;
    ghost var n := 0;
    ghost var all := Characters(a);
    while bit >= 0
      invariant 0 <= n <= 13 && bit == if n < 13 then 63 - 5 * n else -1
      invariant result == all[..n]
      decreases bit
    {
      PartialIs(BitsOf(a), n);
      var c: nat;
      c, bit := ReadSymbol(a, bit);
      assert all[..n + 1] == all[..n] + [all[n]];
      result := result + [CharOf(c)];
      n := n + 1;
    }
    assert result == all;
    while result != [] && result[|result| - 1] == '.'
      invariant StripDots(result) == StripDots(all)
      decreases |result|
    {
      result := result[..|result| - 1];
    }
  }

  /** The value of `c` after `i` rounds of the inner loop started at bit `top`. */
  function PartialSymbol(b: seq<bit>, top: nat, i: nat): nat
    requires |b| == 64 && top < 64
    decreases i
  {
    if i == 0 then 0
    else if top - (i - 1) >= 0 then PartialSymbol(b, top, i - 1) * 2 + b[top - (i - 1)]
    else PartialSymbol(b, top, i - 1)
  }

  lemma {:induction false} PartialIs(b: seq<bit>, n: nat)
    requires |b| == 64 && n < 13
    ensures PartialSymbol(b, 63 - 5 * n, 5) == Unpacked(b, n)
  {
    var top := 63 - 5 * n;
    assert PartialSymbol(b, top, 1) == b[top];
    assert PartialSymbol(b, top, 2) == PartialSymbol(b, top, 1) * 2 + b[top - 1];
    assert PartialSymbol(b, top, 3) == PartialSymbol(b, top, 2) * 2 + b[top - 2];
    assert PartialSymbol(b, top, 4) == PartialSymbol(b, top, 3) * 2 + b[top - 3];
  }
}
