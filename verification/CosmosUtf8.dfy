/**
 * The UTF-8 codec of packages/coin-cosmos/src/utf8.ts on sequences of 16-bit code units. Surrogate
 * pairs take four bytes and a surrogate on its own three. The reader collects units in an array that
 * it reuses after every flush without shortening it; `ReadBack` says exactly when that is harmless.
 */
module CosmosUtf8 {
  import opened Wrappers
  import opened Numerals
  import opened JsInt
  import opened JsBytes
  import opened CosmosVarint

  predicate High(c: unit16) {
    c / 0x400 == 54
  }

  predicate Low(c: unit16) {
    c / 0x400 == 55
  }

  /** A surrogate pair at the front. */
  predicate Paired(s: seq<unit16>) {
    |s| >= 2 && High(s[0]) && Low(s[1])
  }

  /** The code point of a pair. */
  function CodePoint(c1: unit16, c2: unit16): (v: nat)
    requires High(c1) && Low(c2)
    ensures 0x1_0000 <= v < 0x11_0000
  {
    0x1_0000 + c1 % 0x400 * 0x400 + c2 % 0x400
  }

  /** The bytes of the first character. */
  function FirstBytes(s: seq<unit16>): (b: seq<byte>)
    requires s != []
    ensures 1 <= |b| <= 4
  {
    var c := s[0];
    if c < 0x80 then [c]
    else if c < 0x800 then [c / 0x40 + 192, c % 0x40 + 128]
    else if Paired(s) then
      var v := CodePoint(c, s[1]);
      [v / 0x4_0000 + 240, v / 0x1000 % 0x40 + 128, v / 0x40 % 0x40 + 128, v % 0x40 + 128]
    else [c / 0x1000 + 224, c / 0x40 % 0x40 + 128, c % 0x40 + 128]
  }

  /** How many units the first character takes. */
  function FirstUnits(s: seq<unit16>): (k: nat)
    requires s != []
    ensures 1 <= k <= |s|
  {
    if Paired(s) then 2 else 1
  }

  /** The encoding of a sequence of code units. */
  function Utf8(s: seq<unit16>): seq<byte>
    decreases |s|
  {
    if s == [] then [] else FirstBytes(s) + Utf8(s[FirstUnits(s)..])
  }

  // ---- utf8Length

  /** `(c & 0xfc00) === v * 0x400`, where a missing unit counts as zero. */
  lemma {:induction false} TopSix(c: unit16)
    ensures And(c, 0xfc00) == c / 0x400 * 0x400
  {
    Two10();
    HighMask(c, 10, 0x400, 0x3f);
  }

  /** A mask of bits from `k` up, wide enough for `c`. */
  lemma {:induction false} HighMask(c: nat, k: nat, p: nat, m: nat)
    requires p == Pow(2, k) && k == 10 && c < 0x1_0000 && m == 0x3f && p == 0x400
    ensures And(c, m * p) == c / p * p
  {
    var x := c / p;
    assert AndN(c, m * p) == AndN(x, m) * p by { AndShifted(c, m, k, p); }
    assert AndN(x, 0x3f) == x by {
      Two6();
      AndMask(x, 6, 0x40);
      FloorUnique(x, 0x40, 0, x);
    }
    AndIs(c, m * p, c, m * p);
  }

  lemma {:induction false} AndShifted(c: nat, m: nat, k: nat, p: nat)
    requires p == Pow(2, k)
    ensures AndN(c, m * p) == AndN(c / p, m) * p
    decreases k
  {
    if k == 0 {
      assert c / 1 == c && m * 1 == m;
    } else {
      var h := Pow(2, k - 1);
      AndShifted(Half(c), m, k - 1, h);
      DivDiv(c, 2, h);
      AndShiftedStep(c, m, h, p, AndN(Half(c) / h, m));
    }
  }

  lemma {:induction false} AndShiftedStep(c: nat, m: nat, h: nat, p: nat, z: nat)
    requires h > 0 && p == 2 * h && AndN(Half(c), m * h) == z * h
    ensures AndN(c, m * p) == z * p
  {
    Associate(m, 2, h);
    Associate(2, m, h);
    var w := m * h;
    PartsIs(m * p, w, false);
    Associate(z, 2, h);
    Associate(2, z, h);
    if c == 0 || m * p == 0 {
      assert AndN(Half(c), w) == 0;
    }
  }

  /** The test for a surrogate pair at position `i`. */
  method IsPair(str: seq<unit16>, i: nat) returns (r: bool)
    requires i < |str|
    ensures r <==> Paired(str[i..])
  {
    TopSix(str[i]);
    if And(str[i], 0xfc00) != 0xd800 || i + 1 >= |str| {
      return false;
    }
    TopSix(str[i + 1]);
    return And(str[i + 1], 0xfc00) == 0xdc00;
  }

  lemma {:induction false} Utf8Step(str: seq<unit16>, i: nat)
    requires i < |str|
    ensures |Utf8(str[i..])| == (var c := str[i];
      if c < 0x80 then 1 else if c < 0x800 then 2 else if Paired(str[i..]) then 4 else 3)
      + |Utf8(str[i + (if Paired(str[i..]) then 2 else 1)..])|
    ensures Paired(str[i..]) ==> str[i] >= 0x800 && i + 2 <= |str|
  {
    assert str[i..][FirstUnits(str[i..])..] == str[i + FirstUnits(str[i..])..];
  }

  lemma EmptyUtf8()
    ensures Utf8([]) == []
  {
  }

  /** `utf8Length` is the length of the encoding. */
  method Utf8Length(str: seq<unit16>) returns (len: nat)
    ensures len == |Utf8(str)|
  {
    hide Utf8, Paired;
    len := 0;
    var i := 0;
    EmptyUtf8();
    assert str[0..] == str && str[|str|..] == [];
    while i < |str|
      invariant i <= |str| && len + |Utf8(str[i..])| == |Utf8(str)|
    {
      var c := str[i];
      assert str[i..][0] == c;
      var pair := IsPair(str, i);
      Utf8Step(str, i);
      if c < 128 {
        len := len + 1;
      } else if c < 2048 {
        len := len + 2;
      } else if pair {
        i := i + 1;
        len := len + 4;
      } else {
        len := len + 3;
      }
      i := i + 1;
    }
  }

  // ---- utf8Write

  /** `(c >> k) | mark` for a leading byte. */
  lemma {:induction false} LeadByte(c: nat, k: nat, p: nat, j: nat, q: nat, m: nat)
    requires c < 0x8000_0000 && k < 32 && p == Pow(2, k) && q == Pow(2, j) && c / p < q && m * q < 0x100
    ensures Or(Sar(c, k), m * q) == c / p + m * q
  {
    hide Or, Sar, Pow;
    SarIs(c, k, p);
    SmallQuotient(c, p);
    SelfWord(c / p);
    SelfWord(m * q);
    OrJoin(c / p, m * q, c / p, m, j, q);
    OrRange(c / p, m * q);
    SmallWord(Or(c / p, m * q));
  }

  lemma {:induction false} SmallQuotient(c: nat, p: nat)
    requires p > 0
    ensures c / p <= c
  {
    var q := c / p;
    assert c == p * q + c % p;
    MulMono(1, p, q);
  }

  /** `((c >> k) & 63) | 128` for a following byte. */
  lemma {:induction false} NextByte(c: nat, k: nat, p: nat)
    requires c < 0x8000_0000 && k < 32 && p == Pow(2, k)
    ensures Or(And(Sar(c, k), 63), 128) == c / p % 64 + 128
  {
    hide Or, And, Sar, Pow;
    SarIs(c, k, p);
    SmallQuotient(c, p);
    SelfWord(c / p);
    Two6();
    MaskIs(c / p, c / p, 6, 64);
    var d := c / p % 64;
    SelfWord(d);
    OrJoin(d, 128, d, 2, 6, 64);
    OrRange(d, 128);
    SmallWord(Or(d, 128));
  }

  lemma {:induction false} TwoBytes(c: nat)
    requires c < 0x800
    ensures Or(Sar(c, 6), 192) == c / 0x40 + 192 && Or(And(c, 63), 128) == c % 0x40 + 128
  {
    hide Or, And, Sar;
    assert Or(Sar(c, 6), 192) == c / 0x40 + 192 by {
      Two6();
      Two5();
      LeadByte(c, 6, 0x40, 5, 32, 6);
    }
    LastByte(c);
  }

  /** `(c & 63) | 128` */
  lemma {:induction false} LastByte(c: nat)
    requires c < 0x8000_0000
    ensures Or(And(c, 63), 128) == c % 64 + 128
  {
    NextByte(c, 0, 1);
    assert Sar(c, 0) == c;
  }

  lemma {:induction false} ThreeBytes(c: nat)
    requires c < 0x1_0000
    ensures Or(Sar(c, 12), 224) == c / 0x1000 + 224
    ensures Or(And(Sar(c, 6), 63), 128) == c / 0x40 % 0x40 + 128
    ensures Or(And(c, 63), 128) == c % 0x40 + 128
  {
    hide Or, And, Sar;
    assert Or(Sar(c, 12), 224) == c / 0x1000 + 224 by {
      Two12();
      Two4();
      LeadByte(c, 12, 0x1000, 4, 16, 14);
    }
    Two6();
    NextByte(c, 6, 0x40);
    LastByte(c);
  }

  lemma {:induction false} FourBytes(v: nat)
    requires v < 0x11_0000
    ensures Or(Sar(v, 18), 240) == v / 0x4_0000 + 240
    ensures Or(And(Sar(v, 12), 63), 128) == v / 0x1000 % 0x40 + 128
    ensures Or(And(Sar(v, 6), 63), 128) == v / 0x40 % 0x40 + 128
    ensures Or(And(v, 63), 128) == v % 0x40 + 128
  {
    hide Or, And, Sar;
    assert Or(Sar(v, 18), 240) == v / 0x4_0000 + 240 by {
      Two18();
      Two4();
      LeadByte(v, 18, 0x4_0000, 4, 16, 15);
    }
    Two12();
    NextByte(v, 12, 0x1000);
    Two6();
    NextByte(v, 6, 0x40);
    LastByte(v);
  }

  /** `0x10000 + ((c1 & 0x03ff) << 10) + (c2 & 0x03ff)` */
  lemma {:induction false} PairPoint(c1: unit16, c2: unit16)
    requires High(c1) && Low(c2)
    ensures 0x1_0000 + Shl(And(c1, 0x3ff), 10) + And(c2, 0x3ff) == CodePoint(c1, c2)
  {
    hide And, Shl, Pow;
    Two10();
    MaskIs(c1, c1, 10, 0x400);
    MaskIs(c2, c2, 10, 0x400);
    var d := c1 % 0x400;
    ShlIs(d, 10, 0x400);
    FloorUnique(d * 0x400, 0x1_0000_0000, 0, d * 0x400);
    ShlRange(d, 10);
    SmallWord(Shl(d, 10));
  }

  lemma ShlRange(x: int, k: nat)
    ensures -0x8000_0000 <= Shl(x, k) < 0x8000_0000
  {
  }

  /** The bytes that one iteration writes, in the source's operators, and the units it consumes. */
  method Character(str: seq<unit16>, i: nat) returns (b: seq<byte>, k: nat)
    requires i < |str|
    ensures b == FirstBytes(str[i..]) && k == FirstUnits(str[i..])
  {
    hide And, Or, Sar, Shl;
    var c1: nat := str[i];
    assert str[i..][0] == c1;
    var pair := IsPair(str, i);
    k := 1;
    if c1 < 128 {
      b := [c1];
    } else if c1 < 2048 {
      TwoBytes(c1);
      b := [Or(Sar(c1, 6), 192), Or(And(c1, 63), 128)];
    } else if pair {
      var c2: nat := str[i + 1];
      PairPoint(c1, c2);
      var v := 0x1_0000 + Shl(And(c1, 0x03ff), 10) + And(c2, 0x03ff);
      k := 2;
      FourBytes(v);
      b := [Or(Sar(v, 18), 240), Or(And(Sar(v, 12), 63), 128), Or(And(Sar(v, 6), 63), 128), Or(And(v, 63), 128)];
    } else {
      ThreeBytes(c1);
      b := [Or(Sar(c1, 12), 224), Or(And(Sar(c1, 6), 63), 128), Or(And(c1, 63), 128)];
    }
  }

  /** `utf8Write` places the encoding at `offset`, touches nothing else, and returns its length. */
  method Utf8Write(str: seq<unit16>, buffer: array<byte>, start: nat) returns (n: nat)
    requires start + |Utf8(str)| <= buffer.Length
    modifies buffer
    ensures n == |Utf8(str)| && buffer[..] == Placed(old(buffer[..]), start, Utf8(str))
  {
    hide FirstBytes, FirstUnits, Placed;
    ghost var full := Utf8(str);
    ghost var was := buffer[..];
    PlacedNone(was, start);
    var offset, i := start, 0;
    assert str[0..] == str;
    while i < |str|
      invariant i <= |str| && start <= offset <= start + |full|
      invariant full[offset - start..] == Utf8(str[i..])
      invariant buffer[..] == Placed(was, start, full[..offset - start])
    {
      var b, k := Character(str, i);
      ghost var at := offset - start;
      assert str[i..][k..] == str[i + k..];
      assert full[at..] == b + Utf8(str[i + k..]);
      WriteAll(buffer, offset, b);
      PlacedMore(was, start, full, at, b);
      offset := offset + |b|;
      i := i + k;
    }
    n := offset - start;
    assert full[n..] == [] && full[..n] == full;
  }

  /** The `buffer[offset++] = ...` statements of one iteration. */
  method WriteAll(buffer: array<byte>, offset: nat, b: seq<byte>)
    requires offset + |b| <= buffer.Length
    modifies buffer
    ensures buffer[..] == Placed(old(buffer[..]), offset, b)
  {
    forall j | 0 <= j < |b| {
      buffer[offset + j] := b[j];
    }
    PlacedAt(old(buffer[..]), offset, b, buffer[..]);
  }

  lemma {:induction false} PlacedMore(was: seq<byte>, pos: nat, full: seq<byte>, i: nat, b: seq<byte>)
    requires i + |b| <= |full| && pos + |full| <= |was| && full[i..][..|b|] == b
    ensures full[i..][|b|..] == full[i + |b|..]
    ensures Placed(Placed(was, pos, full[..i]), pos + i, b) == Placed(was, pos, full[..i + |b|])
  {
    var next := full[..i + |b|];
    assert next[..i] == full[..i] && next[i..] == b;
    PlacedRest(was, pos, next, i);
  }

  // ---- utf8Read

  /** A byte of the buffer; past its end the source reads `undefined`, which counts as zero. */
  function ByteAt(b: seq<byte>, i: nat): byte {
    if i < |b| then b[i] else 0
  }

  /** The units read at position `at`, and the position after them. */
  function DecodeAt(b: seq<byte>, at: nat): (r: (seq<unit16>, nat))
    ensures 1 <= |r.0| <= 2 && r.1 > at
  {
    var t := ByteAt(b, at);
    var n1, n2, n3 := ByteAt(b, at + 1) % 64, ByteAt(b, at + 2) % 64, ByteAt(b, at + 3) % 64;
    if t < 128 then ([t], at + 1)
    else if 191 < t < 224 then ([t % 32 * 0x40 + n1], at + 2)
    else if t > 239 then
      var v: int := t % 8 * 0x4_0000 + n1 * 0x1000 + n2 * 0x40 + n3 - 0x1_0000;
      ([(0xd800 + v / 0x400) % 0x1_0000, 0xdc00 + v % 0x400], at + 4)
    else ([t % 16 * 0x1000 + n1 * 0x40 + n2], at + 3)
  }

  /** The characters of the bytes from `at` to `end`, as groups of one or two units. */
  function Groups(b: seq<byte>, at: nat, end: nat): (g: seq<seq<unit16>>)
    ensures forall k :: 0 <= k < |g| ==> 1 <= |g[k]| <= 2
    decreases end - at
  {
    if at >= end then [] else [DecodeAt(b, at).0] + Groups(b, DecodeAt(b, at).1, end)
  }

  function Flat(g: seq<seq<unit16>>): seq<unit16>
    decreases |g|
  {
    if g == [] then [] else g[0] + Flat(g[1..])
  }

  /** `chunk[i++] = x` for each unit: appended, or written over what an earlier round left. */
  function Fill(chunk: seq<unit16>, i: nat, x: seq<unit16>): (c: seq<unit16>)
    requires i <= |chunk| && |x| <= 2
    ensures i + |x| <= |c| && c[..i] == chunk[..i] && c[i..i + |x|] == x
    ensures |c| == if i + |x| > |chunk| then i + |x| else |chunk|
  {
    chunk[..i] + x + (if i + |x| < |chunk| then chunk[i + |x|..] else [])
  }

  /** What the reader delivers: after every flush the array keeps its length, and a flush takes all of it. */
  function ReadBack(g: seq<seq<unit16>>, chunk: seq<unit16>, i: nat): seq<unit16>
    requires i <= |chunk| && forall k :: 0 <= k < |g| ==> 1 <= |g[k]| <= 2
    decreases |g|
  {
    if g == [] then chunk[..i]
    else
      var c, j := Fill(chunk, i, g[0]), i + |g[0]|;
      if j > 8191 then c + ReadBack(g[1..], c, 0) else ReadBack(g[1..], c, j)
  }

  /** No flush takes stale units: the array is never longer than what the flush collected. Depends on the
      group sizes alone; `i` units are collected in an array of length `len`. */
  predicate Clean(g: seq<seq<unit16>>, len: nat, i: nat)
    decreases |g|
  {
    if g == [] then true
    else
      var j := i + |g[0]|;
      var len' := if j > len then j else len;
      if j > 8191 then len' == j && Clean(g[1..], len', 0) else Clean(g[1..], len', j)
  }

  /** The reader returns the decoded units exactly when every flush is clean. */
  lemma {:induction false} ReadBackExact(g: seq<seq<unit16>>, chunk: seq<unit16>, i: nat)
    requires i <= |chunk| && forall k :: 0 <= k < |g| ==> 1 <= |g[k]| <= 2
    ensures |ReadBack(g, chunk, i)| >= i + |Flat(g)|
    ensures ReadBack(g, chunk, i) == chunk[..i] + Flat(g) <==> Clean(g, |chunk|, i)
    decreases |g|
  {
    if g == [] {
      assert chunk[..i] + [] == chunk[..i];
    } else {
      var c, j := Fill(chunk, i, g[0]), i + |g[0]|;
      var rest := Flat(g[1..]);
      assert c[..j] == chunk[..i] + g[0];
      ConcatAssoc(chunk[..i], g[0], rest);
      if j > 8191 {
        ReadBackExact(g[1..], c, 0);
        var r := ReadBack(g[1..], c, 0);
        assert c[..0] + rest == rest;
        if |c| == j {
          assert c == c[..j];
          if c + r == c + rest {
            assert (c + r)[|c|..] == r && (c + rest)[|c|..] == rest;
          }
        } else {
          assert |c + r| > |chunk[..i] + Flat(g)|;
        }
      } else {
        ReadBackExact(g[1..], c, j);
      }
    }
  }

  /** With fewer than 16384 units in all, every flush is clean. */
  lemma {:induction false} ShortIsClean(g: seq<seq<unit16>>)
    requires (forall k :: 0 <= k < |g| ==> 1 <= |g[k]| <= 2) && |Flat(g)| < 16384
    ensures Clean(g, 0, 0)
  {
    FirstRound(g, 0);
  }

  lemma {:induction false} FirstRound(g: seq<seq<unit16>>, i: nat)
    requires (forall k :: 0 <= k < |g| ==> 1 <= |g[k]| <= 2) && i <= 8191 && i + |Flat(g)| < 16384
    ensures Clean(g, i, i)
    decreases |g|
  {
    if g != [] {
      var j := i + |g[0]|;
      if j > 8191 {
        LastRound(g[1..], j, 0);
      } else {
        FirstRound(g[1..], j);
      }
    }
  }

  lemma {:induction false} LastRound(g: seq<seq<unit16>>, len: nat, i: nat)
    requires (forall k :: 0 <= k < |g| ==> 1 <= |g[k]| <= 2) && i + |Flat(g)| < 8192 <= len
    ensures Clean(g, len, i)
    decreases |g|
  {
    if g != [] {
      LastRound(g[1..], len, i + |g[0]|);
    }
  }

  /** Without pairs every flush is clean. */
  lemma {:induction false} UnpairedIsClean(g: seq<seq<unit16>>, len: nat, i: nat)
    requires (forall k :: 0 <= k < |g| ==> |g[k]| == 1) && i <= 8191 && (len == i || len == 8192)
    ensures Clean(g, len, i)
    decreases |g|
  {
    if g != [] {
      UnpairedIsClean(g[1..], if i == 8191 then 8192 else if len == i then i + 1 else len, if i == 8191 then 0 else i + 1);
    }
  }

  /** `((x & m) << k)` for a small field. */
  lemma {:induction false} FieldAt(x: byte, j: nat, q: nat, k: nat, p: nat)
    requires q == Pow(2, j) && q <= 0x100 && p == Pow(2, k) && k < 32 && p <= 0x100_0000
    ensures And(x, q - 1) == x % q && ToUint32(Shl(And(x, q - 1), k)) == x % q * p
  {
    hide And, Shl, Pow;
    SelfWord(x);
    MaskIs(x, x, j, q);
    ShlByte(x % q, k, p);
  }

  /** Joining `d << k` with bits below `k`. */
  lemma {:induction false} JoinField(hi: int, lo: int, h: nat, u: nat, k: nat, p: nat)
    requires ToUint32(hi) == h * p && ToUint32(lo) == u < p && p == Pow(2, k) && u + h * p < 0x8000_0000
    ensures Or(hi, lo) == u + h * p
  {
    hide Or, ToUint32, Pow;
    OrJoin(lo, hi, u, h, k, p);
    OrRange(hi, lo);
    SmallWord(Or(hi, lo));
  }

  lemma {:induction false} JoinTwo(t: byte, n1: byte)
    ensures Or(Shl(And(t, 31), 6), And(n1, 63)) == t % 32 * 0x40 + n1 % 64
  {
    hide Or, And, Shl, Pow;
    Two6();
    Two5();
    FieldAt(t, 5, 32, 6, 0x40);
    FieldAt(n1, 6, 64, 6, 0x40);
    SelfWord(n1 % 64);
    JoinField(Shl(And(t, 31), 6), And(n1, 63), t % 32, n1 % 64, 6, 0x40);
  }

  lemma {:induction false} JoinThree(t: byte, n1: byte, n2: byte)
    ensures Or(Or(Shl(And(t, 15), 12), Shl(And(n1, 63), 6)), And(n2, 63)) == t % 16 * 0x1000 + n1 % 64 * 0x40 + n2 % 64
  {
    hide Or, And, Shl, Pow;
    Two6();
    Two4();
    Two12();
    FieldAt(t, 4, 16, 12, 0x1000);
    FieldAt(n1, 6, 64, 6, 0x40);
    FieldAt(n2, 6, 64, 6, 0x40);
    var a, b, c: nat := t % 16, n1 % 64, n2 % 64;
    SelfWord(c);
    JoinField(Shl(And(t, 15), 12), Shl(And(n1, 63), 6), a, b * 0x40, 12, 0x1000);
    var w := a * 0x1000 + b * 0x40;
    SelfWord(w);
    JoinField(w, And(n2, 63), a * 0x40 + b, c, 6, 0x40);
  }

  lemma {:induction false} JoinFour(t: byte, n1: byte, n2: byte, n3: byte)
    ensures Or(Or(Or(Shl(And(t, 7), 18), Shl(And(n1, 63), 12)), Shl(And(n2, 63), 6)), And(n3, 63))
            == t % 8 * 0x4_0000 + n1 % 64 * 0x1000 + n2 % 64 * 0x40 + n3 % 64
  {
    hide Or, And, Shl, Pow;
    Two3();
    Two6();
    Two12();
    Two18();
    FieldAt(t, 3, 8, 18, 0x4_0000);
    FieldAt(n1, 6, 64, 12, 0x1000);
    FieldAt(n2, 6, 64, 6, 0x40);
    FieldAt(n3, 6, 64, 6, 0x40);
    var a, b, c, d: nat := t % 8, n1 % 64, n2 % 64, n3 % 64;
    SelfWord(d);
    JoinField(Shl(And(t, 7), 18), Shl(And(n1, 63), 12), a, b * 0x1000, 18, 0x4_0000);
    var v := a * 0x4_0000 + b * 0x1000;
    SelfWord(v);
    JoinField(v, Shl(And(n2, 63), 6), a * 0x40 + b, c * 0x40, 12, 0x1000);
    var w := v + c * 0x40;
    SelfWord(w);
    JoinField(w, And(n3, 63), a * 0x1000 + b * 0x40 + c, d, 6, 0x40);
  }

  /** `t >> 10` and `t & 1023` */
  lemma {:induction false} PairOf(v: int)
    requires -0x1_0000 <= v < 0x20_0000
    ensures Sar(v, 10) == v / 0x400 && And(v, 1023) == v % 0x400
  {
    hide And;
    Two10();
    SarIs(v, 10, 0x400);
    MaskIs(v, ToUint32(v), 10, 0x400);
    var q := v / 0x1_0000_0000;
    FloorUnique(v, 0x400, ToUint32(v) / 0x400 + 0x40_0000 * q, ToUint32(v) % 0x400);
  }

  /** The units that one iteration stores, in the source's operators, and the position after it. */
  method ReadCharacter(buffer: seq<byte>, at: nat) returns (x: seq<unit16>, start: nat)
    ensures (x, start) == DecodeAt(buffer, at)
  {
    hide And, Or, Shl, Sar;
    var t := ByteAt(buffer, at);
    start := at + 1;
    if t < 128 {
      x := [t];
    } else if t > 191 && t < 224 {
      JoinTwo(t, ByteAt(buffer, start));
      x := [Or(Shl(And(t, 31), 6), And(ByteAt(buffer, start), 63))];
      start := start + 1;
    } else if t > 239 && t < 365 {
      var n1, n2, n3 := ByteAt(buffer, start), ByteAt(buffer, start + 1), ByteAt(buffer, start + 2);
      JoinFour(t, n1, n2, n3);
      var v := Or(Or(Or(Shl(And(t, 7), 18), Shl(And(n1, 63), 12)), Shl(And(n2, 63), 6)), And(n3, 63)) - 0x1_0000;
      PairOf(v);
      x := [(0xd800 + Sar(v, 10)) % 0x1_0000, (0xdc00 + And(v, 1023)) % 0x1_0000];
      start := start + 3;
    } else {
      var n1, n2 := ByteAt(buffer, start), ByteAt(buffer, start + 1);
      JoinThree(t, n1, n2);
      x := [Or(Or(Shl(And(t, 15), 12), Shl(And(n1, 63), 6)), And(n2, 63))];
      start := start + 2;
    }
  }

  /** `utf8Read`, with the reused `chunk`; `parts` is kept joined. */
  method Utf8Read(buffer: seq<byte>, from: nat, end: nat) returns (s: seq<unit16>)
    ensures s == ReadBack(Groups(buffer, from, end), [], 0)
  {
    hide DecodeAt, Fill;
    if end < from + 1 {
      return [];
    }
    var chunk: seq<unit16>, parts: seq<unit16> := [], [];
    var start: nat, i: nat := from, 0;
    ghost var all := ReadBack(Groups(buffer, from, end), [], 0);
    while start < end
      invariant i <= |chunk| && all == parts + ReadBack(Groups(buffer, start, end), chunk, i)
      decreases end - start
    {
      ghost var g := Groups(buffer, start, end);
      var x, next := ReadCharacter(buffer, start);
      assert g[0] == x && g[1..] == Groups(buffer, next, end);
      chunk := Fill(chunk, i, x);
      i := i + |x|;
      start := next;
      if i > 8191 {
        ConcatAssoc(parts, chunk, ReadBack(g[1..], chunk, 0));
        parts := parts + chunk;
        i := 0;
      }
    }
    s := parts + chunk[..i];
  }

  // ---- round trip

  /** The characters of a sequence of units. */
  function Characters(s: seq<unit16>): (g: seq<seq<unit16>>)
    ensures forall k :: 0 <= k < |g| ==> 1 <= |g[k]| <= 2
    decreases |s|
  {
    if s == [] then [] else [s[..FirstUnits(s)]] + Characters(s[FirstUnits(s)..])
  }

  lemma {:induction false} CharactersFlat(s: seq<unit16>)
    ensures Flat(Characters(s)) == s
    decreases |s|
  {
    if s != [] {
      CharactersFlat(s[FirstUnits(s)..]);
    }
  }

  /** Decoding the bytes of one character, wherever they stand. */
  lemma {:induction false} DecodeFirst(s: seq<unit16>, b: seq<byte>, at: nat)
    requires s != [] && at + |FirstBytes(s)| <= |b| && b[at..at + |FirstBytes(s)|] == FirstBytes(s)
    ensures DecodeAt(b, at) == (s[..FirstUnits(s)], at + |FirstBytes(s)|)
  {
    var f := FirstBytes(s);
    forall k | 0 <= k < |f|
      ensures ByteAt(b, at + k) == f[k]
    {
      assert b[at..at + |f|][k] == b[at + k];
    }
    assert ByteAt(b, at + 0) == f[0];
    var c := s[0];
    if Paired(s) {
      assert ByteAt(b, at + 1) == f[1] && ByteAt(b, at + 2) == f[2] && ByteAt(b, at + 3) == f[3];
      DecodePair(c, s[1], CodePoint(c, s[1]), b, at);
      assert s[..2] == [c, s[1]];
    } else {
      assert |f| > 1 ==> ByteAt(b, at + 1) == f[1];
      assert |f| > 2 ==> ByteAt(b, at + 2) == f[2];
      DecodeSingle(c, f, b, at);
      assert s[..1] == [c];
    }
  }

  lemma {:induction false} DecodeSingle(c: unit16, f: seq<byte>, b: seq<byte>, at: nat)
    requires f == if c < 0x80 then [c]
                  else if c < 0x800 then [c / 0x40 + 192, c % 0x40 + 128]
                  else [c / 0x1000 + 224, c / 0x40 % 0x40 + 128, c % 0x40 + 128]
    requires forall k :: 0 <= k < |f| ==> ByteAt(b, at + k) == f[k]
    requires ByteAt(b, at) == f[0] && (|f| > 1 ==> ByteAt(b, at + 1) == f[1]) && (|f| > 2 ==> ByteAt(b, at + 2) == f[2])
    ensures DecodeAt(b, at) == ([c], at + |f|)
  {
    hide ByteAt;
    if c >= 0x800 {
      ThreeGroups(c, c / 0x1000, c / 0x40 % 0x40, c % 0x40);
    }
  }

  lemma {:induction false} ThreeGroups(c: unit16, x: nat, y: nat, z: nat)
    requires x == c / 0x1000 && y == c / 0x40 % 0x40 && z == c % 0x40
    ensures x < 16 && (x + 224) % 16 == x && (y + 128) % 64 == y && (z + 128) % 64 == z
    ensures c == x * 0x1000 + y * 0x40 + z
  {
    var a := c / 0x40;
    assert c == 0x40 * a + z;
    FloorUnique(c, 0x1000, a / 0x40, y * 0x40 + z);
  }

  lemma {:induction false} DecodePair(c1: unit16, c2: unit16, v: nat, b: seq<byte>, at: nat)
    requires High(c1) && Low(c2) && v == CodePoint(c1, c2)
    requires ByteAt(b, at) == v / 0x4_0000 + 240 && ByteAt(b, at + 1) == v / 0x1000 % 0x40 + 128
    requires ByteAt(b, at + 2) == v / 0x40 % 0x40 + 128 && ByteAt(b, at + 3) == v % 0x40 + 128
    ensures DecodeAt(b, at) == ([c1, c2], at + 4)
  {
    hide ByteAt;
    var w, x, y, z := v / 0x4_0000, v / 0x1000 % 0x40, v / 0x40 % 0x40, v % 0x40;
    FourGroups(v, w, x, y, z);
    FollowBits(w, x, y, z);
    FloorUnique(v - 0x1_0000, 0x400, c1 % 0x400, c2 % 0x400);
    assert c1 == 0xd800 + c1 % 0x400 && c2 == 0xdc00 + c2 % 0x400;
  }

  lemma {:induction false} FourGroups(v: nat, w: nat, x: nat, y: nat, z: nat)
    requires v < 0x11_0000
    requires w == v / 0x4_0000 && x == v / 0x1000 % 0x40 && y == v / 0x40 % 0x40 && z == v % 0x40
    ensures w < 8 && v == w * 0x4_0000 + x * 0x1000 + y * 0x40 + z
  {
    var a, b := v / 0x40, v / 0x1000;
    assert v == 0x40 * a + z;
    FloorUnique(v, 0x1000, a / 0x40, a % 0x40 * 0x40 + z);
    assert a == 0x40 * b + y;
    FloorUnique(v, 0x4_0000, b / 0x40, b % 0x40 * 0x1000 + y * 0x40 + z);
    assert b == 0x40 * w + x;
  }

  lemma FollowBits(w: nat, x: nat, y: nat, z: nat)
    requires w < 8 && x < 64 && y < 64 && z < 64
    ensures (w + 240) % 8 == w && (x + 128) % 64 == x && (y + 128) % 64 == y && (z + 128) % 64 == z
  {
  }

  /** The bytes of a sequence decode to its characters. */
  lemma {:induction false} GroupsOfUtf8(s: seq<unit16>, b: seq<byte>, at: nat)
    requires at + |Utf8(s)| == |b| && b[at..] == Utf8(s)
    ensures Groups(b, at, |b|) == Characters(s)
    decreases |s|
  {
    hide FirstBytes, FirstUnits, DecodeAt;
    if s != [] {
      var f, rest := FirstBytes(s), s[FirstUnits(s)..];
      assert b[at..][..|f|] == f && b[at..][|f|..] == Utf8(rest);
      assert b[at..at + |f|] == f && b[at + |f|..] == Utf8(rest);
      DecodeFirst(s, b, at);
      GroupsOfUtf8(rest, b, at + |f|);
    }
  }

  /** What reading the encoding of `s` gives. */
  function ReadEncoded(s: seq<unit16>): seq<unit16> {
    ReadBack(Groups(Utf8(s), 0, |Utf8(s)|), [], 0)
  }

  /** No surrogate pair anywhere; lone surrogates may occur. */
  predicate NoPairs(s: seq<unit16>) {
    forall i :: 0 <= i < |s| - 1 ==> !(High(s[i]) && Low(s[i + 1]))
  }

  /** Reading back what was written gives the sequence, lone surrogates included, exactly when no flush of the
      reused array is stale; that holds whenever there are fewer than 16384 units, or no surrogate pairs. */
  lemma {:induction false} Utf8RoundTrip(s: seq<unit16>)
    ensures ReadEncoded(s) == s <==> Clean(Characters(s), 0, 0)
    ensures |s| < 16384 ==> ReadEncoded(s) == s
    ensures NoPairs(s) ==> ReadEncoded(s) == s
  {
    var g := Characters(s);
    GroupsOfUtf8(s, Utf8(s), 0);
    CharactersFlat(s);
    var none: seq<unit16> := [];
    assert none[..0] + s == s;
    ReadBackExact(g, none, 0);
    if |s| < 16384 {
      ShortIsClean(g);
    }
    if NoPairs(s) {
      SingleCharacters(s);
      UnpairedIsClean(g, 0, 0);
    }
  }

  lemma {:induction false} SingleCharacters(s: seq<unit16>)
    requires NoPairs(s)
    ensures forall k :: 0 <= k < |Characters(s)| ==> |Characters(s)[k]| == 1
    decreases |s|
  {
    if s != [] {
      assert !Paired(s);
      SingleCharacters(s[1..]);
    }
  }

  lemma {:induction false} LettersStale(n: nat, i: nat)
    requires 0 < n && n + i == 8192
    ensures !Clean(Characters(Repeat<unit16>(97, n)), 8193, i)
    decreases n
  {
    var s := Repeat<unit16>(97, n);
    assert s[1..] == Repeat<unit16>(97, n - 1);
    assert !Paired(s);
    if n > 1 {
      LettersStale(n - 1, i + 1);
    }
  }

  lemma {:induction false} LettersFirst(n: nat, i: nat, rest: seq<unit16>)
    requires n + i <= 8191 && !Clean(Characters(rest), n + i, n + i)
    ensures !Clean(Characters(Repeat<unit16>(97, n) + rest), i, i)
    decreases n
  {
    var s := Repeat<unit16>(97, n) + rest;
    if n == 0 {
      assert s == rest;
    } else {
      assert s[1..] == Repeat<unit16>(97, n - 1) + rest && s[0] == 97;
      LettersFirst(n - 1, i + 1, rest);
    }
  }

  lemma {:induction false} PairThenStale(pair: seq<unit16>, tail: seq<unit16>)
    requires |pair| == 2 && Paired(pair) && !Clean(Characters(tail), 8193, 0)
    ensures !Clean(Characters(pair + tail), 8191, 8191)
  {
    var s := pair + tail;
    assert Paired(s) && s[2..] == tail;
  }

  /** 8191 letters, a pair and 8192 letters: the second flush repeats half of the pair. */
  lemma {:induction false} StaleFlush()
    ensures var s := Repeat<unit16>(97, 8191) + ([0xd83d, 0xde00] + Repeat<unit16>(97, 8192)); ReadEncoded(s) != s
  {
    hide Characters, Clean, ReadEncoded;
    var tail := Repeat<unit16>(97, 8192);
    LettersStale(8192, 0);
    PairThenStale([0xd83d, 0xde00], tail);
    LettersFirst(8191, 0, [0xd83d, 0xde00] + tail);
    Utf8RoundTrip(Repeat<unit16>(97, 8191) + ([0xd83d, 0xde00] + tail));
  }
}
