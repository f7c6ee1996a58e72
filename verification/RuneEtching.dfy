/**
 * Etchings (packages/coin-bitcoin/src/runesMain.ts): the check of an etching, its message of tagged numbers,
 * and the script that carries the message. A zero stands for an absent number.
 */
module RuneEtching {
  import opened Wrappers
  import opened Numerals
  import opened JsInt
  import opened JsBytes
  import Leb128
  import opened RuneNames
  import opened RuneVarints

  const UINT128_MAX := 0xFFFF_FFFF_FFFF_FFFF_FFFF_FFFF_FFFF_FFFF
  const UINT64_MAX := 0xFFFF_FFFF_FFFF_FFFF
  const MAX_DIVISIBILITY := 38
  const MAX_SPACERS := 0x07FF_FFFF

  datatype Rune = Name(text: string) | Number(value: int)
  datatype Range = Range(start: int, end: int)
  datatype Terms = Terms(amount: int, cap: int, height: Range, offset: Range)
  datatype Etching = Etching(rune: Rune, divisibility: int, spacers: int, symbol: seq<unit16>, premine: int,
                             terms: Option<Terms>, turbo: bool)

  // ---- the check

  predicate In64(r: Range) {
    0 <= r.start <= UINT64_MAX && 0 <= r.end <= UINT64_MAX
  }

  predicate In128(n: int) {
    0 <= n <= UINT128_MAX
  }

  /** The whole supply fits in 128 bits, and every checked field in its own range. */
  predicate Bounded(e: Etching) {
    && In128(e.premine)
    && (e.terms.Some? ==>
          var t := e.terms.value;
          In128(t.amount) && In128(t.cap)
          && In128(e.premine + t.amount * t.cap) && In64(t.height))
    && 0 <= e.divisibility <= MAX_DIVISIBILITY
    && (e.rune.Name? ==>
          SpacersFrom(e.rune.text, 0) <= MAX_SPACERS && NameNumber(RemoveSpacers(e.rune.text)) <= UINT128_MAX)
  }

  /** `checkEtching` */
  method CheckEtching(e: Etching) returns (ok: bool)
    ensures ok <==> Bounded(e)
  {
    if e.premine > UINT128_MAX || e.premine < 0 {
      return false;
    }
    if e.terms.Some? {
      var t := e.terms.value;
      if t.amount < 0 || t.amount > UINT128_MAX || t.cap < 0 || t.cap > UINT128_MAX {
        return false;
      }
      if t.amount * t.cap > UINT128_MAX {
        return false;
      }
      var supply := e.premine + t.amount * t.cap;
      if supply > UINT128_MAX {
        return false;
      }
      assert t.amount * t.cap >= 0 by { MulMonoInt(0, t.amount, t.cap); }
      if t.height.start != 0 && (t.height.start < 0 || t.height.start > UINT64_MAX) {
        return false;
      }
      if t.height.end != 0 && (t.height.end < 0 || t.height.end > UINT64_MAX) {
        return false;
      }
    }
    if e.divisibility != 0 && (e.divisibility < 0 || e.divisibility > MAX_DIVISIBILITY) {
      return false;
    }
    if e.rune.Name? {
      var spacers := GetSpacersVal(e.rune.text);
      if spacers > MAX_SPACERS {
        return false;
      }
      var v := Base26Encode(RemoveSpacers(e.rune.text));
      if v > UINT128_MAX {
        return false;
      }
    }
    return true;
  }

  // ---- the message

  /** An entry of the message map, and one number of a message. */
  datatype Field = Field(tag: byte, values: seq<int>)
  datatype Pair = Pair(tag: byte, value: int)

  /** `fields.set(tag, values)`: an entry keeps its place, and a new one goes last. */
  function SetField(fields: seq<Field>, tag: byte, values: seq<int>): seq<Field>
    decreases |fields|
  {
    if fields == [] then [Field(tag, values)]
    else if fields[0].tag == tag then [Field(tag, values)] + fields[1..]
    else [fields[0]] + SetField(fields[1..], tag, values)
  }

  lemma {:induction false} SetNew(fields: seq<Field>, tag: byte, values: seq<int>)
    requires forall k :: 0 <= k < |fields| ==> fields[k].tag != tag
    ensures SetField(fields, tag, values) == fields + [Field(tag, values)]
    decreases |fields|
  {
    if fields != [] {
      SetNew(fields[1..], tag, values);
      assert fields == [fields[0]] + fields[1..];
    }
  }

  /** A map with one number under each tag. */
  function Singles(content: seq<Pair>): (fields: seq<Field>)
    ensures |fields| == |content|
  {
    seq(|content|, k requires 0 <= k < |content| => Field(content[k].tag, [content[k].value]))
  }

  /** The order in which tags are set. */
  function Place(tag: byte): nat {
    if tag == 2 then 0 else if tag == 4 then 1 else if tag == 1 then 2 else if tag == 3 then 3
    else if tag == 5 then 4 else if tag == 6 then 5 else if tag == 10 then 6 else if tag == 8 then 7
    else if tag == 12 then 8 else if tag == 14 then 9 else if tag == 16 then 10 else if tag == 18 then 11
    else 12
  }

  /** The tags come in that order, and before place `k`. */
  predicate Before(content: seq<Pair>, k: nat) {
    && (forall i :: 0 <= i < |content| ==> Place(content[i].tag) < k)
    && (forall i, j :: 0 <= i < j < |content| ==> Place(content[i].tag) < Place(content[j].tag))
  }

  lemma DistinctTags(content: seq<Pair>, k: nat)
    requires Before(content, k)
    ensures var fields := Singles(content);
      forall i, j :: 0 <= i < j < |fields| ==> fields[i].tag != fields[j].tag
  {
    hide Place;
    var fields := Singles(content);
    forall i, j | 0 <= i < j < |fields| ensures fields[i].tag != fields[j].tag {
      assert Place(content[i].tag) < Place(content[j].tag);
    }
  }

  function Maybe(tag: byte, value: int): seq<Pair> {
    if value != 0 then [Pair(tag, value)] else []
  }

  /** Sets a tag that comes later than all tags set so far. */
  method Put(fields: seq<Field>, tag: byte, value: int, ghost content: seq<Pair>) returns (r: seq<Field>)
    requires fields == Singles(content) && Before(content, Place(tag))
    ensures r == Singles(content + [Pair(tag, value)]) && Before(content + [Pair(tag, value)], Place(tag) + 1)
  {
    hide Place;
    r := SetField(fields, tag, [value]);
    assert forall k :: 0 <= k < |fields| ==> fields[k].tag == content[k].tag;
    SetNew(fields, tag, [value]);
    assert Singles(content + [Pair(tag, value)]) == Singles(content) + [Field(tag, [value])];
  }

  /** The same, but only if there is a value. */
  method PutIf(fields: seq<Field>, tag: byte, value: int, ghost content: seq<Pair>) returns (r: seq<Field>)
    requires fields == Singles(content) && Before(content, Place(tag))
    ensures r == Singles(content + Maybe(tag, value)) && Before(content + Maybe(tag, value), Place(tag) + 1)
  {
    r := fields;
    if value != 0 {
      r := Put(fields, tag, value, content);
    } else {
      assert content + [] == content;
    }
  }

  function FlagBits(e: Etching): nat {
    1 + (if e.terms.Some? then 2 else 0) + (if e.turbo then 4 else 0)
  }

  function RuneNumber(rune: Rune): int {
    if rune.Name? then NameNumber(RemoveSpacers(rune.text)) else rune.value
  }

  /** The spacers that were given, or else those in the name. */
  function SpacersOf(e: Etching): int {
    if e.spacers != 0 then e.spacers else if e.rune.Number? then 0 else SpacersFrom(e.rune.text, 0)
  }

  function SymbolPairs(symbol: seq<unit16>): seq<Pair> {
    if symbol == [] then [] else [Pair(5, symbol[0])]
  }

  function TermPairs(t: Terms): seq<Pair> {
    Maybe(10, t.amount) + Maybe(8, t.cap) + Maybe(12, t.height.start) + Maybe(14, t.height.end)
    + Maybe(16, t.offset.start) + Maybe(18, t.offset.end)
  }

  function Start(e: Etching): seq<Pair> {
    [Pair(2, FlagBits(e)), Pair(4, RuneNumber(e.rune))] + Maybe(1, e.divisibility) + Maybe(3, SpacersOf(e))
    + SymbolPairs(e.symbol) + Maybe(6, e.premine)
  }

  /** The pairs of a message in their order; the pointer is 0 if there is no default output. */
  function Content(e: Etching, pointer: int): seq<Pair> {
    Start(e) + (if e.terms.Some? then TermPairs(e.terms.value) else []) + Maybe(22, pointer)
  }

  method Flags(e: Etching) returns (flags: nat)
    ensures flags == FlagBits(e)
  {
    hide Shl, Or;
    flags := 1;
    if e.terms.Some? {
      var mask := Shl(1, 1);
      SetFlag(flags, 1, 2);
      flags := Or(flags, mask);
    }
    if e.turbo {
      var mask := Shl(1, 2);
      SetFlag(flags, 2, 4);
      flags := Or(flags, mask);
    }
  }

  lemma {:induction false} SetFlag(flags: nat, k: nat, p: nat)
    requires (k == 1 && p == 2) || (k == 2 && p == 4)
    requires flags < p
    ensures Or(flags, Shl(1, k)) == flags + p
  {
    hide Shl, Or;
    Two1();
    Two2();
    ShlIs(1, k, p);
    OrJoin(flags, Shl(1, k), flags, 1, k, p);
    OrRange(flags, Shl(1, k));
    SmallWord(Or(flags, Shl(1, k)));
  }

  method RuneValue(rune: Rune) returns (value: int)
    ensures value == RuneNumber(rune)
  {
    if rune.Name? {
      value := Base26Encode(RemoveSpacers(rune.text));
    } else {
      value := rune.value;
    }
  }

  method SpacersValue(e: Etching) returns (value: int)
    ensures value == SpacersOf(e)
  {
    value := e.spacers;
    if value == 0 && e.rune.Name? {
      value := GetSpacersVal(e.rune.text);
    }
  }

  /** The fields of the terms. */
  method PutTerms(fields: seq<Field>, t: Terms, ghost content: seq<Pair>) returns (r: seq<Field>)
    requires fields == Singles(content) && Before(content, 6)
    ensures r == Singles(content + TermPairs(t)) && Before(content + TermPairs(t), 12)
  {
    hide Singles, Before, Maybe;
    r := PutIf(fields, 10, t.amount, content);
    ghost var c := content + Maybe(10, t.amount);
    r := PutIf(r, 8, t.cap, c);
    c := c + Maybe(8, t.cap);
    r := PutIf(r, 12, t.height.start, c);
    c := c + Maybe(12, t.height.start);
    r := PutIf(r, 14, t.height.end, c);
    c := c + Maybe(14, t.height.end);
    r := PutIf(r, 16, t.offset.start, c);
    c := c + Maybe(16, t.offset.start);
    r := PutIf(r, 18, t.offset.end, c);
    c := c + Maybe(18, t.offset.end);
    Regroup(content, Maybe(10, t.amount), Maybe(8, t.cap), Maybe(12, t.height.start), Maybe(14, t.height.end),
            Maybe(16, t.offset.start), Maybe(18, t.offset.end));
  }

  lemma Regroup(s: seq<Pair>, a: seq<Pair>, b: seq<Pair>, c: seq<Pair>, d: seq<Pair>, e: seq<Pair>, f: seq<Pair>)
    ensures s + a + b + c + d + e + f == s + (a + b + c + d + e + f)
  {
  }

  /** `buildMessage`: no tag is set twice, and the map holds the pairs in order. */
  method BuildMessage(e: Etching, useDefaultOutput: bool, defaultOutput: int) returns (fields: seq<Field>)
    ensures fields == Singles(Content(e, if useDefaultOutput then defaultOutput else 0))
    ensures forall i, j :: 0 <= i < j < |fields| ==> fields[i].tag != fields[j].tag
  {
    hide FlagBits, RuneNumber, SpacersOf, SpacersFrom, NameNumber, Singles, Before, Maybe;
    var flags := Flags(e);
    NoPairs();
    fields := Put([], 2, flags, []);
    ghost var c: seq<Pair> := [] + [Pair(2, flags)];
    var runeValue := RuneValue(e.rune);
    fields := Put(fields, 4, runeValue, c);
    c := c + [Pair(4, runeValue)];
    assert c == [Pair(2, flags), Pair(4, runeValue)];
    fields := PutIf(fields, 1, e.divisibility, c);
    c := c + Maybe(1, e.divisibility);
    var spacers := SpacersValue(e);
    fields := PutIf(fields, 3, spacers, c);
    c := c + Maybe(3, spacers);
    if e.symbol != [] {
      fields := Put(fields, 5, e.symbol[0], c);
    } else {
      assert c + [] == c;
      LaterToo(c, 4, 5);
    }
    c := c + SymbolPairs(e.symbol);
    fields := PutIf(fields, 6, e.premine, c);
    c := c + Maybe(6, e.premine);
    assert c == Start(e);
    if e.terms.Some? {
      fields := PutTerms(fields, e.terms.value, c);
      c := c + TermPairs(e.terms.value);
    } else {
      assert c + [] == c;
      LaterToo(c, 6, 12);
    }
    var pointer := if useDefaultOutput then defaultOutput else 0;
    fields := PutIf(fields, 22, pointer, c);
    DistinctTags(c + Maybe(22, pointer), 13);
  }

  lemma NoPairs()
    ensures [] == Singles([]) && Before([], 0)
  {
  }

  lemma LaterToo(c: seq<Pair>, k: nat, n: nat)
    requires Before(c, k) && k <= n
    ensures Before(c, n)
  {
  }

  // ---- bytes

  /** Every number of a message passes a test. */
  predicate All(s: seq<Pair>, test: int -> bool) {
    forall k :: 0 <= k < |s| ==> test(s[k].value)
  }

  predicate IsNat(n: int) {
    n >= 0
  }

  predicate NonNegative(s: seq<Pair>) {
    All(s, IsNat)
  }

  /** Tag byte and LEB128 number, one pair after the other. */
  function BytesOf(s: seq<Pair>): seq<byte>
    requires NonNegative(s)
    decreases |s|
  {
    if s == [] then [] else [s[0].tag] + (Leb128.Encode(s[0].value) + BytesOf(s[1..]))
  }

  /** `toBuffer` of a map with one number under each tag. On a negative number `encodeLEB128` never ends. */
  method ToBuffer(msg: seq<Field>, ghost content: seq<Pair>) returns (buff: seq<byte>)
    requires msg == Singles(content) && NonNegative(content)
    ensures buff == BytesOf(content)
  {
    hide Leb128.Encode;
    buff := [];
    assert content[0..] == content;
    for i := 0 to |msg|
      invariant buff + BytesOf(content[i..]) == BytesOf(content)
    {
      ghost var done, rest := buff, BytesOf(content[i + 1..]);
      assert content[i..][0] == content[i] && content[i..][1..] == content[i + 1..];
      assert msg[i] == Field(content[i].tag, [content[i].value]);
      for j := 0 to |msg[i].values|
        invariant j == 0 ==> buff == done
        invariant j == 1 ==> buff == done + [content[i].tag] + Leb128.Encode(content[i].value)
      {
        buff := buff + [msg[i].tag];
        var number := EncodeLEB128(msg[i].values[j]);
        buff := buff + number;
      }
      Sections(done, content[i].tag, Leb128.Encode(content[i].value), rest);
    }
    assert content[|msg|..] == [] && buff + [] == buff;
  }

  lemma Sections(done: seq<byte>, tag: byte, number: seq<byte>, rest: seq<byte>)
    ensures done + ([tag] + (number + rest)) == (done + [tag] + number) + rest
  {
  }

  /** Repeatedly a tag byte and a LEB128 number. */
  function ReadMessage(s: seq<byte>): Result<seq<Pair>, LebError>
    decreases |s|
  {
    if s == [] then Success([])
    else
      match DecodeLeb(s[1..])
      case Failure(error) => Failure(error)
      case Success(d) =>
        match ReadMessage(s[1..][d.1..])
        case Failure(error) => Failure(error)
        case Success(t) => Success([Pair(s[0], d.0)] + t)
  }

  predicate AllFit(s: seq<Pair>) {
    All(s, In128)
  }

  /** Reading a message recovers its pairs in order exactly when every number is below 2^128; otherwise one of
      the LEB128 errors is raised. */
  lemma {:induction false} MessageRoundTrip(s: seq<Pair>)
    requires NonNegative(s)
    ensures if AllFit(s) then ReadMessage(BytesOf(s)) == Success(s) else ReadMessage(BytesOf(s)).Failure?
    decreases |s|
  {
    hide Leb128.Encode, DecodeLeb;
    if s != [] {
      var number, rest := Leb128.Encode(s[0].value), BytesOf(s[1..]);
      var bytes := BytesOf(s);
      assert bytes[1..] == number + rest;
      LebRoundTrip(s[0].value, rest);
      assert (number + rest)[|number|..] == rest;
      MessageRoundTrip(s[1..]);
      FitsFirst(s);
      assert s == [s[0]] + s[1..];
    }
  }

  lemma {:induction false} FitsFirst(s: seq<Pair>)
    requires s != []
    ensures AllFit(s) <==> In128(s[0].value) && AllFit(s[1..])
  {
    assert s == [s[0]] + s[1..];
  }

  // ---- which etchings survive

  lemma {:induction false} AllConcat(s: seq<Pair>, t: seq<Pair>, test: int -> bool)
    ensures All(s + t, test) <==> All(s, test) && All(t, test)
  {
    if All(s + t, test) {
      assert forall k :: 0 <= k < |s| ==> s[k] == (s + t)[k];
      assert forall k :: 0 <= k < |t| ==> t[k] == (s + t)[|s| + k];
    }
  }

  lemma {:induction false} AllMaybe(s: seq<Pair>, tag: byte, value: int, test: int -> bool)
    requires test(0)
    ensures All(s + Maybe(tag, value), test) <==> All(s, test) && test(value)
  {
    AllConcat(s, Maybe(tag, value), test);
    if value != 0 {
      assert Maybe(tag, value)[0].value == value;
    }
  }

  lemma {:induction false} AllTerms(s: seq<Pair>, t: Terms, test: int -> bool)
    requires test(0)
    ensures All(s + TermPairs(t), test)
            <==> All(s, test) && test(t.amount) && test(t.cap) && test(t.height.start) && test(t.height.end)
                 && test(t.offset.start) && test(t.offset.end)
  {
    hide All, Maybe;
    var c := s + Maybe(10, t.amount);
    AllMaybe(s, 10, t.amount, test);
    AllMaybe(c, 8, t.cap, test);
    c := c + Maybe(8, t.cap);
    AllMaybe(c, 12, t.height.start, test);
    c := c + Maybe(12, t.height.start);
    AllMaybe(c, 14, t.height.end, test);
    c := c + Maybe(14, t.height.end);
    AllMaybe(c, 16, t.offset.start, test);
    c := c + Maybe(16, t.offset.start);
    AllMaybe(c, 18, t.offset.end, test);
    Regroup(s, Maybe(10, t.amount), Maybe(8, t.cap), Maybe(12, t.height.start), Maybe(14, t.height.end),
            Maybe(16, t.offset.start), Maybe(18, t.offset.end));
  }

  lemma {:induction false} AllStart(e: Etching, test: int -> bool)
    requires forall n :: 0 <= n < 0x1_0000 ==> test(n)
    ensures All(Start(e), test)
            <==> test(RuneNumber(e.rune)) && test(e.divisibility) && test(SpacersOf(e)) && test(e.premine)
  {
    hide Maybe, RuneNumber, SpacersOf;
    var c := [Pair(2, FlagBits(e)), Pair(4, RuneNumber(e.rune))];
    assert All(c, test) <==> test(RuneNumber(e.rune)) by {
      assert c[0].value == FlagBits(e) && c[1].value == RuneNumber(e.rune);
    }
    hide All;
    AllMaybe(c, 1, e.divisibility, test);
    c := c + Maybe(1, e.divisibility);
    AllMaybe(c, 3, SpacersOf(e), test);
    c := c + Maybe(3, SpacersOf(e));
    AllSymbol(c, e.symbol, test);
    c := c + SymbolPairs(e.symbol);
    AllMaybe(c, 6, e.premine, test);
  }

  lemma {:induction false} AllSymbol(s: seq<Pair>, symbol: seq<unit16>, test: int -> bool)
    requires forall n :: 0 <= n < 0x1_0000 ==> test(n)
    ensures All(s + SymbolPairs(symbol), test) <==> All(s, test)
  {
    AllConcat(s, SymbolPairs(symbol), test);
  }

  /** All numbers of a message pass a test exactly when those from the etching and the pointer do. */
  lemma {:induction false} AllContent(e: Etching, pointer: int, test: int -> bool)
    requires forall n :: 0 <= n < 0x1_0000 ==> test(n)
    ensures All(Content(e, pointer), test)
            <==> && test(RuneNumber(e.rune)) && test(e.divisibility) && test(SpacersOf(e)) && test(e.premine)
                 && (e.terms.Some? ==>
                       var t := e.terms.value;
                       test(t.amount) && test(t.cap) && test(t.height.start) && test(t.height.end)
                       && test(t.offset.start) && test(t.offset.end))
                 && test(pointer)
  {
    hide All, Maybe, Start, TermPairs, SpacersOf, RuneNumber;
    AllStart(e, test);
    var c := Start(e);
    if e.terms.Some? {
      AllTerms(c, e.terms.value, test);
      c := c + TermPairs(e.terms.value);
    } else {
      assert c + [] == c;
    }
    AllMaybe(c, 22, pointer, test);
  }

  /** The numbers that the check leaves open. */
  predicate OpenFit(e: Etching, pointer: int) {
    && (e.rune.Name? ==> NameNumber(RemoveSpacers(e.rune.text)) >= 0)
    && (e.rune.Number? ==> In128(e.rune.value))
    && In128(SpacersOf(e))
    && (e.terms.Some? ==> In128(e.terms.value.offset.start) && In128(e.terms.value.offset.end))
    && In128(pointer)
  }

  /** For a checked etching all numbers of the message are below 2^128 exactly when those left open are. */
  lemma {:induction false} CheckedFits(e: Etching, pointer: int)
    requires Bounded(e)
    ensures AllFit(Content(e, pointer)) <==> OpenFit(e, pointer)
  {
    hide All, Content, SpacersOf;
    AllContent(e, pointer, In128);
  }

  lemma {:induction false} FitNonNegative(s: seq<Pair>)
    requires AllFit(s)
    ensures NonNegative(s)
  {
  }

  /** So its message is recovered, pair by pair and in order, exactly when they are; a message with a larger
      number is refused, and one with a negative number is never finished. */
  lemma {:induction false} EtchingRoundTrip(e: Etching, pointer: int)
    requires Bounded(e)
    ensures OpenFit(e, pointer) ==> NonNegative(Content(e, pointer))
    ensures NonNegative(Content(e, pointer)) ==>
      var r := ReadMessage(BytesOf(Content(e, pointer)));
      if OpenFit(e, pointer) then r == Success(Content(e, pointer)) else r.Failure?
  {
    hide Bounded, OpenFit, AllFit, NonNegative, Content;
    CheckedFits(e, pointer);
    if OpenFit(e, pointer) {
      FitNonNegative(Content(e, pointer));
    }
    if NonNegative(Content(e, pointer)) {
      MessageRoundTrip(Content(e, pointer));
    }
  }

  // ---- names

  lemma {:induction false} RankLarge(s: string)
    requires IsName(s) && s != []
    ensures Rank(s) >= Pow(26, |s| - 1)
    decreases |s|
  {
    if |s| > 1 {
      RankLarge(s[..|s| - 1]);
    } else {
      assert s[..0] == [];
    }
  }

  lemma {:induction false} Pow26To28()
    ensures Pow(26, 28) > UINT128_MAX + 1
  {
    assert Pow(26, 1) == 26 * Pow(26, 0);
    assert Pow(26, 2) == 26 * Pow(26, 1);
    PowAdd(26, 2, 2);
    PowAdd(26, 4, 3);
    assert Pow(26, 3) == 26 * Pow(26, 2);
    PowAdd(26, 7, 7);
    PowAdd(26, 14, 14);
  }

  /** A name of a 128-bit number has at most 28 letters. */
  lemma {:induction false} NameShort(s: string)
    requires IsName(s) && NameNumber(s) <= UINT128_MAX
    ensures |s| <= 28
  {
    if |s| > 28 {
      RankLarge(s);
      Pow26To28();
      PowMono(26, 28, |s| - 1);
    }
  }

  /** The mask of a name with fewer than 32 letters: every leading spacer counts -2^31. */
  lemma {:induction false} MaskSign(s: string)
    requires |RemoveSpacers(s)| < 32
    ensures SpacersFrom(s, 0) >= 0 <==> 0x8000_0000 * LeadingSpacers(s) <= PositiveBits(s, 0)
  {
    SpacersSplit(s, 0);
    FewLetters(s, 0);
  }

  /** A name of letters that passes the check leaves only the other numbers open, and its leading spacers
      against the bits of the others, unless spacers are given. */
  lemma {:induction false} NameFits(e: Etching, pointer: int)
    requires Bounded(e) && e.rune.Name? && IsName(RemoveSpacers(e.rune.text))
    ensures OpenFit(e, pointer)
            <==> && (if e.spacers != 0 then In128(e.spacers)
                     else 0x8000_0000 * LeadingSpacers(e.rune.text) <= PositiveBits(e.rune.text, 0))
                 && In128(pointer)
                 && (e.terms.Some? ==> In128(e.terms.value.offset.start) && In128(e.terms.value.offset.end))
  {
    hide RemoveSpacers, SpacersFrom, NameNumber;
    var letters := RemoveSpacers(e.rune.text);
    LettersNumber(letters);
    NameShort(letters);
    MaskSign(e.rune.text);
  }

  lemma {:induction false} LettersNumber(s: string)
    requires IsName(s)
    ensures NameNumber(s) >= 0
  {
    if s != [] {
      NamesAndNumbers(s, 0);
    }
  }

  // ---- which messages are ever finished

  /** No number of the message is negative. Spacers in a name count as bits, but those after a multiple of 32
      letters as -2^31. */
  predicate Finite(e: Etching, pointer: int) {
    && (e.rune.Number? ==> e.rune.value >= 0)
    && (e.rune.Name? ==> NameNumber(RemoveSpacers(e.rune.text)) >= 0)
    && (if e.spacers != 0 then e.spacers > 0
        else e.rune.Name? ==> 0x8000_0000 * NegativeBits(e.rune.text, 0) <= PositiveBits(e.rune.text, 0))
    && (e.terms.Some? ==> e.terms.value.offset.start >= 0 && e.terms.value.offset.end >= 0)
    && pointer >= 0
  }

  /** For a checked etching, writing the message ends if and only if none of the open numbers is negative:
      `encodeLEB128` never finishes a negative one (`RuneVarints.EncodeEnds`). */
  lemma {:induction false} FiniteExactly(e: Etching, pointer: int)
    requires Bounded(e)
    ensures NonNegative(Content(e, pointer)) <==> Finite(e, pointer)
  {
    hide All, Content, SpacersFrom, NegativeBits, PositiveBits, RemoveSpacers, NameNumber;
    AllContent(e, pointer, IsNat);
    if e.rune.Name? {
      SpacersSplit(e.rune.text, 0);
    }
  }

  /** For a name of letters the mask decides: leading spacers against the bits of the others, unless spacers
      are given. */
  lemma {:induction false} LeadingSpacer(e: Etching, pointer: int)
    requires Bounded(e) && e.rune.Name? && IsName(RemoveSpacers(e.rune.text))
    ensures NonNegative(Content(e, pointer))
            <==> && (if e.spacers != 0 then e.spacers > 0
                     else 0x8000_0000 * LeadingSpacers(e.rune.text) <= PositiveBits(e.rune.text, 0))
                 && (e.terms.Some? ==> e.terms.value.offset.start >= 0 && e.terms.value.offset.end >= 0)
                 && pointer >= 0
  {
    hide NonNegative, Content, RemoveSpacers, NameNumber, SpacersFrom, PositiveBits;
    var letters := RemoveSpacers(e.rune.text);
    LettersNumber(letters);
    NameShort(letters);
    FewLetters(e.rune.text, 0);
    FiniteExactly(e, pointer);
  }

  // ---- the script

  /** The opcode and length in front of `n` bytes. */
  function PushNum(n: nat): seq<byte>
    requires n < 0x1_0000_0000
  {
    if n < 0x4C then [n]
    else if n < 0x100 then [0x4C, n]
    else if n < 0x1_0000 then [0x4D, n % 256, n / 256]
    else [0x4E, n % 256, n / 256 % 256, n / 0x1_0000 % 256, n / 0x100_0000]
  }

  /** OP_RETURN, OP_13 and one push of the message. */
  function Deployment(msg: seq<byte>): Option<seq<byte>> {
    if |msg| < 0x1_0000_0000 then Some([0x6A, 0x5D] + PushNum(|msg|) + msg) else None
  }

  /** The data that the push after the first two opcodes pushes, if it ends the script. */
  function ReadDeployment(s: seq<byte>): Option<seq<byte>> {
    if |s| < 3 || s[0] != 0x6A || s[1] != 0x5D then None
    else
      var op: nat := s[2];
      var at := (k: nat) requires k < |s| => s[k] as int;
      if op < 0x4C then Exactly(s[3..], op)
      else if op == 0x4C && |s| >= 4 then Exactly(s[4..], s[3])
      else if op == 0x4D && |s| >= 5 then Exactly(s[5..], at(3) + 256 * at(4))
      else if op == 0x4E && |s| >= 7 then
        Exactly(s[7..], at(3) + 256 * at(4) + 0x1_0000 * at(5) + 0x100_0000 * at(6))
      else None
  }

  function Exactly(s: seq<byte>, n: int): Option<seq<byte>> {
    if |s| == n then Some(s) else None
  }

  /** The message comes back out of the script whenever there is one, that is, below 4 GiB. */
  lemma {:induction false} DeploymentRead(msg: seq<byte>)
    ensures Deployment(msg).Some? <==> |msg| < 0x1_0000_0000
    ensures Deployment(msg).Some? ==> ReadDeployment(Deployment(msg).value) == Some(msg)
  {
    var n := |msg|;
    if n < 0x1_0000_0000 {
      var s := Deployment(msg).value;
      assert s[|s| - n..] == msg;
      if n >= 0x1_0000 {
        FourBytes(n);
      }
    }
  }

  lemma FourBytes(n: nat)
    ensures n == n % 256 + 256 * (n / 256 % 256) + 0x1_0000 * (n / 0x1_0000 % 256) + 0x100_0000 * (n / 0x100_0000)
  {
    assert n / 0x1_0000 == n / 256 / 256;
    assert n / 0x100_0000 == n / 0x1_0000 / 256;
  }

  /** `buildRuneMainDeployData`; `None` stands for its exception. */
  method BuildRuneMainDeployData(e: Etching, useDefaultOutput: bool, defaultOutput: int)
    returns (script: Option<seq<byte>>)
    requires NonNegative(Content(e, if useDefaultOutput then defaultOutput else 0))
    ensures script == Deployment(BytesOf(Content(e, if useDefaultOutput then defaultOutput else 0)))
  {
    hide Content, BytesOf;
    var msg := BuildMessage(e, useDefaultOutput, defaultOutput);
    var msgBuff := ToBuffer(msg, Content(e, if useDefaultOutput then defaultOutput else 0));
    var prefix: seq<byte> := [0x6A, 0x5D];
    var n: nat := |msgBuff|;
    var pushNum: seq<byte>;
    if n < 0x4C {
      pushNum := [n];
    } else if n < 0x100 {
      pushNum := [0x4C, n];
    } else if n < 0x1_0000 {
      pushNum := [0x4D, n % 256, n / 256];
    } else if n < 0x1_0000_0000 {
      pushNum := [0x4E, n % 256, n / 256 % 256, n / 0x1_0000 % 256, n / 0x100_0000];
    } else {
      return None;
    }
    return Some(prefix + pushNum + msgBuff);
  }

  /** From a checked etching to its script and back: the pairs of the message are recovered in order. */
  lemma {:induction false} EtchingRecovered(e: Etching, pointer: int)
    requires Bounded(e) && OpenFit(e, pointer)
    requires NonNegative(Content(e, pointer)) && Deployment(BytesOf(Content(e, pointer))).Some?
    ensures var script := Deployment(BytesOf(Content(e, pointer))).value;
      ReadDeployment(script).Some? && ReadMessage(ReadDeployment(script).value) == Success(Content(e, pointer))
  {
    hide Content, BytesOf, OpenFit, Bounded, Deployment, ReadDeployment;
    EtchingRoundTrip(e, pointer);
    DeploymentRead(BytesOf(Content(e, pointer)));
  }
}
