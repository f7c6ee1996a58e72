/**
 * What the numbers of a runestone mean, by the tags and flag positions of
 * packages/coin-bitcoin/src/runestones.ts, and the etching that a reader recovers from a deployment script.
 */
module RuneReader {
  import opened Wrappers
  import opened Numerals
  import Leb128
  import opened RuneNames
  import opened RuneVarints
  import opened RuneEtching

  /** The numbers under a tag, in order. */
  function Under(s: seq<Pair>, tag: byte): seq<int>
    decreases |s|
  {
    if s == [] then [] else (if s[0].tag == tag then [s[0].value] else []) + Under(s[1..], tag)
  }

  /** The first number under a tag; zero if there is none. */
  function Found(s: seq<Pair>, tag: byte): int {
    if Under(s, tag) == [] then 0 else Under(s, tag)[0]
  }

  /** Whether the flag at a position of the bitmap is set. */
  predicate HasFlag(flags: int, position: nat) {
    flags / Pow(2, position) % 2 == 1
  }

  datatype Runestone = Runestone(isEtching: bool, rune: int, divisibility: int, spacers: int, symbol: int,
                                 premine: int, terms: Option<Terms>, turbo: bool, pointer: int)

  function ReadRunestone(s: seq<Pair>): Runestone {
    var flags := Found(s, 2);
    Runestone(
      HasFlag(flags, 0),
      Found(s, 4),
      Found(s, 1),
      Found(s, 3),
      Found(s, 5),
      Found(s, 6),
      if HasFlag(flags, 1) then
        Some(Terms(Found(s, 10), Found(s, 8), Range(Found(s, 12), Found(s, 14)), Range(Found(s, 16), Found(s, 18))))
      else None,
      HasFlag(flags, 2),
      Found(s, 22))
  }

  /** What a reader should find of an etching: a name stands for its number and, unless spacers are given, for the
      mask of its spacers; of the symbol only the first unit is kept. */
  function Intended(e: Etching, pointer: int): Runestone {
    Runestone(
      true,
      if e.rune.Name? then NameNumber(RemoveSpacers(e.rune.text)) else e.rune.value,
      e.divisibility,
      if e.spacers != 0 then e.spacers else if e.rune.Name? then SpacersFrom(e.rune.text, 0) else 0,
      if e.symbol == [] then 0 else e.symbol[0],
      e.premine,
      e.terms,
      e.turbo,
      pointer)
  }

  // ---- one tag after the other

  lemma {:induction false} UnderConcat(s: seq<Pair>, t: seq<Pair>, tag: byte)
    ensures Under(s + t, tag) == Under(s, tag) + Under(t, tag)
    decreases |s|
  {
    if s == [] {
      assert s + t == t && [] + Under(t, tag) == Under(t, tag);
    } else {
      assert (s + t)[1..] == s[1..] + t;
      UnderConcat(s[1..], t, tag);
      ConcatAssoc(if s[0].tag == tag then [s[0].value] else [], Under(s[1..], tag), Under(t, tag));
    }
  }

  /** A number under one tag, or nothing for zero, after everything else. */
  lemma {:induction false} UnderMore(s: seq<Pair>, tag: byte, value: int, x: byte)
    ensures Under(s + Maybe(tag, value), x) == if x == tag && value != 0 then Under(s, x) + [value] else Under(s, x)
    ensures Under(s + [Pair(tag, value)], x) == if x == tag then Under(s, x) + [value] else Under(s, x)
  {
    var one := [Pair(tag, value)];
    assert one[1..] == [] && Under([], x) == [];
    assert Under(one, x) == if x == tag then [value] else [];
    UnderConcat(s, one, x);
    assert s + [] == s && Under(s, x) + [] == Under(s, x);
  }

  function One(value: int): seq<int> {
    if value != 0 then [value] else []
  }

  lemma OneMore(value: int)
    ensures [] + One(value) == One(value) && [] + [value] == [value]
  {
  }

  /** The numbers before the terms. */
  lemma {:induction false} UnderStart(e: Etching, x: byte)
    ensures Under(Start(e), x)
            == if x == 2 then [FlagBits(e)] else if x == 4 then [RuneNumber(e.rune)] else if x == 1 then One(e.divisibility)
               else if x == 3 then One(SpacersOf(e)) else if x == 5 then (if e.symbol == [] then [] else [e.symbol[0]])
               else if x == 6 then One(e.premine) else []
  {
    hide Under, FlagBits, RuneNumber, SpacersOf, Maybe;
    var flags, rune := Pair(2, FlagBits(e)), Pair(4, RuneNumber(e.rune));
    assert Under([], x) == [] by { NothingUnder(x); }
    assert [] + [flags] == [flags] && [flags] + [rune] == [flags, rune];
    UnderMore([], 2, FlagBits(e), x);
    UnderMore([flags], 4, RuneNumber(e.rune), x);
    var c := [flags, rune];
    UnderMore(c, 1, e.divisibility, x);
    c := c + Maybe(1, e.divisibility);
    UnderMore(c, 3, SpacersOf(e), x);
    c := c + Maybe(3, SpacersOf(e));
    if e.symbol != [] {
      UnderMore(c, 5, e.symbol[0], x);
    } else {
      assert c + [] == c;
    }
    c := c + SymbolPairs(e.symbol);
    UnderMore(c, 6, e.premine, x);
  }

  lemma NothingUnder(x: byte)
    ensures Under([], x) == []
  {
  }

  lemma {:induction false} UnderTerms(s: seq<Pair>, t: Terms, x: byte)
    ensures Under(s + TermPairs(t), x)
            == Under(s, x)
               + (if x == 10 then One(t.amount) else if x == 8 then One(t.cap)
                  else if x == 12 then One(t.height.start) else if x == 14 then One(t.height.end)
                  else if x == 16 then One(t.offset.start) else if x == 18 then One(t.offset.end) else [])
  {
    hide Under, Maybe;
    var u := Under(s, x);
    assert u + [] == u;
    var c := s + Maybe(10, t.amount);
    UnderMore(s, 10, t.amount, x);
    UnderMore(c, 8, t.cap, x);
    c := c + Maybe(8, t.cap);
    UnderMore(c, 12, t.height.start, x);
    c := c + Maybe(12, t.height.start);
    UnderMore(c, 14, t.height.end, x);
    c := c + Maybe(14, t.height.end);
    UnderMore(c, 16, t.offset.start, x);
    c := c + Maybe(16, t.offset.start);
    UnderMore(c, 18, t.offset.end, x);
    RuneEtching.Regroup(s, Maybe(10, t.amount), Maybe(8, t.cap), Maybe(12, t.height.start), Maybe(14, t.height.end),
                        Maybe(16, t.offset.start), Maybe(18, t.offset.end));
  }

  /** The numbers under any tag of a message. */
  lemma {:induction false} UnderContent(e: Etching, pointer: int, x: byte)
    ensures Under(Content(e, pointer), x)
            == if x == 22 then One(pointer)
               else if x < 8 then Under(Start(e), x)
               else match e.terms
                    case None => []
                    case Some(t) =>
                      if x == 10 then One(t.amount) else if x == 8 then One(t.cap)
                      else if x == 12 then One(t.height.start) else if x == 14 then One(t.height.end)
                      else if x == 16 then One(t.offset.start) else if x == 18 then One(t.offset.end) else []
  {
    hide Under, Start, TermPairs, Maybe;
    UnderStart(e, x);
    var c := Start(e);
    var u := Under(c, x);
    assert u + [] == u && (u == [] ==> forall v: seq<int> :: u + v == v);
    if e.terms.Some? {
      UnderTerms(c, e.terms.value, x);
      c := c + TermPairs(e.terms.value);
    } else {
      assert c + [] == c;
    }
    UnderMore(c, 22, pointer, x);
    OneMore(pointer);
  }

  lemma {:induction false} FlagsRead(e: Etching)
    ensures HasFlag(FlagBits(e), 0) && (HasFlag(FlagBits(e), 1) <==> e.terms.Some?) && (HasFlag(FlagBits(e), 2) <==> e.turbo)
  {
    Two();
    var f: nat := FlagBits(e);
    assert f / 1 == f;
  }

  lemma {:induction false} Two()
    ensures Pow(2, 0) == 1 && Pow(2, 1) == 2 && Pow(2, 2) == 4
  {
    assert Pow(2, 1) == 2 * Pow(2, 0);
    assert Pow(2, 2) == 2 * Pow(2, 1);
  }

  /** Reading the pairs of a message gives every field of the etching, and the pointer. */
  lemma {:induction false} FieldsRead(e: Etching, pointer: int)
    ensures ReadRunestone(Content(e, pointer)) == Intended(e, pointer)
  {
    hide Under, Content, Start, HasFlag, FlagBits, NameNumber, RemoveSpacers, SpacersFrom;
    FlagsRead(e);
    UnderStart(e, 2);
    UnderContent(e, pointer, 2);
    UnderStart(e, 4);
    UnderContent(e, pointer, 4);
    UnderStart(e, 1);
    UnderContent(e, pointer, 1);
    UnderStart(e, 3);
    UnderContent(e, pointer, 3);
    UnderStart(e, 5);
    UnderContent(e, pointer, 5);
    UnderStart(e, 6);
    UnderContent(e, pointer, 6);
    UnderContent(e, pointer, 10);
    UnderContent(e, pointer, 8);
    UnderContent(e, pointer, 12);
    UnderContent(e, pointer, 14);
    UnderContent(e, pointer, 16);
    UnderContent(e, pointer, 18);
    UnderContent(e, pointer, 22);
  }

  /** No other tag occurs, and none occurs twice. */
  lemma {:induction false} OnlyThese(e: Etching, pointer: int, x: byte)
    ensures |Under(Content(e, pointer), x)| <= 1
    ensures x !in {1, 2, 3, 4, 5, 6, 8, 10, 12, 14, 16, 18, 22} ==> Under(Content(e, pointer), x) == []
  {
    hide Under, Content, Start;
    UnderStart(e, x);
    UnderContent(e, pointer, x);
  }

  // ---- from script to etching

  /** The runestone in a deployment script. */
  function ReadScript(script: seq<byte>): Option<Runestone> {
    match ReadDeployment(script)
    case None => None
    case Some(msg) =>
      match ReadMessage(msg)
      case Failure(_) => None
      case Success(pairs) => Some(ReadRunestone(pairs))
  }

  /** At most thirteen numbers of at most nineteen bytes each, so there always is a script. */
  lemma {:induction false} ShortMessage(s: seq<Pair>)
    requires AllFit(s) && NonNegative(s)
    ensures |BytesOf(s)| <= 20 * |s|
    decreases |s|
  {
    hide Leb128.Encode;
    if s != [] {
      FitsFirst(s);
      NumberLength(s[0].value);
      ShortMessage(s[1..]);
    }
  }

  lemma {:induction false} NumberLength(n: nat)
    requires n <= UINT128_MAX
    ensures |Leb128.Encode(n)| <= 19
  {
    Pow128To18();
    assert Pow(128, 19) == 128 * Pow(128, 18);
    Leb128.EncodeLength(n, 19);
  }

  lemma {:induction false} FewPairs(e: Etching, pointer: int)
    ensures |Content(e, pointer)| <= 13
  {
    hide FlagBits, RuneNumber, SpacersOf;
    if e.terms.Some? {
      assert |TermPairs(e.terms.value)| <= 6;
    }
    assert |Start(e)| <= 6;
  }

  /** Every checked etching whose open numbers fit has a script, and reading it gives the whole etching back. */
  lemma {:induction false} EtchingRead(e: Etching, pointer: int)
    requires Bounded(e) && OpenFit(e, pointer)
    ensures NonNegative(Content(e, pointer)) && Deployment(BytesOf(Content(e, pointer))).Some?
    ensures ReadScript(Deployment(BytesOf(Content(e, pointer))).value) == Some(Intended(e, pointer))
  {
    hide Content, BytesOf, OpenFit, Bounded, Deployment, ReadDeployment, ReadRunestone, Intended, AllFit, NonNegative;
    EtchingRoundTrip(e, pointer);
    CheckedFits(e, pointer);
    FewPairs(e, pointer);
    ShortMessage(Content(e, pointer));
    DeploymentRead(BytesOf(Content(e, pointer)));
    EtchingRecovered(e, pointer);
    FieldsRead(e, pointer);
  }

  /** A name of letters with spacers between them is shown as it was given. */
  lemma {:induction false} NameShown(e: Etching, pointer: int, letters: string, mask: nat)
    requires e.rune == Name(Applied(letters, mask)) && e.spacers == 0
    requires letters != [] && IsName(letters) && mask < 0x8000_0000 && mask < Pow(2, |letters|)
    ensures var r := Intended(e, pointer);
      r.rune >= 0 && Applied(NameAt(r.rune + 1), r.spacers) == e.rune.text
  {
    hide Applied, NameAt, NameNumber, SpacersFrom;
    RemoveApplied(letters, mask);
    NamesAndNumbers(letters, 0);
    AppliedSpaced(letters, mask);
    SpacedRead(letters, mask);
  }

  /** `buildRuneMainDeployData` on a checked etching: there is a script, and it reads as that etching. */
  method DeployRead(e: Etching, useDefaultOutput: bool, defaultOutput: int) returns (script: Option<seq<byte>>)
    requires Bounded(e) && OpenFit(e, if useDefaultOutput then defaultOutput else 0)
    ensures script.Some?
    ensures ReadScript(script.value) == Some(Intended(e, if useDefaultOutput then defaultOutput else 0))
  {
    hide *;
    EtchingRead(e, if useDefaultOutput then defaultOutput else 0);
    script := BuildRuneMainDeployData(e, useDefaultOutput, defaultOutput);
  }
}
