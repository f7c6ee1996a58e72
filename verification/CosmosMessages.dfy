/**
 * Whole runs of the protobuf writer: any sequence of typed writes with nested blocks, finished once
 * or twice, and read back (packages/coin-cosmos/src/binary.ts).
 */
module CosmosMessages {
  import opened Wrappers
  import opened Numerals
  import opened JsInt
  import opened JsBytes
  import opened Decimal
  import Leb128
  import ZigZag
  import opened CosmosVarint
  import opened CosmosDecimal
  import opened CosmosUtf8
  import opened CosmosOps
  import opened CosmosWriter
  import opened CosmosReader
  import opened CosmosFields

  /** A call on the writer; `Nest` stands for `fork()`, the inner calls and `ldelim()`. */
  datatype Call =
    | WTag(no: nat, wireType: nat)
    | WUint32(v: int)
    | WInt32(v: int)
    | WSint32(v: int)
    | WInt64(dec: string)
    | WSint64(dec: string)
    | WFixed32(v: int)
    | WFixed64(dec: string)
    | WBool(b: bool)
    | WBytes(bytes: seq<byte>)
    | WString(s: seq<unit16>)
    | Nest(inner: Calls)

  datatype Calls = Done | Then(first: Call, others: Calls)

  /** The ranges of the wire types. */
  predicate InRange(c: Call) {
    match c
    case WTag(no, t) => no < 0x2000_0000 && t < 8
    case WInt32(v) => -0x8000_0000 <= v < 0x8000_0000
    case WSint32(v) => -0x8000_0000 <= v < 0x8000_0000
    case WInt64(dec) => AllDigits(Magnitude(dec))
    case WSint64(dec) => AllDigits(Magnitude(dec))
    case WFixed64(dec) => AllDigits(Magnitude(dec))
    case WBytes(b) => |b| < 0x1_0000_0000
    case WString(s) => |Utf8(s)| < 0x1_0000_0000
    case Nest(inner) => AllInRange(inner)
    case _ => true
  }

  predicate AllInRange(cs: Calls) {
    match cs
    case Done => true
    case Then(c, others) => InRange(c) && AllInRange(others)
  }

  /** The bytes of a call, as the format asks for them: a nested block is its length and its bytes. */
  function Layout(c: Call): seq<byte>
    requires InRange(c)
    decreases c
  {
    match c
    case WTag(no, t) => Leb128.Encode(8 * no + t)
    case WUint32(v) => Leb128.Encode(ToUint32(v))
    case WInt32(v) => Leb128.Encode(v % 0x1_0000_0000_0000_0000)
    case WSint32(v) => Leb128.Encode(ZigZag.Encode(v))
    case WInt64(dec) => Int64Bytes(ParsedNumber(dec))
    case WSint64(dec) => Leb128.Encode(ZigZag.Encode(Signed64(ParsedNumber(dec) % 0x1_0000_0000_0000_0000)))
    case WFixed32(v) => FixedBytes(v)
    case WFixed64(dec) => FixedBytes(Halves(ParsedNumber(dec)).0) + FixedBytes(Halves(ParsedNumber(dec)).1)
    case WBool(b) => [if b then 1 else 0]
    case WBytes(b) => Leb128.Encode(|b|) + b
    case WString(s) => Leb128.Encode(|Utf8(s)|) + Utf8(s)
    case Nest(inner) => Leb128.Encode(ToUint32(|LayoutAll(inner)|)) + LayoutAll(inner)
  }

  function LayoutAll(cs: Calls): seq<byte>
    requires AllInRange(cs)
    decreases cs
  {
    match cs
    case Done => []
    case Then(c, others) => Layout(c) + LayoutAll(others)
  }

  /** A call that is not nested. */
  method PerformFlat(w: BinaryWriter, c: Call)
    requires w.Valid() && InRange(c) && !c.Nest?
    modifies w, w.next.Keys
    ensures w.Valid() && w.saved == old(w.saved) && w.finished == old(w.finished)
    ensures fresh(w.next.Keys - old(w.next.Keys)) && fresh(w.owner.Keys - old(w.owner.Keys))
    ensures Pending(w.spine) == old(Pending(w.spine)) + Layout(c)
  {
    hide BinaryWriter.Valid, Pending, Leb128.Encode, Utf8, Int64Bytes, ParsedNumber, Halves;
    match c
    case WTag(no, t) => w.Tag(no, t);
    case WUint32(v) => w.Varint(v);
    case WInt32(v) => w.Int32(v);
    case WSint32(v) => w.Sint32(v);
    case WInt64(dec) => w.Int64(dec);
    case WSint64(dec) => w.Sint64(dec);
    case WFixed32(v) => w.Fixed32(v);
    case WFixed64(dec) => w.Fixed64(dec);
    case WBool(b) => w.Bool(b);
    case WBytes(b) => w.Bytes(b);
    case WString(s) => w.String(s);
  }

  /** Every call appends its layout and leaves the saved states as they were, whatever is nested inside. */
  method Perform(w: BinaryWriter, c: Call)
    requires w.Valid() && InRange(c)
    modifies w, w.next.Keys
    ensures w.Valid() && w.saved == old(w.saved) && w.finished == old(w.finished)
    ensures fresh(w.next.Keys - old(w.next.Keys)) && fresh(w.owner.Keys - old(w.owner.Keys))
    ensures Pending(w.spine) == old(Pending(w.spine)) + Layout(c)
    decreases c
  {
    hide BinaryWriter.Valid, Pending, Leb128.Encode;
    match c
    case Nest(inner) =>
      w.NotEmpty();
      ghost var before, saved := w.spine, w.saved;
      w.Fork();
      PerformAll(w, inner);
      w.Counted();
      ghost var b := LayoutAll(inner);
      assert Pending(w.spine) == b by { assert [] + b == b; }
      w.Ldelim();
      assert w.saved == saved;
      ConcatAssoc(Pending(before), Leb128.Encode(ToUint32(|b|)), b);
    case _ =>
      PerformFlat(w, c);
  }

  method PerformAll(w: BinaryWriter, cs: Calls)
    requires w.Valid() && AllInRange(cs)
    modifies w, w.next.Keys
    ensures w.Valid() && w.saved == old(w.saved) && w.finished == old(w.finished)
    ensures fresh(w.next.Keys - old(w.next.Keys)) && fresh(w.owner.Keys - old(w.owner.Keys))
    ensures Pending(w.spine) == old(Pending(w.spine)) + LayoutAll(cs)
    decreases cs
  {
    hide BinaryWriter.Valid, Pending, Layout;
    w.NotEmpty();
    match cs
    case Done =>
      assert Pending(w.spine) + [] == Pending(w.spine);
    case Then(c, others) =>
      ghost var before := Pending(w.spine);
      Perform(w, c);
      w.NotEmpty();
      PerformAll(w, others);
      ConcatAssoc(before, Layout(c), LayoutAll(others));
  }

  /** A whole message: the first `finish` delivers exactly the layout of the calls. */
  method Build(cs: Calls) returns (bytes: seq<byte>)
    requires AllInRange(cs)
    ensures bytes == LayoutAll(cs)
  {
    hide BinaryWriter.Valid, Pending, LayoutAll;
    var w := new BinaryWriter();
    PerformAll(w, cs);
    assert [] + LayoutAll(cs) == LayoutAll(cs);
    var buf := w.Finish();
    bytes := buf[..];
  }

  // ---- finishing twice

  /** A 64-bit operation that one byte suffices for, or any other operation. */
  ghost predicate Repeatable(o: Op, lo: half, hi: half) {
    o.payload.U64? ==> StopsEarly(lo, hi) || Word(lo, hi) < 128
  }

  /** What a consumed operation writes the second time. */
  function Again(p: Payload, lo: half, hi: half, len: nat): seq<byte>
    requires |Emission(p, lo, hi)| <= len
  {
    RemnantShort(lo, hi);
    Padded(if p.U64? then [Remnant(lo, hi) % 256] else Emission(p, lo, hi), len)
  }

  lemma {:induction false} AgainSame(o: Op, lo: half, hi: half, len: nat)
    requires |Emission(o.payload, lo, hi)| <= len
    ensures Again(o.payload, lo, hi, len) == Padded(Emission(o.payload, lo, hi), len) <==> Repeatable(o, lo, hi)
  {
    if o.payload.U64? && !StopsEarly(lo, hi) {
      var w := Word(lo, hi);
      if w >= 128 {
        assert Leb128.Encode(w)[0] >= 128 && LastGroup(w) < 128;
        assert Padded(Leb128.Encode(w), len)[0] == Leb128.Encode(w)[0];
      }
    }
  }

  lemma {:induction false} JoinedEqual(s: seq<seq<byte>>, t: seq<seq<byte>>)
    requires |s| == |t| && forall k :: 0 <= k < |s| ==> |s[k]| == |t[k]|
    ensures |Joined(s)| == |Joined(t)|
    ensures Joined(s) == Joined(t) <==> s == t
    decreases |s|
  {
    if s != [] {
      var n := |s| - 1;
      JoinedEqual(s[..n], t[..n]);
      var a, b := Joined(s[..n]), Joined(t[..n]);
      assert s == s[..n] + [s[n]] && t == t[..n] + [t[n]];
      if a + s[n] == b + t[n] {
        assert (a + s[n])[..|a|] == a && (b + t[n])[..|a|] == b;
        assert (a + s[n])[|a|..] == s[n] && (b + t[n])[|a|..] == t[n];
      }
    }
  }

  /** An operation after its first run. */
  lemma {:induction false} NowAgain(o: Op, lo: half, hi: half)
    requires o.Valid() && |Emission(o.payload, lo, hi)| <= o.len && (o.payload.U64? ==> Spent(o.bits, lo, hi))
    ensures o.Now() == Again(o.payload, lo, hi, o.len)
  {
    RemnantShort(lo, hi);
  }

  lemma NowIs(o: Op)
    requires o.Valid()
    ensures |Emission(o.payload, o.bits.lo, o.bits.hi)| <= o.len
    ensures o.Now() == Padded(Emission(o.payload, o.bits.lo, o.bits.hi), o.len)
  {
  }

  /** What an operation that held `lo` and `hi` writes first, and again. */
  ghost predicate TwoRuns(o: Op, lo: half, hi: half, first: seq<byte>, second: seq<byte>) {
    && |Emission(o.payload, lo, hi)| <= o.len
    && first == Padded(Emission(o.payload, lo, hi), o.len) && second == Again(o.payload, lo, hi, o.len)
  }

  ghost function Lows(sp: seq<Op>): (s: seq<half>)
    reads set o | o in sp :: o.bits
    ensures |s| == |sp| && forall k :: 0 <= k < |sp| ==> s[k] == sp[k].bits.lo
  {
    seq(|sp|, k requires 0 <= k < |sp| reads set o | o in sp :: o.bits => sp[k].bits.lo)
  }

  ghost function Highs(sp: seq<Op>): (s: seq<half>)
    reads set o | o in sp :: o.bits
    ensures |s| == |sp| && forall k :: 0 <= k < |sp| ==> s[k] == sp[k].bits.hi
  {
    seq(|sp|, k requires 0 <= k < |sp| reads set o | o in sp :: o.bits => sp[k].bits.hi)
  }

  /** The two runs part by part. */
  lemma {:induction false} PartsCompare(sp: seq<Op>, los: seq<half>, his: seq<half>,
                                        parts: seq<seq<byte>>, parts': seq<seq<byte>>)
    requires |sp| == |los| == |his| == |parts| == |parts'|
    requires forall k :: 0 <= k < |sp| ==> TwoRuns(sp[k], los[k], his[k], parts[k], parts'[k])
    ensures |Joined(parts)| == |Joined(parts')|
    ensures Joined(parts) == Joined(parts') <==> forall k :: 0 <= k < |sp| ==> Repeatable(sp[k], los[k], his[k])
  {
    hide Emission, Padded, Again, Repeatable, Joined;
    forall k | 0 <= k < |sp|
      ensures |parts[k]| == |parts'[k]| && (parts[k] == parts'[k] <==> Repeatable(sp[k], los[k], his[k]))
    {
      AgainLength(sp[k].payload, los[k], his[k], sp[k].len);
      AgainSame(sp[k], los[k], his[k], sp[k].len);
    }
    JoinedEqual(parts, parts');
  }

  lemma AgainLength(p: Payload, lo: half, hi: half, len: nat)
    requires |Emission(p, lo, hi)| <= len
    ensures |Again(p, lo, hi, len)| == len
  {
  }

  /** One run, with what each operation held, wrote and would write again. */
  method FinishOnce(w: BinaryWriter)
    returns (out: seq<byte>, ghost los: seq<half>, ghost his: seq<half>, ghost parts: seq<seq<byte>>)
    requires w.Valid()
    modifies w`finished, w.owner.Keys
    ensures w.Valid() && w.spine != []
    ensures |los| == |his| == |parts| == |w.Nows()| == |Rest(w.spine)| && out == Joined(parts)
    ensures forall k :: 0 <= k < |parts| ==> los[k] == old(Rest(w.spine)[k].bits.lo) && his[k] == old(Rest(w.spine)[k].bits.hi)
    ensures forall k :: 0 <= k < |parts| ==> TwoRuns(Rest(w.spine)[k], los[k], his[k], parts[k], w.Nows()[k])
  {
    hide BinaryWriter.Valid, BinaryWriter.Nows, Rest, Joined, Spent, Op.Valid, Op.Now, Emission, Padded, Again, Lows, Highs;
    w.NowsAre();
    w.OpsKnown();
    ghost var sp := Rest(w.spine);
    parts := w.Nows();
    los, his := Lows(sp), Highs(sp);
    forall k | 0 <= k < |sp|
      ensures |Emission(sp[k].payload, los[k], his[k])| <= sp[k].len
      ensures parts[k] == Padded(Emission(sp[k].payload, los[k], his[k]), sp[k].len)
    {
      NowIs(sp[k]);
    }
    var a := w.Finish();
    out := a[..];
    w.NowsAre();
    w.OpsKnown();
    forall k | 0 <= k < |sp|
      ensures TwoRuns(sp[k], los[k], his[k], parts[k], w.Nows()[k])
    {
      assert sp[k] in sp;
      NowAgain(sp[k], los[k], his[k]);
    }
  }

  /** Finishing again gives the same bytes exactly when every 64-bit value takes a single byte: the first
      run has consumed the others. */
  method FinishTwice(w: BinaryWriter) returns (first: seq<byte>, second: seq<byte>)
    requires w.Valid()
    modifies w`finished, w.owner.Keys
    ensures w.Valid() && |first| == |second| && w.spine != []
    ensures first == second <==> forall k :: 0 <= k < |Rest(w.spine)| ==>
      Repeatable(Rest(w.spine)[k], old(Rest(w.spine)[k].bits.lo), old(Rest(w.spine)[k].bits.hi))
  {
    hide BinaryWriter.Valid, BinaryWriter.Nows, Rest, Joined, TwoRuns, Repeatable;
    ghost var los, his, parts;
    first, los, his, parts := FinishOnce(w);
    PartsCompare(Rest(w.spine), los, his, parts, w.Nows());
    var b := w.Finish();
    second := b[..];
  }
}
