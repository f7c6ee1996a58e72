/**
 * Splitting a Dogecoin inscription over several scripts (packages/coin-bitcoin/src/doginals.ts):
 * chunks and their serialization, the shift/unshift loop, and the lock scripts.
 */
module Doginals {
  import opened Wrappers
  import opened Numerals

  /** One script element; `buf` is absent for opcodes that push nothing from the script. */
  datatype Chunk = Chunk(opcodenum: nat, buf: Option<seq<byte>>, len: nat)

  datatype ScriptError = SizeMismatch

  // ---- chunks

  /** `numberToChunk`: two bytes at most, so larger numbers are cut. */
  function NumberToChunk(n: nat): (c: Chunk)
    ensures c.opcodenum < 128 && (c.buf.Some? ==> c.opcodenum == |c.buf.value| == c.len && 1 <= c.len <= 2)
  {
    if n <= 16 then Chunk(if n == 0 then 0 else 80 + n, None, 0)
    else if n < 128 then Chunk(1, Some([n]), 1)
    else Chunk(2, Some([n % 256, n / 256 % 256]), 2)
  }

  /** `bufferToChunk` */
  function BufferToChunk(b: seq<byte>): Chunk {
    Chunk(if |b| <= 75 then |b| else if |b| <= 255 then 76 else 77, if b == [] then None else Some(b), |b|)
  }

  // ---- sizes and bytes

  /** `varuint.encodingLength` */
  function VarSize(n: nat): nat {
    if n < 0xfd then 1 else if n <= 0xffff then 3 else if n <= 0xffff_ffff then 5 else 9
  }

  /** The size that `total` counts for a chunk. */
  function ChunkSize(c: Chunk): nat {
    VarSize(c.opcodenum)
    + (if c.buf.Some? then (if c.opcodenum == 76 || c.opcodenum == 77 || c.opcodenum == 78 then VarSize(c.len) else 0) + |c.buf.value| else 0)
  }

  function Total(cs: seq<Chunk>): nat
    decreases |cs|
  {
    if cs == [] then 0 else Total(cs[..|cs| - 1]) + ChunkSize(cs[|cs| - 1])
  }

  /** The bytes that `toBuffer` writes for a chunk: opcode, length field, data. The length field of
      `OP_PUSHDATA2` is written with eight bytes. */
  function ChunkBytes(c: Chunk): seq<byte> {
    [c.opcodenum % 256]
    + (if c.buf.None? then []
       else if c.opcodenum == 76 then [c.len % 256] + c.buf.value
       else if c.opcodenum == 77 then FixedDigits(c.len, 256, 8) + c.buf.value
       else if c.opcodenum == 78 then FixedDigits(c.len, 256, 4) + c.buf.value
       else if c.opcodenum < 76 then c.buf.value
       else [])
  }

  function Bytes(cs: seq<Chunk>): seq<byte>
    decreases |cs|
  {
    if cs == [] then [] else Bytes(cs[..|cs| - 1]) + ChunkBytes(cs[|cs| - 1])
  }

  /** Chunks that `numberToChunk`, `bufferToChunk` and `opcodeToChunk` make. */
  predicate Made(c: Chunk) {
    || (c.buf.Some? && 0 < |c.buf.value| == c.len && c.opcodenum == (if c.len <= 75 then c.len else if c.len <= 255 then 76 else 77))
    || (c.buf.None? && c.opcodenum < 253)
  }

  /** How much more than what is written is counted for a push of `d` bytes. */
  function Excess(d: nat): int {
    if d <= 252 then 0 else if d <= 255 then 2 else if d <= 0xffff then -5 else if d <= 0xffff_ffff then -3 else 1
  }

  /** The size that is counted and the size that is written agree exactly for pushes of up to 252 bytes. */
  lemma {:induction false} ChunkSizes(c: Chunk)
    requires Made(c)
    ensures ChunkSize(c) == |ChunkBytes(c)| + (if c.buf.Some? then Excess(c.len) else 0)
  {
  }

  lemma {:induction false} TotalConcat(s: seq<Chunk>, t: seq<Chunk>)
    ensures Total(s + t) == Total(s) + Total(t)
    decreases |t|
  {
    if t == [] {
      assert s + t == s;
    } else {
      assert (s + t)[..|s + t| - 1] == s + t[..|t| - 1];
      TotalConcat(s, t[..|t| - 1]);
    }
  }

  lemma {:induction false} BytesConcat(s: seq<Chunk>, t: seq<Chunk>)
    ensures Bytes(s + t) == Bytes(s) + Bytes(t)
    decreases |t|
  {
    if t == [] {
      assert s + t == s;
    } else {
      assert (s + t)[..|s + t| - 1] == s + t[..|t| - 1];
      BytesConcat(s, t[..|t| - 1]);
      ConcatAssoc(Bytes(s), Bytes(t[..|t| - 1]), ChunkBytes(t[|t| - 1]));
    }
  }

  /** `toBuffer`: a writer of `total()` bytes refuses to run over, and to end early. */
  method ToBuffer(cs: seq<Chunk>) returns (r: Result<seq<byte>, ScriptError>)
    ensures r == if |Bytes(cs)| == Total(cs) then Success(Bytes(cs)) else Failure(SizeMismatch)
  {
    var capacity := Total(cs);
    var buffer: seq<byte> := [];
    for i := 0 to |cs|
      invariant buffer == Bytes(cs[..i]) && |buffer| <= capacity
    {
      assert cs[..i + 1][..i] == cs[..i];
      var b := ChunkBytes(cs[i]);
      BytesPrefix(cs, i + 1);
      if |buffer| + |b| > capacity {
        return Failure(SizeMismatch);
      }
      buffer := buffer + b;
    }
    assert cs[..|cs|] == cs;
    if |buffer| != capacity {
      return Failure(SizeMismatch);
    }
    return Success(buffer);
  }

  lemma {:induction false} BytesPrefix(cs: seq<Chunk>, i: nat)
    requires i <= |cs|
    ensures |Bytes(cs[..i])| <= |Bytes(cs)|
  {
    assert cs == cs[..i] + cs[i..];
    BytesConcat(cs[..i], cs[i..]);
  }

  lemma MadeChunks(n: nat, b: seq<byte>)
    ensures Made(NumberToChunk(n)) && Made(BufferToChunk(b))
  {
  }

  // ---- the split

  /** Numbered pairs, each small enough for a script of its own. */
  predicate PairsFit(rest: seq<Chunk>)
    decreases |rest|
  {
    rest == [] || (|rest| >= 2 && Total(rest[..2]) <= 1500 && PairsFit(rest[2..]))
  }

  function Concat(pieces: seq<seq<Chunk>>): seq<Chunk>
    decreases |pieces|
  {
    if pieces == [] then [] else Concat(pieces[..|pieces| - 1]) + pieces[|pieces| - 1]
  }

  /** Pairs are taken until the limit is passed or nothing is left. */
  function Taken(partial: seq<Chunk>, rest: seq<Chunk>): (r: (seq<Chunk>, seq<Chunk>))
    decreases |rest|
  {
    if Total(partial) <= 1500 && |rest| >= 2 then Taken(partial + rest[..2], rest[2..]) else (partial, rest)
  }

  /** The last pair goes back if the limit was passed. */
  function PutBack(partial: seq<Chunk>, rest: seq<Chunk>): (seq<Chunk>, seq<Chunk>) {
    var n := |partial|;
    if Total(partial) > 1500 && n >= 2 then (partial[..n - 2], partial[n - 2..] + rest) else (partial, rest)
  }

  /** One iteration: the piece, and the chunks left. */
  function Iteration(partial: seq<Chunk>, rest: seq<Chunk>): (seq<Chunk>, seq<Chunk>) {
    var t := Taken(partial, rest);
    PutBack(t.0, t.1)
  }

  /** How many chunks iteration `n` takes ahead of its pairs. */
  function Ahead(rest: seq<Chunk>, n: nat): nat {
    if n == 0 && rest != [] then 1 else 0
  }

  /** Iteration `n`, on what is left by then. */
  function Step(rest: seq<Chunk>, n: nat): (seq<Chunk>, seq<Chunk>) {
    Iteration(rest[..Ahead(rest, n)], rest[Ahead(rest, n)..])
  }

  /** What is left of `chunks` after `n` iterations of the loop. */
  function SplitTimes(chunks: seq<Chunk>, n: nat): seq<Chunk> {
    if n == 0 then chunks
    else
      var rest := SplitTimes(chunks, n - 1);
      if rest == [] then [] else Step(rest, n - 1).1
  }

  /** The piece that iteration `n` takes. */
  function PieceAt(chunks: seq<Chunk>, n: nat): seq<Chunk> {
    Step(SplitTimes(chunks, n), n).0
  }

  /** An iteration takes the next pair exactly when the limit allows. */
  lemma {:induction false} IterationStep(partial: seq<Chunk>, rest: seq<Chunk>)
    requires Total(partial) <= 1500 && |rest| >= 2
    ensures var more := partial + rest[..2];
      Iteration(partial, rest) == if Total(more) <= 1500 then Iteration(more, rest[2..]) else (partial, rest)
  {
    hide Total;
    var more := partial + rest[..2];
    if Total(more) > 1500 {
      assert Taken(partial, rest) == Taken(more, rest[2..]) == (more, rest[2..]);
      assert more[..|more| - 2] == partial && more[|more| - 2..] == rest[..2];
      assert rest[..2] + rest[2..] == rest;
    }
  }

  /** Nothing is lost, the piece is within the limit, and the next pair would not have fitted. */
  lemma {:induction false} IterationSplits(partial: seq<Chunk>, rest: seq<Chunk>)
    requires Total(partial) <= 1500 && |rest| % 2 == 0
    ensures var r := Iteration(partial, rest);
      && r.0 + r.1 == partial + rest && partial <= r.0 && |r.1| % 2 == 0 && Total(r.0) <= 1500
      && Follows(r.0, r.1)
    decreases |rest|
  {
    hide Total, Taken;
    if rest == [] {
      IterationNone(partial);
    } else {
      IterationStep(partial, rest);
      TotalConcat(partial, rest[..2]);
      if Total(partial + rest[..2]) <= 1500 {
        IterationSplits(partial + rest[..2], rest[2..]);
        assert rest == rest[..2] + rest[2..];
        ConcatAssoc(partial, rest[..2], rest[2..]);
      }
    }
  }

  lemma IterationNone(partial: seq<Chunk>)
    requires Total(partial) <= 1500
    ensures Iteration(partial, []) == (partial, [])
  {
  }

  /** The pairs left fit exactly when the pairs before did: a pair that does not fit is never taken. */
  lemma {:induction false} IterationFits(partial: seq<Chunk>, rest: seq<Chunk>)
    requires Total(partial) <= 1500 && |rest| % 2 == 0
    ensures PairsFit(Iteration(partial, rest).1) <==> PairsFit(rest)
    decreases |rest|
  {
    hide Total, Taken;
    if rest == [] {
      IterationNone(partial);
    } else {
      IterationStep(partial, rest);
      TotalConcat(partial, rest[..2]);
      if Total(partial + rest[..2]) <= 1500 {
        IterationFits(partial + rest[..2], rest[2..]);
      }
    }
  }

  /** An iteration that starts empty takes a pair, if the first one fits. */
  lemma {:induction false} IterationMoves(rest: seq<Chunk>)
    requires rest != [] && |rest| % 2 == 0 && Total(rest[..2]) <= 1500
    ensures rest[..2] <= Iteration([], rest).0
  {
    hide Total, Taken;
    TotalNone();
    IterationStep([], rest);
    assert [] + rest[..2] == rest[..2];
    IterationSplits(rest[..2], rest[2..]);
  }

  /** An odd number of chunks whose first one is within the limit. */
  predicate Splittable(chunks: seq<Chunk>) {
    |chunks| % 2 == 1 && Total(chunks[..1]) <= 1500
  }

  /** Every iteration starts within the limit and with pairs left. */
  lemma {:induction false} RunStart(chunks: seq<Chunk>, n: nat)
    requires Splittable(chunks)
    ensures var rest := SplitTimes(chunks, n);
      |rest[Ahead(rest, n)..]| % 2 == 0 && Total(rest[..Ahead(rest, n)]) <= 1500
    decreases n
  {
    hide Total, Iteration;
    TotalNone();
    if n > 0 {
      RunStart(chunks, n - 1);
      var before := SplitTimes(chunks, n - 1);
      IterationSplits(before[..Ahead(before, n - 1)], before[Ahead(before, n - 1)..]);
    }
  }

  /** What iteration `n` does while something is left. */
  lemma {:induction false} RunStep(chunks: seq<Chunk>, n: nat)
    requires Splittable(chunks) && SplitTimes(chunks, n) != []
    ensures var piece, next := PieceAt(chunks, n), SplitTimes(chunks, n + 1);
      && piece + next == SplitTimes(chunks, n) && Total(piece) <= 1500 && Follows(piece, next)
      && |next| % 2 == 0 && (n == 0 ==> piece != [])
  {
    hide Total, Iteration, Follows;
    RunStart(chunks, n);
    var rest := SplitTimes(chunks, n);
    var k := Ahead(rest, n);
    IterationSplits(rest[..k], rest[k..]);
    assert rest[..k] + rest[k..] == rest;
  }

  /** The pairs left fit exactly if all did; and if all did, every iteration takes some. */
  lemma {:induction false} RunFits(chunks: seq<Chunk>, n: nat)
    requires Splittable(chunks)
    ensures var rest := SplitTimes(chunks, n);
      && (PairsFit(rest[Ahead(rest, n)..]) <==> PairsFit(chunks[1..]))
      && (PairsFit(chunks[1..]) && rest != [] ==> PieceAt(chunks, n) != [] && (n > 0 ==> |PieceAt(chunks, n)| >= 2))
    decreases n
  {
    hide Total, Iteration;
    var rest := SplitTimes(chunks, n);
    RunStart(chunks, n);
    if n > 0 {
      RunFits(chunks, n - 1);
      var before := SplitTimes(chunks, n - 1);
      var k := Ahead(before, n - 1);
      RunStart(chunks, n - 1);
      if before != [] {
        IterationFits(before[..k], before[k..]);
      } else {
        assert before[k..] == before;
      }
      assert rest[0..] == rest;
      if rest != [] && PairsFit(rest) {
        IterationMoves(rest);
        assert rest[..0] == [];
      }
    } else if rest != [] {
      RunStep(chunks, 0);
    }
  }

  /** If all pairs fit, something is taken every time. */
  lemma {:induction false} RunShrinks(chunks: seq<Chunk>, n: nat)
    requires Splittable(chunks) && PairsFit(chunks[1..])
    ensures |SplitTimes(chunks, n)| <= if n < |chunks| then |chunks| - n else 0
    decreases n
  {
    hide Total, Iteration, PieceAt;
    if n > 0 {
      RunShrinks(chunks, n - 1);
      if SplitTimes(chunks, n - 1) != [] {
        RunStep(chunks, n - 1);
        RunFits(chunks, n - 1);
      }
    }
  }

  /** The loop ends if and only if every pair fits into a script of its own. */
  lemma {:induction false} SplitEnds(chunks: seq<Chunk>)
    requires Splittable(chunks)
    ensures (exists n :: SplitTimes(chunks, n) == []) <==> PairsFit(chunks[1..])
  {
    if PairsFit(chunks[1..]) {
      RunShrinks(chunks, |chunks|);
    }
    forall n | SplitTimes(chunks, n) == []
      ensures PairsFit(chunks[1..])
    {
      hide SplitTimes;
      RunFits(chunks, n);
    }
  }

  lemma SplitNone(chunks: seq<Chunk>)
    ensures SplitTimes(chunks, 0) == chunks
  {
  }

  /** The inner loop, by shifting two chunks at a time; `shift` is never called on an empty list. */
  method TakePairs(partial0: seq<Chunk>, rest0: seq<Chunk>) returns (partial: seq<Chunk>, rest: seq<Chunk>)
    requires |rest0| % 2 == 0
    ensures (partial, rest) == Taken(partial0, rest0)
  {
    hide Total;
    partial, rest := partial0, rest0;
    while Total(partial) <= 1500 && |rest| > 0
      invariant |rest| % 2 == 0 && Taken(partial, rest) == Taken(partial0, rest0)
      decreases |rest|
    {
      ghost var was, before := partial, rest;
      partial, rest := partial + [rest[0]], rest[1..];
      partial, rest := partial + [rest[0]], rest[1..];
      assert partial == was + before[..2] && rest == before[2..];
    }
  }

  /** An iteration's piece: pairs until the limit is passed or nothing is left, then the last pair back. */
  method FillPiece(partial0: seq<Chunk>, rest0: seq<Chunk>) returns (partial: seq<Chunk>, rest: seq<Chunk>)
    requires |rest0| % 2 == 0 && Total(partial0) <= 1500
    ensures (partial, rest) == Iteration(partial0, rest0)
  {
    hide Total, Taken;
    partial, rest := TakePairs(partial0, rest0);
    TakenLonger(partial0, rest0);
    if Total(partial) > 1500 {
      ghost var full, after := partial, rest;
      rest := [partial[|partial| - 1]] + rest;
      partial := partial[..|partial| - 1];
      rest := [partial[|partial| - 1]] + rest;
      partial := partial[..|partial| - 1];
      assert partial == full[..|full| - 2] && rest == full[|full| - 2..] + after;
    }
  }

  lemma {:induction false} TakenLonger(partial: seq<Chunk>, rest: seq<Chunk>)
    ensures |Taken(partial, rest).0| >= |partial|
    ensures Total(partial) <= 1500 < Total(Taken(partial, rest).0) ==> |Taken(partial, rest).0| >= 2
    decreases |rest|
  {
    if Total(partial) <= 1500 && |rest| >= 2 {
      hide Total;
      TakenLonger(partial + rest[..2], rest[2..]);
    }
  }

  lemma TotalNone()
    ensures Total([]) == 0
  {
  }

  /** One transaction's scripts. */
  datatype Scripts = Scripts(inscription: seq<byte>, redeem: seq<byte>)

  /** The lock: the key must sign, then every element that the piece pushed is dropped. */
  function Lock(pubKey: seq<byte>, drops: nat): seq<Chunk> {
    [BufferToChunk(pubKey), Chunk(173, None, 0)] + Repeat(Chunk(117, None, 0), drops) + [Chunk(81, None, 0)]
  }

  /** Pieces as long as the limit allows: the next one starts with a pair that would not have fitted. */
  ghost predicate Greedy(pieces: seq<seq<Chunk>>) {
    && (forall k :: 0 <= k < |pieces| ==> pieces[k] != [] && Total(pieces[k]) <= 1500)
    && (forall k :: 0 < k < |pieces| ==> |pieces[k]| >= 2 && Total(pieces[k - 1]) + Total(pieces[k][..2]) > 1500)
  }

  /** Every push is at most 252 bytes long. */
  predicate ShortPushes(cs: seq<Chunk>) {
    forall k :: 0 <= k < |cs| ==> Made(cs[k]) && (cs[k].buf.Some? ==> cs[k].len <= 252)
  }

  lemma {:induction false} ShortSizes(cs: seq<Chunk>)
    requires ShortPushes(cs)
    ensures |Bytes(cs)| == Total(cs)
    decreases |cs|
  {
    if cs != [] {
      ShortSizes(cs[..|cs| - 1]);
      ChunkSizes(cs[|cs| - 1]);
    }
  }

  /** One push of more than 252 bytes among shorter ones, and the sizes do not agree. */
  lemma {:induction false} LongSizes(cs: seq<Chunk>, k: nat)
    requires k < |cs| && Made(cs[k]) && cs[k].buf.Some? && cs[k].len > 252
    requires ShortPushes(cs[..k]) && ShortPushes(cs[k + 1..])
    ensures |Bytes(cs)| != Total(cs)
  {
    hide Made;
    var a, c, b := cs[..k], cs[k], cs[k + 1..];
    assert cs == (a + [c]) + b;
    TotalConcat(a + [c], b);
    BytesConcat(a + [c], b);
    TotalConcat(a, [c]);
    BytesConcat(a, [c]);
    ShortSizes(a);
    ShortSizes(b);
    assert [c][..0] == [];
    ChunkSizes(c);
  }

  lemma {:induction false} LockSizes(pubKey: seq<byte>, drops: nat)
    ensures |Bytes(Lock(pubKey, drops))| == Total(Lock(pubKey, drops)) <==> |pubKey| <= 252
  {
    var lock := Lock(pubKey, drops);
    MadeChunks(0, pubKey);
    assert ShortPushes(lock[..0]) && ShortPushes(lock[1..]);
    if |pubKey| > 252 {
      LongSizes(lock, 0);
    } else {
      ShortSizes(lock);
    }
  }

  /** A script whose size is counted as it is written. */
  predicate Exact(piece: seq<Chunk>) {
    |Bytes(piece)| == Total(piece)
  }

  /** The scripts of one piece. */
  method MakeScripts(piece: seq<Chunk>, pubKey: seq<byte>) returns (r: Result<Scripts, ScriptError>)
    ensures r.Success? <==> |pubKey| <= 252 && Exact(piece)
    ensures r.Success? ==> ScriptsOf(piece, pubKey, r.value)
  {
    hide Total, Bytes, Lock;
    LockSizes(pubKey, |piece|);
    var redeem :- ToBuffer(Lock(pubKey, |piece|));
    var inscription :- ToBuffer(piece);
    return Success(Scripts(inscription, redeem));
  }

  /** The inscription script is the piece, in exactly the counted size, and the lock drops its elements. */
  ghost predicate ScriptsOf(piece: seq<Chunk>, pubKey: seq<byte>, s: Scripts) {
    && s.inscription == Bytes(piece) && |s.inscription| == Total(piece)
    && s.redeem == Bytes(Lock(pubKey, |piece|))
  }

  /** Every iteration finds its script counted as it is written. */
  ghost predicate AllExact(chunks: seq<Chunk>) {
    forall n :: SplitTimes(chunks, n) != [] ==> Exact(PieceAt(chunks, n))
  }

  /** The loop of `createInscriptionTxCtxData`, on all lists on which it ends or throws at once: the pieces make
      up the chunks, in order and as long as the limit allows; each script is its piece serialized to exactly
      the counted size, and each lock drops as many elements as its piece pushes. */
  method CreateScripts(chunks: seq<Chunk>, pubKey: seq<byte>)
    returns (r: Result<seq<Scripts>, ScriptError>, ghost pieces: seq<seq<Chunk>>)
    requires Splittable(chunks) && (|pubKey| <= 252 ==> PairsFit(chunks[1..]))
    ensures r.Success? <==> |pubKey| <= 252 && AllExact(chunks)
    ensures r.Success? ==> Concat(pieces) == chunks && Greedy(pieces) && |r.value| == |pieces|
    ensures r.Success? ==> forall k :: 0 <= k < |pieces| ==> ScriptsOf(pieces[k], pubKey, r.value[k])
  {
    hide Total, PairsFit, Concat, Greedy, ScriptsOf, Iteration, SplitTimes, PieceAt, Exact, Follows;
    var rest, ctxs: seq<Scripts> := chunks, [];
    pieces := [];
    NoPieces();
    SplitNone(chunks);
    while |rest| > 0
      invariant rest == SplitTimes(chunks, |pieces|) && Concat(pieces) + rest == chunks
      invariant |ctxs| == |pieces| && Greedy(pieces) && (pieces != [] ==> |pubKey| <= 252)
      invariant pieces != [] ==> Follows(pieces[|pieces| - 1], rest)
      invariant forall k :: 0 <= k < |pieces| ==> ScriptsOf(pieces[k], pubKey, ctxs[k]) && Exact(PieceAt(chunks, k))
      decreases |rest|
    {
      ghost var before, n := rest, |pieces|;
      var partial: seq<Chunk> := [];
      RunStart(chunks, n);
      RunStep(chunks, n);
      RunFits(chunks, n);
      if |ctxs| == 0 {
        partial, rest := [rest[0]], rest[1..];
      }
      assert partial == before[..Ahead(before, n)] && rest == before[Ahead(before, n)..];
      partial, rest := FillPiece(partial, rest);
      StepIs(chunks, n);
      ConcatAssoc(Concat(pieces), partial, rest);
      var scripts := MakeScripts(partial, pubKey);
      if scripts.Failure? {
        return Failure(SizeMismatch), pieces;
      }
      AddPiece(pieces, partial, before);
      ctxs := ctxs + [scripts.value];
      pieces := pieces + [partial];
    }
    assert Concat(pieces) + [] == Concat(pieces);
    EndsForGood(chunks, |pieces|);
    return Success(ctxs), pieces;
  }

  lemma StepIs(chunks: seq<Chunk>, n: nat)
    ensures var rest := SplitTimes(chunks, n); var r := Iteration(rest[..Ahead(rest, n)], rest[Ahead(rest, n)..]);
      PieceAt(chunks, n) == r.0 && (rest != [] ==> SplitTimes(chunks, n + 1) == r.1)
  {
  }

  /** Once nothing is left it stays so, and all iterations are known. */
  lemma {:induction false} EndsForGood(chunks: seq<Chunk>, n: nat)
    requires SplitTimes(chunks, n) == [] && forall k :: 0 <= k < n ==> Exact(PieceAt(chunks, k))
    ensures AllExact(chunks)
  {
    hide Exact, PieceAt;
    forall m: nat | SplitTimes(chunks, m) != []
      ensures Exact(PieceAt(chunks, m))
    {
      if m >= n {
        StaysEmpty(chunks, n, m);
      }
    }
  }

  lemma {:induction false} StaysEmpty(chunks: seq<Chunk>, n: nat, m: nat)
    requires SplitTimes(chunks, n) == [] && n <= m
    ensures SplitTimes(chunks, m) == []
    decreases m
  {
    if n < m {
      StaysEmpty(chunks, n, m - 1);
    }
  }

  /** What follows a piece would not have fitted into it. */
  predicate Follows(piece: seq<Chunk>, rest: seq<Chunk>) {
    rest != [] ==> |rest| >= 2 && Total(piece) + Total(rest[..2]) > 1500
  }

  lemma NoPieces()
    ensures Concat([]) == [] && Greedy([])
    ensures forall c: seq<Chunk> :: [] + c == c
  {
  }

  lemma {:induction false} AddPiece(pieces: seq<seq<Chunk>>, piece: seq<Chunk>, rest: seq<Chunk>)
    requires Greedy(pieces) && piece != [] && Total(piece) <= 1500 && piece <= rest
    requires pieces != [] ==> |piece| >= 2 && Follows(pieces[|pieces| - 1], rest)
    ensures Greedy(pieces + [piece]) && Concat(pieces + [piece]) == Concat(pieces) + piece
  {
    assert (pieces + [piece])[..|pieces|] == pieces;
    assert pieces != [] ==> piece[..2] == rest[..2];
  }
}
