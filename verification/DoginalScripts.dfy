/**
 * What the inscription scripts of packages/coin-bitcoin/src/doginals.ts mean: the body that a reader puts together
 * again from the elements that all of them push.
 */
module DoginalScripts {
  import opened Wrappers
  import opened Numerals
  import opened Doginals
  import opened DoginalRun

  // ---- cutting the body

  function Join(parts: seq<seq<byte>>): seq<byte>
    decreases |parts|
  {
    if parts == [] then [] else parts[0] + Join(parts[1..])
  }

  lemma {:induction false} JoinAppend(parts: seq<seq<byte>>, p: seq<byte>)
    ensures Join(parts + [p]) == Join(parts) + p
    decreases |parts|
  {
    if parts == [] {
      assert Join([p]) == p + Join([p][1..]) == p;
      assert parts + [p] == [p];
    } else {
      assert (parts + [p])[1..] == parts[1..] + [p];
      JoinAppend(parts[1..], p);
      ConcatAssoc(parts[0], Join(parts[1..]), p);
    }
  }

  /** The parts of the body: 240 bytes each, the last one possibly shorter. */
  method CutBody(body: seq<byte>) returns (parts: seq<seq<byte>>)
    ensures Join(parts) == body
    ensures forall k :: 0 <= k < |parts| ==> 1 <= |parts[k]| <= 240 && (k < |parts| - 1 ==> |parts[k]| == 240)
  {
    var data := body;
    parts := [];
    while |data| > 0
      invariant Join(parts) + data == body
      invariant forall k :: 0 <= k < |parts| ==> 1 <= |parts[k]| <= 240 && (data != [] || k < |parts| - 1 ==> |parts[k]| == 240)
      decreases |data|
    {
      var part := data[..if |data| < 240 then |data| else 240];
      assert data == part + data[|part|..];
      JoinAppend(parts, part);
      ConcatAssoc(Join(parts), part, data[|part|..]);
      data := data[|part|..];
      parts := parts + [part];
    }
    assert Join(parts) + [] == Join(parts);
  }

  /** How many parts a body of `n` bytes has. */
  function Parts(n: nat): nat {
    (n + 239) / 240
  }

  /** How many parts there are. */
  lemma {:induction false} PartsCount(parts: seq<seq<byte>>)
    requires forall k :: 0 <= k < |parts| ==> 1 <= |parts[k]| <= 240 && (k < |parts| - 1 ==> |parts[k]| == 240)
    ensures |parts| == Parts(|Join(parts)|)
    decreases |parts|
  {
    if |parts| > 0 {
      PartsCount(parts[1..]);
      if |parts| == 1 {
        assert parts[1..] == [];
      }
    }
  }

  // ---- the chunks

  /** Each part after the number of parts that follow it. */
  function PartChunks(parts: seq<seq<byte>>): seq<Chunk>
    decreases |parts|
  {
    if parts == [] then [] else [NumberToChunk(|parts| - 1), BufferToChunk(parts[0])] + PartChunks(parts[1..])
  }

  /** `ord`, the number of parts, the content type, and the numbered parts. */
  function InscriptionChunks(contentType: seq<byte>, parts: seq<seq<byte>>): seq<Chunk> {
    [BufferToChunk([111, 114, 100]), NumberToChunk(|parts|), BufferToChunk(contentType)] + PartChunks(parts)
  }

  lemma {:induction false} PairSize(c: Chunk, d: Chunk)
    ensures Total([c, d]) == ChunkSize(c) + ChunkSize(d)
  {
    assert [c, d][..1] == [c] && [c][..0] == [];
    assert Total([c]) == ChunkSize(c);
  }

  lemma {:induction false} PartsFit(parts: seq<seq<byte>>)
    requires forall k :: 0 <= k < |parts| ==> |parts[k]| <= 240
    ensures PairsFit(PartChunks(parts))
    decreases |parts|
  {
    if parts != [] {
      var cs := PartChunks(parts);
      PairSize(cs[0], cs[1]);
      assert cs[..2] == [cs[0], cs[1]] && cs[2..] == PartChunks(parts[1..]);
      PartsFit(parts[1..]);
    }
  }

  /** The size of the first pair, the only one that depends on the content type. */
  function FirstPair(contentType: seq<byte>, n: nat): nat {
    ChunkSize(NumberToChunk(n)) + ChunkSize(BufferToChunk(contentType))
  }

  lemma {:induction false} FitsWhen(contentType: seq<byte>, parts: seq<seq<byte>>)
    requires forall k :: 0 <= k < |parts| ==> |parts[k]| <= 240
    ensures var cs := InscriptionChunks(contentType, parts);
      Splittable(cs) && (PairsFit(cs[1..]) <==> FirstPair(contentType, |parts|) <= 1500)
  {
    var cs := InscriptionChunks(contentType, parts);
    PairSize(cs[1], cs[2]);
    assert cs[1..][..2] == [cs[1], cs[2]] && cs[1..][2..] == PartChunks(parts);
    PartsFit(parts);
    PartsEven(parts);
    assert cs[..1] == [cs[0]] && [cs[0]][..0] == [];
    assert Total(cs[..1]) == ChunkSize(cs[0]);
  }

  lemma {:induction false} PartsEven(parts: seq<seq<byte>>)
    ensures |PartChunks(parts)| == 2 * |parts|
    decreases |parts|
  {
    if parts != [] {
      PartsEven(parts[1..]);
    }
  }

  /** The split loop ends if and only if the content type fits into a script with the number of parts. */
  lemma {:induction false} LoopEnds(contentType: seq<byte>, parts: seq<seq<byte>>)
    requires forall k :: 0 <= k < |parts| ==> |parts[k]| <= 240
    ensures (exists n :: SplitTimes(InscriptionChunks(contentType, parts), n) == [])
            <==> FirstPair(contentType, |parts|) <= 1500
  {
    hide SplitTimes, InscriptionChunks, FirstPair;
    FitsWhen(contentType, parts);
    SplitEnds(InscriptionChunks(contentType, parts));
  }

  /** When the loop ends, every script is written as it is counted exactly if the content type has at most 252
      bytes; otherwise the script with the content type makes `toBuffer` throw. */
  lemma {:induction false} ExactWhen(contentType: seq<byte>, parts: seq<seq<byte>>)
    requires forall k :: 0 <= k < |parts| ==> |parts[k]| <= 240
    requires FirstPair(contentType, |parts|) <= 1500
    ensures AllExact(InscriptionChunks(contentType, parts)) <==> |contentType| <= 252
  {
    hide AllExact, InscriptionChunks, FirstPair, PieceAt, SplitTimes;
    if |contentType| <= 252 {
      AllShort(contentType, parts);
    } else {
      LongPiece(contentType, parts);
    }
  }

  lemma {:induction false} AllShort(contentType: seq<byte>, parts: seq<seq<byte>>)
    requires forall k :: 0 <= k < |parts| ==> |parts[k]| <= 240
    requires |contentType| <= 252
    ensures AllExact(InscriptionChunks(contentType, parts))
  {
    hide InscriptionChunks, PieceAt, SplitTimes, ShortPushes;
    var cs := InscriptionChunks(contentType, parts);
    FitsWhen(contentType, parts);
    ChunksShort(contentType, parts);
    forall n: nat | SplitTimes(cs, n) != []
      ensures Exact(PieceAt(cs, n))
    {
      LeftShort(cs, n);
      RunStep(cs, n);
      ShortFront(PieceAt(cs, n), SplitTimes(cs, n + 1));
      ShortSizes(PieceAt(cs, n));
    }
  }

  lemma {:induction false} LeftShort(cs: seq<Chunk>, n: nat)
    requires Splittable(cs) && ShortPushes(cs)
    ensures ShortPushes(SplitTimes(cs, n))
    decreases n
  {
    hide ShortPushes, PieceAt, Step;
    if n > 0 {
      LeftShort(cs, n - 1);
      if SplitTimes(cs, n - 1) != [] {
        RunStep(cs, n - 1);
        ShortFront(PieceAt(cs, n - 1), SplitTimes(cs, n));
      } else {
        assert ShortPushes([]) by { NothingLong(); }
      }
    }
  }

  lemma NothingLong()
    ensures ShortPushes([])
  {
  }

  lemma {:induction false} ShortFront(s: seq<Chunk>, t: seq<Chunk>)
    requires ShortPushes(s + t)
    ensures ShortPushes(s) && ShortPushes(t)
  {
    assert forall k :: 0 <= k < |s| ==> s[k] == (s + t)[k];
    assert forall k :: 0 <= k < |t| ==> t[k] == (s + t)[|s| + k];
  }

  /** The piece with the content type is the first one, or the second if the first holds only `ord`. */
  lemma {:induction false} LongPiece(contentType: seq<byte>, parts: seq<seq<byte>>)
    requires forall k :: 0 <= k < |parts| ==> |parts[k]| <= 240
    requires FirstPair(contentType, |parts|) <= 1500 && |contentType| > 252
    ensures !AllExact(InscriptionChunks(contentType, parts))
  {
    hide Total, Bytes, Iteration, FirstPair, PartChunks, Made;
    var cs := InscriptionChunks(contentType, parts);
    FitsWhen(contentType, parts);
    var ord, rest := cs[..1], cs[1..];
    assert SplitTimes(cs, 0) == cs && PieceAt(cs, 0) == Iteration(ord, rest).0 && SplitTimes(cs, 1) == Iteration(ord, rest).1;
    IterationStep(ord, rest);
    assert ord + rest == cs && ord + rest[..2] == cs[..3] && rest[2..] == cs[3..];
    PartsEven(parts);
    if Total(cs[..3]) <= 1500 {
      IterationSplits(cs[..3], cs[3..]);
      assert cs[..3] + cs[3..] == cs;
      InexactAround(contentType, parts, 0, PieceAt(cs, 0));
    } else {
      TotalNone();
      RunFits(cs, 1);
      IterationMoves(rest);
      IterationSplits([], rest);
      assert rest[..0] == [] && rest[0..] == rest && [] + rest == rest;
      assert PieceAt(cs, 1) == Iteration([], rest).0;
      InexactAround(contentType, parts, 1, PieceAt(cs, 1));
    }
  }

  lemma {:induction false} InexactAround(contentType: seq<byte>, parts: seq<seq<byte>>, i: nat, piece: seq<Chunk>)
    requires (forall k :: 0 <= k < |parts| ==> |parts[k]| <= 240) && |contentType| > 252
    requires i <= 1 && |piece| >= 3 - i && piece <= InscriptionChunks(contentType, parts)[i..]
    ensures !Exact(piece)
  {
    hide Made, Total, Bytes;
    var cs := InscriptionChunks(contentType, parts);
    var k := 2 - i;
    assert piece[k] == cs[i..][k] == cs[2];
    MadeChunks(|parts|, contentType);
    LongChunk(contentType);
    var short := InscriptionChunks([], parts);
    ChunksShort([], parts);
    assert forall j :: 0 <= j < |cs| && j != 2 ==> cs[j] == short[j];
    var front, back := piece[..k], piece[k + 1..];
    forall j | 0 <= j < |front|
      ensures front[j] == short[i + j]
    {
      assert front[j] == cs[i..][j];
    }
    forall j | 0 <= j < |back|
      ensures back[j] == short[3 + j]
    {
      assert back[j] == cs[i..][k + 1 + j];
    }
    LongSizes(piece, k);
  }

  lemma LongChunk(b: seq<byte>)
    requires |b| > 252
    ensures BufferToChunk(b).buf.Some? && BufferToChunk(b).len > 252
  {
  }

  lemma {:induction false} ChunksShort(contentType: seq<byte>, parts: seq<seq<byte>>)
    requires |contentType| <= 252 && forall k :: 0 <= k < |parts| ==> |parts[k]| <= 240
    ensures ShortPushes(InscriptionChunks(contentType, parts))
  {
    PartsShort(parts);
    var cs := InscriptionChunks(contentType, parts);
    MadeChunks(|parts|, contentType);
    MadeChunks(0, [111, 114, 100]);
    forall k | 0 <= k < |cs|
      ensures Made(cs[k]) && (cs[k].buf.Some? ==> cs[k].len <= 252)
    {
      if k >= 3 {
        assert cs[k] == PartChunks(parts)[k - 3];
      }
    }
  }

  lemma {:induction false} PartsShort(parts: seq<seq<byte>>)
    requires forall k :: 0 <= k < |parts| ==> |parts[k]| <= 240
    ensures ShortPushes(PartChunks(parts))
    decreases |parts|
  {
    if parts != [] {
      PartsShort(parts[1..]);
      MadeChunks(|parts| - 1, parts[0]);
      var cs := PartChunks(parts);
      forall k | 0 <= k < |cs|
        ensures Made(cs[k]) && (cs[k].buf.Some? ==> cs[k].len <= 252)
      {
        if k >= 2 {
          assert cs[k] == PartChunks(parts[1..])[k - 2];
        }
      }
    }
  }

  // ---- reading the inscription back

  /** The number that an element stands for, low byte first. */
  function NumberOf(item: seq<byte>): nat {
    Value(item, 256)
  }

  /** Numbers come back exactly below 65536. */
  lemma {:induction false} NumberRoundTrip(n: nat)
    ensures IsPush(NumberToChunk(n))
    ensures NumberOf(Item(NumberToChunk(n))) == n <==> n < 0x1_0000
  {
    var item := Item(NumberToChunk(n));
    if |item| == 1 {
      assert item[1..] == [] && Value(item, 256) == item[0];
    } else if |item| == 2 {
      assert item[1..] == [item[1]] && item[1..][1..] == [];
      var low: nat, high: nat := item[0], item[1];
      assert Value(item[1..], 256) == high && Value(item, 256) == low + 256 * high;
    }
  }

  /** Parts, each announced by the number of parts still to come. */
  function ReadParts(items: seq<seq<byte>>): Option<seq<byte>>
    decreases |items|
  {
    if items == [] then Some([])
    else if |items| == 1 || NumberOf(items[0]) != |items| / 2 - 1 then None
    else
      var rest := ReadParts(items[2..]);
      if rest.None? then None else Some(items[1] + rest.value)
  }

  /** Content type and body. */
  function ReadInscription(items: seq<seq<byte>>): Option<(seq<byte>, seq<byte>)> {
    if |items| < 3 || items[0] != [111, 114, 100] || 2 * NumberOf(items[1]) + 3 != |items| then None
    else
      var body := ReadParts(items[3..]);
      if body.None? then None else Some((items[2], body.value))
  }

  lemma {:induction false} AllPush(contentType: seq<byte>, parts: seq<seq<byte>>)
    ensures AllPushes(PartChunks(parts)) && |PartChunks(parts)| == 2 * |parts|
    ensures AllPushes(InscriptionChunks(contentType, parts))
    decreases |parts|
  {
    NumberRoundTrip(|parts|);
    if parts != [] {
      NumberRoundTrip(|parts| - 1);
      AllPush(contentType, parts[1..]);
      var cs := PartChunks(parts);
      forall k | 0 <= k < |cs|
        ensures IsPush(cs[k])
      {
        if k >= 2 {
          assert cs[k] == PartChunks(parts[1..])[k - 2];
        }
      }
    }
    var all := InscriptionChunks(contentType, parts);
    forall k | 0 <= k < |all|
      ensures IsPush(all[k])
    {
      if k >= 3 {
        assert all[k] == PartChunks(parts)[k - 3];
      }
    }
  }

  lemma {:induction false} ReadPartsBack(parts: seq<seq<byte>>)
    requires |parts| < 0x1_0000
    requires AllPushes(PartChunks(parts))
    ensures ReadParts(Items(PartChunks(parts))) == Some(Join(parts))
    decreases |parts|
  {
    AllPush([], parts);
    var items := Items(PartChunks(parts));
    if parts != [] {
      NumberRoundTrip(|parts| - 1);
      AllPush([], parts[1..]);
      ReadPartsBack(parts[1..]);
      assert items[2..] == Items(PartChunks(parts[1..]));
      assert items[1] == parts[0];
    }
  }

  /** All chunks together give back the content type and the body exactly for fewer than 65536 parts. */
  lemma {:induction false} ReadBack(contentType: seq<byte>, parts: seq<seq<byte>>)
    requires AllPushes(InscriptionChunks(contentType, parts))
    ensures ReadInscription(Items(InscriptionChunks(contentType, parts))) == Some((contentType, Join(parts)))
            <==> |parts| < 0x1_0000
  {
    var items := Items(InscriptionChunks(contentType, parts));
    AllPush(contentType, parts);
    NumberRoundTrip(|parts|);
    assert items[1] == Item(NumberToChunk(|parts|));
    if |parts| < 0x1_0000 {
      ReadPartsBack(parts);
      assert items[3..] == Items(PartChunks(parts));
      assert items[0] == [111, 114, 100] && items[2] == contentType;
    }
  }

  // ---- the whole construction

  /** The elements that all scripts push, one script after the other. */
  ghost function AllPushed(scripts: seq<Scripts>): Option<seq<seq<byte>>>
    decreases |scripts|
  {
    if scripts == [] then Some([])
    else
      var n := |scripts| - 1;
      var front, last := AllPushed(scripts[..n]), Pushed(scripts[n].inscription);
      if front.None? || last.None? then None else Some(front.value + last.value)
  }

  /** All scripts together push the elements of all chunks, and every lock opens. */
  lemma {:induction false} PiecesPush(pieces: seq<seq<Chunk>>, scripts: seq<Scripts>, pubKey: seq<byte>, chunks: seq<Chunk>)
    requires |scripts| == |pieces| && Concat(pieces) == chunks && ShortPushes(chunks) && AllPushes(chunks) && |pubKey| <= 252
    requires forall k :: 0 <= k < |pieces| ==> ScriptsOf(pieces[k], pubKey, scripts[k])
    ensures AllPushed(scripts) == Some(Items(chunks))
    ensures forall k :: 0 <= k < |scripts| ==> ShortPushes(pieces[k]) && AllPushes(pieces[k]) && Opens(scripts[k], pubKey)
    decreases |pieces|
  {
    hide ScriptsOf, Pushed, Opens, ShortPushes, AllPushes, Items;
    if pieces != [] {
      var n := |pieces| - 1;
      var front, last := Concat(pieces[..n]), pieces[n];
      Split(front, last);
      PiecesPush(pieces[..n], scripts[..n], pubKey, front);
      PieceOpens(last, pubKey, scripts[n]);
      ScriptIs(last, pubKey, scripts[n]);
      PieceItems(last);
      assert forall k :: 0 <= k < n ==> scripts[..n][k] == scripts[k] && pieces[..n][k] == pieces[k];
    } else {
      NoItems();
    }
  }

  lemma {:induction false} Split(front: seq<Chunk>, last: seq<Chunk>)
    requires ShortPushes(front + last) && AllPushes(front + last)
    ensures ShortPushes(front) && ShortPushes(last) && AllPushes(front) && AllPushes(last)
    ensures Items(front + last) == Items(front) + Items(last)
  {
    hide Made, IsPush, Item;
    ShortFront(front, last);
    assert forall k :: 0 <= k < |front| ==> front[k] == (front + last)[k];
    assert forall k :: 0 <= k < |last| ==> last[k] == (front + last)[|front| + k];
  }

  lemma NoItems()
    ensures AllPushes([]) && Items([]) == []
  {
  }

  lemma ScriptIs(piece: seq<Chunk>, pubKey: seq<byte>, s: Scripts)
    requires ScriptsOf(piece, pubKey, s)
    ensures s.inscription == Bytes(piece) && Total(piece) == |s.inscription| && s.redeem == Bytes(Lock(pubKey, |piece|))
  {
  }

  // ---- how long a lock gets

  lemma {:induction false} PartAt(parts: seq<seq<byte>>, m: nat)
    requires m < |parts|
    ensures |PartChunks(parts)| == 2 * |parts| && PartChunks(parts)[2 * m + 1] == BufferToChunk(parts[m])
    decreases m
  {
    PartsEven(parts);
    if m > 0 {
      PartAt(parts[1..], m - 1);
      assert PartChunks(parts)[2 * m + 1] == PartChunks(parts[1..])[2 * (m - 1) + 1];
    }
  }

  /** Every second chunk of seven pairs is a full part: more than the limit. */
  lemma {:induction false} FullParts(t: seq<Chunk>, n: nat)
    requires |t| == 2 * n && forall k :: 0 <= k < n ==> ChunkSize(t[2 * k]) >= 242
    ensures Total(t) >= 242 * n
    decreases n
  {
    hide ChunkSize;
    if n > 0 {
      var front := t[..2 * n - 2];
      assert forall k :: 0 <= k < n - 1 ==> front[2 * k] == t[2 * k];
      FullParts(front, n - 1);
      assert t[..2 * n - 1][..2 * n - 2] == front;
      assert Total(t) == Total(t[..2 * n - 1]) + ChunkSize(t[2 * n - 1]);
      assert Total(t[..2 * n - 1]) == Total(front) + ChunkSize(t[2 * n - 2]);
    }
  }

  /** No more than 17 chunks fit into a script. */
  lemma {:induction false} FewChunks(contentType: seq<byte>, parts: seq<seq<byte>>, a: seq<Chunk>, piece: seq<Chunk>, b: seq<Chunk>)
    requires forall k :: 0 <= k < |parts| ==> 1 <= |parts[k]| <= 240 && (k < |parts| - 1 ==> |parts[k]| == 240)
    requires a + piece + b == InscriptionChunks(contentType, parts) && Total(piece) <= 1500
    ensures |piece| <= 17
  {
    hide Total, ChunkSize, PartChunks;
    if |piece| >= 18 {
      var cs, i := InscriptionChunks(contentType, parts), |a|;
      var q := if i < 4 then 4 - i else i % 2;
      var m := (i + q - 4) / 2;
      var t := piece[q..q + 14];
      PartsEven(parts);
      forall k | 0 <= k < 7
        ensures ChunkSize(t[2 * k]) >= 242
      {
        assert t[2 * k] == piece[q + 2 * k] == cs[i + q + 2 * k];
        PartAt(parts, m + k);
        assert cs[i + q + 2 * k] == PartChunks(parts)[2 * (m + k) + 1];
        FullSize(parts[m + k]);
      }
      FullParts(t, 7);
      assert piece == piece[..q] + t + piece[q + 14..];
      TotalConcat(piece[..q] + t, piece[q + 14..]);
      TotalConcat(piece[..q], t);
    }
  }

  lemma FullSize(b: seq<byte>)
    requires |b| == 240
    ensures ChunkSize(BufferToChunk(b)) == 242
  {
  }

  lemma {:induction false} LockLength(pubKey: seq<byte>, drops: nat)
    ensures |Bytes(Lock(pubKey, drops))| <= |pubKey| + drops + 11
    ensures |pubKey| <= 252 ==> |Bytes(Lock(pubKey, drops))| <= |pubKey| + drops + 4
  {
    LockBytes(pubKey, drops);
  }

  /** So for keys of up to 231 bytes the lock fits into one push of the reveal's input. */
  lemma {:induction false} ShortLocks(contentType: seq<byte>, parts: seq<seq<byte>>, pubKey: seq<byte>,
                                      pieces: seq<seq<Chunk>>, scripts: seq<Scripts>, k: nat, rest: seq<Chunk>)
    requires forall k :: 0 <= k < |parts| ==> 1 <= |parts[k]| <= 240 && (k < |parts| - 1 ==> |parts[k]| == 240)
    requires k < |pieces| == |scripts| && Concat(pieces) + rest == InscriptionChunks(contentType, parts)
    requires ScriptsOf(pieces[k], pubKey, scripts[k]) && Total(pieces[k]) <= 1500 && |pubKey| <= 252
    ensures |scripts[k].redeem| <= |pubKey| + 21
    decreases |pieces|
  {
    hide Total, Bytes, Lock, InscriptionChunks;
    var n := |pieces| - 1;
    ConcatAssoc(Concat(pieces[..n]), pieces[n], rest);
    if k == n {
      FewChunks(contentType, parts, Concat(pieces[..n]), pieces[n], rest);
      LockLength(pubKey, |pieces[n]|);
    } else {
      ShortLocks(contentType, parts, pubKey, pieces[..n], scripts[..n], k, pieces[n] + rest);
    }
  }

  /** From body to scripts, on every input on which the source ends or throws: it throws exactly when the content
      type or the key has more than 252 bytes. Otherwise every lock opens on what its script pushed exactly with a
      signature of the key; and reading the elements of all scripts in order gives back content type and body exactly
      for fewer than 65536 parts. */
  method Inscribe(body: seq<byte>, contentType: seq<byte>, pubKey: seq<byte>) returns (r: Result<seq<Scripts>, ScriptError>)
    requires |pubKey| <= 252 ==> FirstPair(contentType, Parts(|body|)) <= 1500
    ensures r.Success? <==> |contentType| <= 252 && |pubKey| <= 252
    ensures r.Success? ==> AllPushed(r.value).Some?
    ensures r.Success? ==>
      (ReadInscription(AllPushed(r.value).value) == Some((contentType, body)) <==> Parts(|body|) < 0x1_0000)
    ensures r.Success? ==> forall k :: 0 <= k < |r.value| ==> Opens(r.value[k], pubKey)
    ensures r.Success? ==> forall k :: 0 <= k < |r.value| ==> |r.value[k].redeem| <= |pubKey| + 21
    ensures r.Success? && |pubKey| <= 231 ==> forall k :: 0 <= k < |r.value| ==> Spends(r.value[k], pubKey)
  {
    hide InscriptionChunks, PairsFit, Total, ChunkSize, FirstPair, ShortPushes, Concat, Greedy, ScriptsOf, Opens, Spends, AllPushed,
      Items, ReadInscription, Join, IsPush, AllPushes, AllExact;
    var parts := CutBody(body);
    var chunks := InscriptionChunks(contentType, parts);
    PartsCount(parts);
    FitsWhen(contentType, parts);
    if |pubKey| <= 252 {
      ExactWhen(contentType, parts);
    }
    ghost var pieces;
    r, pieces := CreateScripts(chunks, pubKey);
    if r.Success? {
      ChunksShort(contentType, parts);
      AllPush(contentType, parts);
      PiecesPush(pieces, r.value, pubKey, chunks);
      ReadBack(contentType, parts);
      AllShortLocks(contentType, parts, pubKey, pieces, r.value);
      AllSpend(pubKey, pieces, r.value);
    }
  }

  lemma {:induction false} AllShortLocks(contentType: seq<byte>, parts: seq<seq<byte>>, pubKey: seq<byte>,
                                         pieces: seq<seq<Chunk>>, scripts: seq<Scripts>)
    requires forall k :: 0 <= k < |parts| ==> 1 <= |parts[k]| <= 240 && (k < |parts| - 1 ==> |parts[k]| == 240)
    requires |pieces| == |scripts| && Concat(pieces) == InscriptionChunks(contentType, parts) && Greedy(pieces)
    requires |pubKey| <= 252 && forall k :: 0 <= k < |pieces| ==> ScriptsOf(pieces[k], pubKey, scripts[k])
    ensures forall k :: 0 <= k < |scripts| ==> |scripts[k].redeem| <= |pubKey| + 21
  {
    hide Concat, InscriptionChunks, ScriptsOf, Total;
    assert Concat(pieces) + [] == Concat(pieces);
    forall k | 0 <= k < |scripts|
      ensures |scripts[k].redeem| <= |pubKey| + 21
    {
      ShortLocks(contentType, parts, pubKey, pieces, scripts, k, []);
    }
  }

  lemma {:induction false} AllSpend(pubKey: seq<byte>, pieces: seq<seq<Chunk>>, scripts: seq<Scripts>)
    requires |pieces| == |scripts| && |pubKey| <= 252
    requires forall k :: 0 <= k < |pieces| ==> ScriptsOf(pieces[k], pubKey, scripts[k]) && ShortPushes(pieces[k]) && AllPushes(pieces[k])
    ensures forall k :: 0 <= k < |scripts| && |scripts[k].redeem| <= 252 ==> Spends(scripts[k], pubKey)
  {
    hide ScriptsOf, ShortPushes, AllPushes, SpendsBy;
    forall k | 0 <= k < |scripts| && |scripts[k].redeem| <= 252
      ensures Spends(scripts[k], pubKey)
    {
      forall sig: seq<byte>, hash: Hash, check: Check | |sig| <= 252
        ensures SpendsBy(scripts[k], pubKey, sig, hash, check)
      {
        PieceSpends(pieces[k], pubKey, scripts[k], sig, hash, check);
      }
    }
  }
}
