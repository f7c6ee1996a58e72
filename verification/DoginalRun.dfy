/**
 * Running the scripts of packages/coin-bitcoin/src/doginals.ts: the opcodes that they use, on a stack of byte
 * strings, with the check of signatures and the hash of scripts as parameters.
 */
module DoginalRun {
  import opened Wrappers
  import opened Numerals
  import opened Doginals

  // ---- pushes

  /** The element that the first opcode pushes, and the script after it; `None` if it does not push. */
  function FirstPush(s: seq<byte>): (r: Option<Read<seq<byte>>>)
    requires s != []
    ensures r.Some? ==> |r.value.rest| < |s|
  {
    var op := s[0];
    if op == 0 then Some(Read([], s[1..]))
    else if op <= 75 then (if |s| < 1 + op then None else Some(Read(s[1..1 + op], s[1 + op..])))
    else if op == 76 then
      (if |s| < 2 then None
       else
         var n: nat := s[1];
         if |s| < 2 + n then None else Some(Read(s[2..2 + n], s[2 + n..])))
    else if 81 <= op <= 96 then Some(Read([op - 80], s[1..]))
    else None
  }

  /** The elements that a script of pushes leaves on the stack; `None` if it does anything else. */
  function Pushed(s: seq<byte>): Option<seq<seq<byte>>>
    decreases |s|
  {
    if s == [] then Some([])
    else
      match FirstPush(s)
      case None => None
      case Some(r) =>
        match Pushed(r.rest)
        case None => None
        case Some(items) => Some([r.value] + items)
  }

  // ---- all opcodes

  /** Whether a signature is one of a key, for the transaction at hand. */
  type Check = (seq<byte>, seq<byte>) -> bool

  /** The stack after a script of pushes, OP_DROP (117) and OP_CHECKSIGVERIFY (173), its top at the end; `None` if
      the script fails. */
  function Run(s: seq<byte>, stack: seq<seq<byte>>, check: Check): Option<seq<seq<byte>>>
    decreases |s|
  {
    if s == [] then Some(stack)
    else
      var n := |stack|;
      match FirstPush(s)
      case Some(r) => Run(r.rest, stack + [r.value], check)
      case None =>
        if s[0] == 117 && n >= 1 then Run(s[1..], stack[..n - 1], check)
        else if s[0] == 173 && n >= 2 && check(stack[n - 2], stack[n - 1]) then Run(s[1..], stack[..n - 2], check)
        else None
  }

  // ---- chunks

  /** The chunks that push an element. */
  predicate IsPush(c: Chunk) {
    c.buf.Some? || c.opcodenum == 0 || 81 <= c.opcodenum <= 96
  }

  function Item(c: Chunk): seq<byte>
    requires IsPush(c)
  {
    if c.buf.Some? then c.buf.value else if c.opcodenum == 0 then [] else [c.opcodenum - 80]
  }

  predicate AllPushes(cs: seq<Chunk>) {
    forall k :: 0 <= k < |cs| ==> IsPush(cs[k])
  }

  function Items(cs: seq<Chunk>): (items: seq<seq<byte>>)
    requires AllPushes(cs)
    ensures |items| == |cs|
  {
    seq(|cs|, k requires 0 <= k < |cs| => Item(cs[k]))
  }

  lemma {:induction false} PushedFirst(c: Chunk, rest: seq<byte>)
    requires Made(c) && IsPush(c) && (c.buf.Some? ==> c.len <= 252)
    ensures FirstPush(ChunkBytes(c) + rest) == Some(Read(Item(c), rest))
  {
    var s := ChunkBytes(c) + rest;
    if c.buf.None? {
      assert s[1..] == rest;
    } else if c.opcodenum < 76 {
      assert s[1..1 + |c.buf.value|] == c.buf.value && s[1 + |c.buf.value|..] == rest;
    } else {
      assert s[2..2 + |c.buf.value|] == c.buf.value && s[2 + |c.buf.value|..] == rest;
    }
  }

  /** A piece's script pushes one element per chunk. */
  lemma {:induction false} PieceItems(piece: seq<Chunk>)
    requires ShortPushes(piece) && AllPushes(piece)
    ensures Pushed(Bytes(piece)) == Some(Items(piece))
  {
    PushedPieces(piece, []);
    assert Bytes(piece) + [] == Bytes(piece) && Items(piece) + [] == Items(piece);
  }

  lemma {:induction false} PushedPieces(piece: seq<Chunk>, rest: seq<byte>)
    requires ShortPushes(piece) && AllPushes(piece)
    ensures Pushed(Bytes(piece) + rest)
            == if Pushed(rest).None? then None else Some(Items(piece) + Pushed(rest).value)
    decreases |piece|
  {
    hide FirstPush, ChunkBytes, Made;
    if piece == [] {
      assert [] + rest == rest;
      if Pushed(rest).Some? {
        assert Items(piece) + Pushed(rest).value == Pushed(rest).value;
      }
    } else {
      var n := |piece| - 1;
      var tail := ChunkBytes(piece[n]) + rest;
      ConcatAssoc(Bytes(piece[..n]), ChunkBytes(piece[n]), rest);
      PushedPieces(piece[..n], tail);
      PushedFirst(piece[n], rest);
      assert Items(piece) == Items(piece[..n]) + [Item(piece[n])];
      if Pushed(rest).Some? {
        AppendStep(Items(piece[..n]), Item(piece[n]), Pushed(rest).value);
      }
    }
  }

  /** Running a script of chunks that push puts their elements on the stack. */
  lemma {:induction false} RunPieces(piece: seq<Chunk>, rest: seq<byte>, stack: seq<seq<byte>>, check: Check)
    requires ShortPushes(piece) && AllPushes(piece)
    ensures Run(Bytes(piece) + rest, stack, check) == Run(rest, stack + Items(piece), check)
    decreases |piece|
  {
    hide FirstPush, ChunkBytes, Made;
    if piece == [] {
      assert [] + rest == rest && stack + Items(piece) == stack;
    } else {
      var n := |piece| - 1;
      var tail := ChunkBytes(piece[n]) + rest;
      ConcatAssoc(Bytes(piece[..n]), ChunkBytes(piece[n]), rest);
      RunPieces(piece[..n], tail, stack, check);
      PushedFirst(piece[n], rest);
      assert stack + Items(piece) == stack + Items(piece[..n]) + [Item(piece[n])];
    }
  }

  // ---- the lock

  /** The bytes of a lock: key, check, one OP_DROP per element, OP_TRUE. */
  lemma {:induction false} LockBytes(pubKey: seq<byte>, drops: nat)
    ensures Bytes(Lock(pubKey, drops))
            == ChunkBytes(BufferToChunk(pubKey)) + ([173] + (Repeat<byte>(117, drops) + [81]))
  {
    hide BufferToChunk;
    var key, verify, last := BufferToChunk(pubKey), Chunk(173, None, 0), Chunk(81, None, 0);
    var middle := Repeat(Chunk(117, None, 0), drops);
    BytesOne(key);
    BytesOne(verify);
    BytesOne(last);
    BytesDrops(drops);
    assert [key, verify] == [key] + [verify];
    BytesConcat([key], [verify]);
    BytesConcat([key, verify], middle);
    BytesConcat([key, verify] + middle, [last]);
    Grouped(ChunkBytes(key), [173], Repeat<byte>(117, drops), [81]);
  }

  lemma Grouped(a: seq<byte>, b: seq<byte>, c: seq<byte>, d: seq<byte>)
    ensures a + b + c + d == a + (b + (c + d))
  {
  }

  lemma {:induction false} BytesOne(c: Chunk)
    ensures Bytes([c]) == ChunkBytes(c)
  {
    assert [c][..0] == [] && Bytes([]) == [];
    assert [] + ChunkBytes(c) == ChunkBytes(c);
  }

  lemma {:induction false} BytesDrops(drops: nat)
    ensures Bytes(Repeat(Chunk(117, None, 0), drops)) == Repeat<byte>(117, drops)
    decreases drops
  {
    var cs := Repeat(Chunk(117, None, 0), drops);
    if drops > 0 {
      BytesDrops(drops - 1);
      assert cs[..drops - 1] == Repeat(Chunk(117, None, 0), drops - 1);
      assert Repeat<byte>(117, drops) == Repeat<byte>(117, drops - 1) + [117];
    }
  }

  /** OP_DROPs in front of a script take as many elements off the stack. */
  lemma {:induction false} RunDrops(drops: nat, rest: seq<byte>, stack: seq<seq<byte>>, check: Check)
    requires drops <= |stack|
    ensures Run(Repeat<byte>(117, drops) + rest, stack, check) == Run(rest, stack[..|stack| - drops], check)
    decreases drops
  {
    var s := Repeat<byte>(117, drops) + rest;
    if drops == 0 {
      assert s == rest && stack[..|stack|] == stack;
    } else {
      assert s[1..] == Repeat<byte>(117, drops - 1) + rest;
      var front := stack[..|stack| - 1];
      RunDrops(drops - 1, rest, front, check);
      assert front[..|front| - (drops - 1)] == stack[..|stack| - drops];
    }
  }

  /** On a stack of elements and a signature the lock for that many elements succeeds exactly if the signature is one
      of the key, and then leaves a single element, true. */
  lemma {:induction false} LockRuns(pubKey: seq<byte>, items: seq<seq<byte>>, sig: seq<byte>, check: Check)
    requires |pubKey| <= 252
    ensures Run(Bytes(Lock(pubKey, |items|)), items + [sig], check) == if check(sig, pubKey) then Some([[1]]) else None
  {
    hide Bytes, Lock, ChunkBytes, BufferToChunk, Made;
    var n := |items|;
    var drops := Repeat<byte>(117, n) + [81];
    LockBytes(pubKey, n);
    KeyChunk(pubKey);
    PushedFirst(BufferToChunk(pubKey), [173] + drops);
    var stack := items + [sig] + [pubKey];
    assert stack[n] == sig && stack[n + 1] == pubKey && stack[..n] == items;
    assert ([173] + drops)[1..] == drops;
    RunDrops(n, [81], items, check);
    assert items[..0] == [] && [81][1..] == [] && [] + [[1]] == [[1]];
  }

  lemma KeyChunk(b: seq<byte>)
    ensures Made(BufferToChunk(b)) && IsPush(BufferToChunk(b)) && Item(BufferToChunk(b)) == b
    ensures BufferToChunk(b).buf.Some? ==> BufferToChunk(b).len == |b|
  {
  }

  // ---- a whole input

  /** A script and the lock that goes with it: on whatever the script pushed and any signature, the lock succeeds
      exactly if that is a signature of the key, and leaves a single element, true. */
  ghost predicate Opens(s: Scripts, pubKey: seq<byte>) {
    forall check: Check, sig: seq<byte> | |sig| <= 252 :: OpensBy(s, pubKey, sig, check)
  }

  /** The inscription script and the push of a signature, and then the redeem script on the stack that they leave. */
  ghost predicate OpensBy(s: Scripts, pubKey: seq<byte>, sig: seq<byte>, check: Check) {
    var stack := Run(s.inscription + ChunkBytes(BufferToChunk(sig)), [], check);
    stack.Some? && Run(s.redeem, stack.value, check) == if check(sig, pubKey) then Some([[1]]) else None
  }

  lemma {:induction false} PieceOpens(piece: seq<Chunk>, pubKey: seq<byte>, s: Scripts)
    requires ScriptsOf(piece, pubKey, s) && ShortPushes(piece) && AllPushes(piece) && |pubKey| <= 252
    ensures Opens(s, pubKey)
  {
    hide Total, Bytes, Lock, ChunkBytes, BufferToChunk, Made;
    forall check: Check, sig: seq<byte> | |sig| <= 252
      ensures OpensBy(s, pubKey, sig, check)
    {
      var push := ChunkBytes(BufferToChunk(sig));
      RunPieces(piece, push, [], check);
      assert [] + Items(piece) == Items(piece);
      KeyChunk(sig);
      PushedFirst(BufferToChunk(sig), []);
      assert push + [] == push;
      RunPush(push, sig, Items(piece), check);
      LockRuns(pubKey, Items(piece), sig, check);
    }
  }

  lemma RunPush(push: seq<byte>, item: seq<byte>, stack: seq<seq<byte>>, check: Check)
    requires push != [] && FirstPush(push) == Some(Read(item, []))
    ensures Run(push, stack, check) == Some(stack + [item])
  {
  }

  /** `bufferToBuffer`: one push, or the writer's exception. */
  method BufferToBuffer(b: seq<byte>) returns (r: Result<seq<byte>, ScriptError>)
    ensures r == if |b| <= 252 then Success(ChunkBytes(BufferToChunk(b))) else Failure(SizeMismatch)
  {
    hide Bytes, Total, Made;
    var c := BufferToChunk(b);
    BytesOne(c);
    assert [c][..0] == [] && Total([c]) == ChunkSize(c) by { OneTotal(c); }
    KeyChunk(b);
    ChunkSizes(c);
    r := ToBuffer([c]);
  }

  lemma {:induction false} OneTotal(c: Chunk)
    ensures Total([c]) == ChunkSize(c)
  {
    assert [c][..0] == [] && Total([]) == 0;
  }

  /** The script of a reveal's first input. */
  method RevealScript(s: Scripts, sig: seq<byte>) returns (r: Result<seq<byte>, ScriptError>)
    ensures r == if |sig| <= 252 && |s.redeem| <= 252 then Success(InputScript(s, sig)) else Failure(SizeMismatch)
  {
    hide ChunkBytes, BufferToChunk;
    var signature :- BufferToBuffer(sig);
    var redeem :- BufferToBuffer(s.redeem);
    return Success(s.inscription + signature + redeem);
  }

  function InputScript(s: Scripts, sig: seq<byte>): seq<byte> {
    s.inscription + ChunkBytes(BufferToChunk(sig)) + ChunkBytes(BufferToChunk(s.redeem))
  }

  lemma PushedMore(s: seq<byte>, item: seq<byte>, rest: seq<byte>, items: seq<seq<byte>>)
    requires s != [] && FirstPush(s) == Some(Read(item, rest)) && Pushed(rest) == Some(items)
    ensures Pushed(s) == Some([item] + items)
  {
  }

  type Hash = seq<byte> -> seq<byte>

  /** Spending an output that pays to the hash of a script: the last element pushed must have that hash, and is
      run as a script on the others. */
  function Spend(input: seq<byte>, lockHash: seq<byte>, hash: Hash, check: Check): Option<seq<seq<byte>>> {
    match Pushed(input)
    case None => None
    case Some(items) =>
      var n := |items| - 1;
      if n < 0 || hash(items[n]) != lockHash then None else Run(items[n], items[..n], check)
  }

  /** The input script spends the output that pays to the hash of the redeem script exactly if it carries a
      signature of the key. */
  ghost predicate SpendsBy(s: Scripts, pubKey: seq<byte>, sig: seq<byte>, hash: Hash, check: Check) {
    Spend(InputScript(s, sig), hash(s.redeem), hash, check) == if check(sig, pubKey) then Some([[1]]) else None
  }

  /** So it does whatever the signature, the hash function and the check of signatures. */
  ghost predicate Spends(s: Scripts, pubKey: seq<byte>) {
    forall sig: seq<byte>, hash: Hash, check: Check | |sig| <= 252 :: SpendsBy(s, pubKey, sig, hash, check)
  }

  lemma {:induction false} PieceSpends(piece: seq<Chunk>, pubKey: seq<byte>, s: Scripts, sig: seq<byte>, hash: Hash, check: Check)
    requires ScriptsOf(piece, pubKey, s) && ShortPushes(piece) && AllPushes(piece) && |pubKey| <= 252
    requires |sig| <= 252 && |s.redeem| <= 252
    ensures SpendsBy(s, pubKey, sig, hash, check)
  {
    hide Total, Bytes, Lock, ChunkBytes, BufferToChunk, Made, FirstPush;
    var a, b := ChunkBytes(BufferToChunk(sig)), ChunkBytes(BufferToChunk(s.redeem));
    KeyChunk(sig);
    KeyChunk(s.redeem);
    PushedFirst(BufferToChunk(s.redeem), []);
    assert b + [] == b;
    PushedFirst(BufferToChunk(sig), b);
    ConcatAssoc(s.inscription, a, b);
    PushedPieces(piece, a + b);
    var items := Items(piece);
    assert [s.redeem] + [] == [s.redeem] && [sig] + [s.redeem] == [sig, s.redeem];
    PushedMore(b, s.redeem, [], []);
    PushedMore(a + b, sig, b, [s.redeem]);
    var all := items + [sig, s.redeem];
    assert all[|items| + 1] == s.redeem && all[..|items| + 1] == items + [sig];
    LockRuns(pubKey, items, sig, check);
  }
}
