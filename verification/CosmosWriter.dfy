/**
 * The protobuf writer of packages/coin-cosmos/src/binary.ts: a linked list of pending operations with
 * a stack of saved lists. Byte lengths are committed to before anything is written; `Finish` fills
 * exactly that many bytes.
 */
module CosmosWriter {
  import opened Wrappers
  import opened Numerals
  import opened JsInt
  import opened JsBytes
  import opened Decimal
  import Leb128
  import ZigZag
  import opened CosmosVarint
  import opened CosmosZigZag
  import opened CosmosDecimal
  import opened CosmosUtf8
  import opened CosmosOps

  /** The saved states, innermost first. */
  datatype States = NoState | State(head: Op, tail: Op, len: nat, next: States)

  // ---- lists of operations

  function Last(sp: seq<Op>): Op
    requires sp != []
  {
    sp[|sp| - 1]
  }

  /** Where `next` leads from each operation. */
  type Links = map<Op, Op?>

  /** The operations follow each other, and the list ends there. */
  ghost predicate Linked(sp: seq<Op>, next: Links) {
    && sp != [] && (forall o :: o in sp ==> o in next)
    && next[Last(sp)] == null
    && forall i :: 0 <= i < |sp| - 1 ==> next[sp[i]] == sp[i + 1]
  }

  /** The bytes that the operations plan to write. */
  ghost function Plans(sp: seq<Op>): seq<byte>
    decreases |sp|
  {
    if sp == [] then [] else sp[0].plan + Plans(sp[1..])
  }

  lemma {:induction false} PlansConcat(s: seq<Op>, t: seq<Op>)
    ensures Plans(s + t) == Plans(s) + Plans(t)
    decreases |s|
  {
    if s == [] {
      assert s + t == t;
    } else {
      assert (s + t)[1..] == s[1..] + t;
      PlansConcat(s[1..], t);
      ConcatAssoc(s[0].plan, Plans(s[1..]), Plans(t));
    }
  }

  lemma PlansOne(op: Op)
    ensures Plans([op]) == op.plan
  {
    assert [op][1..] == [];
  }

  /** The operations after the head. */
  ghost function Rest(sp: seq<Op>): seq<Op>
    requires sp != []
  {
    sp[1..]
  }

  /** The bytes pending in a list: its first operation is the no-op head. */
  ghost function Pending(sp: seq<Op>): seq<byte>
    requires sp != []
  {
    Plans(sp[1..])
  }

  /** Only the last operation of a list has no successor. */
  lemma {:induction false} Successor(sp: seq<Op>, next: Links, i: nat)
    requires Linked(sp, next) && i < |sp|
    ensures next[sp[i]] == null <==> i == |sp| - 1
  {
    if i < |sp| - 1 {
      assert next[sp[i]] == sp[i + 1];
    }
  }

  /** An end of a list that is not the end of this one is nowhere in this one. */
  lemma {:induction false} EndElsewhere(sp: seq<Op>, next: Links, t: Op)
    requires Linked(sp, next) && t in next && next[t] == null && t != Last(sp)
    ensures t !in sp
  {
    forall i | 0 <= i < |sp|
      ensures sp[i] != t
    {
      Successor(sp, next, i);
    }
  }

  /** Lists with different ends share no operation. */
  lemma {:induction false} DifferentEnds(s: seq<Op>, t: seq<Op>, next: Links, i: nat, j: nat)
    requires Linked(s, next) && Linked(t, next) && i < |s| && j < |t| && s[i] == t[j]
    ensures Last(s) == Last(t)
    decreases |s| - i
  {
    Successor(s, next, i);
    Successor(t, next, j);
    if i < |s| - 1 {
      assert next[s[i]] == s[i + 1] && next[t[j]] == t[j + 1];
      DifferentEnds(s, t, next, i + 1, j + 1);
    }
  }

  /** A list holds no operation twice. */
  lemma {:induction false} NoRepeats(s: seq<Op>, next: Links, i: nat, j: nat)
    requires Linked(s, next) && i < j < |s|
    ensures s[i] != s[j]
    decreases |s| - j
  {
    assert next[s[i]] == s[i + 1];
    if j < |s| - 1 {
      assert next[s[j]] == s[j + 1];
      NoRepeats(s, next, i + 1, j + 1);
    }
  }

  /** The current list and the saved ones are well linked, and no two end in the same place. */
  ghost predicate Separate(spine: seq<Op>, saved: seq<seq<Op>>, next: Links) {
    && Linked(spine, next)
    && (forall k :: 0 <= k < |saved| ==> Linked(saved[k], next) && Last(saved[k]) != Last(spine))
    && (forall j, k :: 0 <= j < k < |saved| ==> Last(saved[j]) != Last(saved[k]))
  }

  /** Saved states own lists disjoint from each other and from the current one. */
  lemma {:induction false} Disjoint(spine: seq<Op>, saved: seq<seq<Op>>, next: Links, k: nat, o: Op)
    requires Separate(spine, saved, next) && k < |saved| && o in saved[k]
    ensures o !in spine
    ensures forall j :: 0 <= j < k ==> o !in saved[j]
  {
    var i :| 0 <= i < |saved[k]| && saved[k][i] == o;
    Elsewhere(saved[k], i, spine, next);
    forall j | 0 <= j < k
      ensures o !in saved[j]
    {
      Elsewhere(saved[k], i, saved[j], next);
    }
  }

  lemma {:induction false} Elsewhere(s: seq<Op>, i: nat, t: seq<Op>, next: Links)
    requires Linked(s, next) && Linked(t, next) && Last(s) != Last(t) && i < |s|
    ensures s[i] !in t
  {
    forall j | 0 <= j < |t|
      ensures t[j] != s[i]
    {
      if t[j] == s[i] {
        DifferentEnds(s, t, next, i, j);
      }
    }
  }

  /** A list is still linked after a change elsewhere. */
  lemma {:induction false} StaysLinked(sp: seq<Op>, next: Links, t: Op, op: Op?)
    requires Linked(sp, next) && t !in sp
    ensures Linked(sp, next[t := op])
  {
  }

  /** Linking list `t`, whose head is dropped, at the end of `s`. */
  lemma {:induction false} Spliced(s: seq<Op>, t: seq<Op>, next: Links)
    requires Linked(s, next) && Linked(t, next) && Last(s) != Last(t) && |t| > 1
    ensures Linked(s + t[1..], next[Last(s) := t[1]])
  {
    var sp, after := s + t[1..], next[Last(s) := t[1]];
    forall i | 0 <= i < |sp| - 1
      ensures after[sp[i]] == sp[i + 1]
    {
      if i < |s| - 1 {
        NoRepeats(s, next, i, |s| - 1);
      } else if i >= |s| {
        assert sp[i] == t[i - |s| + 1];
        Elsewhere(s, |s| - 1, t, next);
        assert next[t[i - |s| + 1]] == t[i - |s| + 2];
      }
    }
    Elsewhere(s, |s| - 1, t, next);
    assert Last(sp) == Last(t);
  }

  /** Linking one new operation at the current end. */
  lemma {:induction false} Appended(spine: seq<Op>, saved: seq<seq<Op>>, next: Links, op: Op)
    requires Separate(spine, saved, next) && op !in next
    ensures Separate(spine + [op], saved, next[op := null][Last(spine) := op])
  {
    var with := next[op := null];
    var pair := [spine[0], op];
    StaysLinked(spine, next, op, null);
    AppendedLinked(spine, next, op);
    forall k | 0 <= k < |saved|
      ensures Linked(saved[k], with[Last(spine) := op])
    {
      StaysLinked(saved[k], next, op, null);
      EndElsewhere(saved[k], next, Last(spine));
      StaysLinked(saved[k], with, Last(spine), op);
    }
  }

  lemma {:induction false} AppendedLinked(spine: seq<Op>, next: Links, op: Op)
    requires Linked(spine, next) && op !in next
    ensures Linked(spine + [op], next[op := null][Last(spine) := op])
  {
    var sp, after := spine + [op], next[op := null][Last(spine) := op];
    forall i | 0 <= i < |sp| - 1
      ensures after[sp[i]] == sp[i + 1]
    {
      if i < |spine| - 1 {
        NoRepeats(spine, next, i, |spine| - 1);
      }
    }
  }

  lemma {:induction false} PendingPush(spine: seq<Op>, op: Op)
    requires spine != []
    ensures Pending(spine + [op]) == Pending(spine) + op.plan
  {
    assert (spine + [op])[1..] == spine[1..] + [op];
    PlansConcat(spine[1..], [op]);
    PlansOne(op);
  }

  /** The saved states describe the saved lists. */
  ghost predicate Held(states: States, saved: seq<seq<Op>>) {
    match states
    case NoState => saved == []
    case State(h, t, l, next) =>
      && saved != [] && saved[0] != [] && saved[0][0] == h && Last(saved[0]) == t && l == |Pending(saved[0])|
      && Held(next, saved[1..])
  }

  /** The links and owners describe the operations on the heap, and before the first `finish` every operation
      still writes what it planned. */
  ghost predicate Tracks(next: Links, owner: map<Bits, Op>, finished: bool)
    reads next.Keys, owner.Keys
  {
    && (forall o :: o in next ==> o.next == next[o])
    && (forall o :: o in next ==> o.bits in owner && owner[o.bits] == o)
    && (forall o :: o in next ==> o.Valid() && (!finished ==> o.Now() == o.plan))
  }

  lemma {:induction false} TracksAdd(next: Links, owner: map<Bits, Op>, finished: bool, op: Op)
    requires Tracks(next, owner, finished) && op !in next && op.bits !in owner && op.next == null
    requires op.Valid() && op.Now() == op.plan
    ensures Tracks(next[op := null], owner[op.bits := op], finished)
  {
  }

  lemma LinkOf(next: Links, owner: map<Bits, Op>, finished: bool, o: Op)
    requires Tracks(next, owner, finished) && o in next
    ensures o.next == next[o]
  {
  }

  /** `t.next = op` */
  method SetNext(t: Op, op: Op, ghost next: Links, ghost owner: map<Bits, Op>, ghost finished: bool)
    requires Tracks(next, owner, finished) && t in next && op in next
    modifies t`next
    ensures t.next == op && Tracks(next[t := op], owner, finished)
  {
    hide Op.Valid, Op.Now;
    t.next := op;
  }

  class BinaryWriter {
    var len: nat
    var head: Op
    var tail: Op
    var states: States
    ghost var spine: seq<Op>
    ghost var saved: seq<seq<Op>>
    ghost var next: Links
    /** Whose each mutable pair is. */
    ghost var owner: map<Bits, Op>
    /** `Finish` has run. */
    ghost var finished: bool

    ghost predicate Valid()
      reads this, next.Keys, owner.Keys
    {
      && Separate(spine, saved, next)
      && Tracks(next, owner, finished)
      && spine[0] == head && Last(spine) == tail
      && len == |Pending(spine)|
      && Held(states, saved)
    }

    constructor ()
      ensures Valid() && fresh(next.Keys) && fresh(owner.Keys)
      ensures Pending(spine) == [] && saved == [] && states == NoState && !finished
    {
      var op := new Op(Noop, 0, 0, 0);
      len, head, tail, states := 0, op, op, NoState;
      spine, saved, next, owner := [op], [], map[op := null], map[op.bits := op];
      finished := false;
      new;
      assert spine[1..] == [];
    }

    /** `_push` */
    method Push(payload: Payload, n: nat, lo: half, hi: half)
      requires Valid() && |Emission(payload, lo, hi)| <= n && (payload.U32? ==> payload.value < 0x1_0000_0000)
      modifies this`len, this`tail, this`spine, this`next, this`owner, tail
      ensures Valid() && spine == old(spine) + [tail] && fresh(tail) && fresh(tail.bits)
      ensures next == old(next)[tail := null][Last(old(spine)) := tail] && owner == old(owner)[tail.bits := tail]
      ensures Pending(spine) == old(Pending(spine)) + Padded(Emission(payload, lo, hi), n)
    {
      hide Emission, Padded, Valid, Pending;
      var op := new Op(payload, n, lo, hi);
      Attach(op);
    }

    /** `this.tail = this.tail.next = op` */
    method Attach(op: Op)
      requires Valid() && op !in next && op.bits !in owner && op.next == null && op.Valid() && op.Now() == op.plan && op.len == |op.plan|
      modifies this`len, this`tail, this`spine, this`next, this`owner, tail
      ensures Valid() && spine == old(spine) + [op] && tail == op
      ensures next == old(next)[op := null][Last(old(spine)) := op] && owner == old(owner)[op.bits := op]
      ensures Pending(spine) == old(Pending(spine)) + op.plan
    {
      hide Separate, Linked, Tracks, Plans, Pending, Held, Op.Valid, Op.Now;
      SeparateEnds(spine, saved, next);
      TracksAdd(next, owner, finished, op);
      Appended(spine, saved, next, op);
      PendingPush(spine, op);
      next := next[op := null];
      owner := owner[op.bits := op];
      SetNext(tail, op, next, owner, finished);
      next := next[tail := op];
      tail := op;
      len := len + op.len;
      spine := spine + [op];
    }

    // ---- nesting

    method Fork()
      requires Valid()
      modifies this
      ensures Valid() && fresh(head) && fresh(head.bits) && finished == old(finished)
      ensures Pending(spine) == [] && saved == [old(spine)] + old(saved)
      ensures next == old(next)[head := null] && owner == old(owner)[head.bits := head]
    {
      hide Valid, Pending, Op.Valid;
      var op := new Op(Noop, 0, 0, 0);
      Enter(op);
    }

    /** `this.states = new State(this)`, and a new list that starts at `op`. */
    method Enter(op: Op)
      requires Valid() && op !in next && op.bits !in owner && op.next == null && op.Valid() && op.Now() == op.plan
      modifies this
      ensures Valid() && finished == old(finished) && head == op && Pending(spine) == [] && saved == [old(spine)] + old(saved)
      ensures next == old(next)[op := null] && owner == old(owner)[op.bits := op]
    {
      hide Separate, Tracks, Plans, Pending, Held, Op.Valid, Op.Now;
      TracksAdd(next, owner, finished, op);
      Forked(spine, saved, next, op);
      HeldFork(states, spine, saved);
      EmptyPending(op);
      states := State(head, tail, len, states);
      saved := [spine] + saved;
      spine := [op];
      next := next[op := null];
      owner := owner[op.bits := op];
      head := op;
      tail := op;
      len := 0;
    }

    /** Drops the current list for the innermost saved one, or for an empty one. */
    method Reset()
      requires Valid()
      modifies this
      ensures Valid() && finished == old(finished)
      ensures old(saved) != [] ==> spine == old(saved)[0] && saved == old(saved)[1..] && next == old(next) && owner == old(owner)
      ensures old(saved) == [] ==> Pending(spine) == [] && saved == [] && fresh(head) && fresh(head.bits)
                                   && spine == [head] && next == old(next)[head := null] && owner == old(owner)[head.bits := head]
    {
      hide Separate, Tracks, Plans, Pending, Op.Valid, Op.Now;
      match states {
        case State(h, t, l, rest) =>
          Restored(spine, saved, next);
          head := h;
          tail := t;
          len := l;
          states := rest;
          spine := saved[0];
          saved := saved[1..];
        case NoState =>
          var op := new Op(Noop, 0, 0, 0);
          TracksAdd(next, owner, finished, op);
          Renewed(spine, next, op);
          EmptyPending(op);
          head := op;
          tail := op;
          len := 0;
          spine := [op];
          next := next[op := null];
          owner := owner[op.bits := op];
      }
    }

    method Uint32(value0: int)
      requires Valid()
      modifies this`len, this`tail, this`spine, this`next, this`owner, tail
      ensures Valid() && spine == old(spine) + [tail] && fresh(tail) && fresh(tail.bits)
      ensures next == old(next)[tail := null][Last(old(spine)) := tail] && owner == old(owner)[tail.bits := tail]
      ensures Pending(spine) == old(Pending(spine)) + Leb128.Encode(ToUint32(value0))
    {
      hide Leb128.Encode, Plans, Separate;
      var value := ToUint32(value0);
      GroupsIs(value);
      PaddedFull(Leb128.Encode(value));
      Push(U32(value), if value < 128 then 1 else if value < 16384 then 2 else if value < 2097152 then 3
                       else if value < 268435456 then 4 else 5, 0, 0);
    }

    /** Closes a nested block: its bytes follow their length in the enclosing list. Without a saved state
        the whole message gets a length prefix. */
    method Ldelim()
      requires Valid()
      modifies this, next.Keys
      ensures Valid() && finished == old(finished) && saved == (if old(saved) == [] then [] else old(saved)[1..])
      ensures fresh(next.Keys - old(next.Keys)) && fresh(owner.Keys - old(owner.Keys))
      ensures var outer := if old(saved) == [] then [] else Pending(old(saved)[0]);
        Pending(spine) == outer + Leb128.Encode(ToUint32(old(len))) + old(Pending(spine))
    {
      hide Separate, Tracks, Linked, Plans, Pending, Held, Op.Valid, Op.Now, Leb128.Encode;
      var head0, tail0, len0 := head, tail, len;
      ghost var block := spine;
      SeparateEnds(spine, saved, next);
      PendingLength(block);
      LeaveBlock(len0);
      SeparateEnds(spine, saved, next);
      if len0 != 0 {
        Splice(block, head0, tail0, len0);
      } else {
        assert Pending(spine) + [] == Pending(spine);
      }
    }

    /** `this.reset().uint32(len)`: back to the enclosing list, with the length pushed. */
    method LeaveBlock(len0: nat)
      requires Valid()
      modifies this, next.Keys
      ensures Valid() && finished == old(finished) && saved == (if old(saved) == [] then [] else old(saved)[1..])
      ensures fresh(next.Keys - old(next.Keys)) && fresh(owner.Keys - old(owner.Keys))
      ensures var outer := if old(saved) == [] then [] else Pending(old(saved)[0]);
        Pending(spine) == outer + Leb128.Encode(ToUint32(len0))
      ensures Linked(old(spine), next) && tail != Last(old(spine)) && tail in next
      ensures forall k :: 0 <= k < |saved| ==> saved[k] != [] && Last(saved[k]) != Last(old(spine))
    {
      hide Separate, Tracks, Linked, Plans, Pending, Held, Op.Valid, Op.Now, Leb128.Encode;
      ghost var block, outside, links := spine, saved, next;
      SeparateEnds(spine, saved, next);
      Reset();
      SeparateEnds(spine, saved, next);
      ghost var base, reset := spine, next;
      BlockApart(block, outside, links, base, reset, saved);
      Uint32(len0);
      StaysLinked(block, reset, tail, null);
      StaysLinked(block, reset[tail := null], Last(base), tail);
    }

    /** Links the operations of a closed block after the current end, without its head. */
    method Splice(ghost block: seq<Op>, head0: Op, tail0: Op, len0: nat)
      requires Valid() && Linked(block, next) && block[0] == head0 && Last(block) == tail0
      requires len0 == |Pending(block)| && Pending(block) != [] && tail != tail0
      requires forall k :: 0 <= k < |saved| ==> saved[k] != [] && Last(saved[k]) != tail0
      modifies this`len, this`tail, this`spine, this`next, tail
      ensures Valid() && next.Keys == old(next.Keys)
      ensures Pending(spine) == old(Pending(spine)) + Pending(block)
    {
      hide Separate, Linked, Tracks, Plans, Pending, Held, Op.Valid, Op.Now;
      SeparateEnds(spine, saved, next);
      BlockClosed(spine, block, saved, next);
      BlockHead(block, next);
      LinkOf(next, owner, finished, head0);
      SetNext(tail, head0.next, next, owner, finished);
      next := next[tail := block[1]];
      spine := spine + block[1..];
      tail := tail0;
      len := len + len0;
    }

    // ---- typed writes

    /** One operation that writes exactly `b`. */
    method Add(payload: Payload, lo: half, hi: half, ghost b: seq<byte>, n: nat)
      requires Valid() && Emission(payload, lo, hi) == b && n == |b| && (payload.U32? ==> payload.value < 0x1_0000_0000)
      modifies this, next.Keys
      ensures Valid() && saved == old(saved) && finished == old(finished)
      ensures fresh(next.Keys - old(next.Keys)) && fresh(owner.Keys - old(owner.Keys))
      ensures Pending(spine) == old(Pending(spine)) + b
    {
      hide Separate, Linked, Tracks, Pending, Held, Emission, Padded;
      SeparateEnds(spine, saved, next);
      PaddedFull(b);
      Push(payload, n, lo, hi);
    }

    method Varint(value: int)
      requires Valid()
      modifies this, next.Keys
      ensures Valid() && saved == old(saved) && finished == old(finished)
      ensures fresh(next.Keys - old(next.Keys)) && fresh(owner.Keys - old(owner.Keys))
      ensures Pending(spine) == old(Pending(spine)) + Leb128.Encode(ToUint32(value))
    {
      hide Separate, Linked, Tracks, Pending, Held, Leb128.Encode;
      SeparateEnds(spine, saved, next);
      Uint32(value);
    }

    method Tag(fieldNo: nat, wireType: nat)
      requires Valid() && fieldNo < 0x2000_0000 && wireType < 8
      modifies this, next.Keys
      ensures Valid() && saved == old(saved) && finished == old(finished)
      ensures fresh(next.Keys - old(next.Keys)) && fresh(owner.Keys - old(owner.Keys))
      ensures Pending(spine) == old(Pending(spine)) + Leb128.Encode(8 * fieldNo + wireType)
    {
      hide Valid, Pending, Leb128.Encode, Or, Shl;
      TagWord(fieldNo, wireType);
      Varint(ToUint32(Or(Shl(fieldNo, 3), wireType)));
    }

    /** Negative numbers take ten bytes, whatever their size. */
    method Int32(value: int)
      requires Valid() && -0x8000_0000 <= value < 0x8000_0000
      modifies this, next.Keys
      ensures Valid() && saved == old(saved) && finished == old(finished)
      ensures fresh(next.Keys - old(next.Keys)) && fresh(owner.Keys - old(owner.Keys))
      ensures Pending(spine) == old(Pending(spine)) + Leb128.Encode(value % 0x1_0000_0000_0000_0000)
    {
      hide Valid, Pending, Leb128.Encode, Emission, Halves, ParsedNumber, IntString;
      if value < 0 {
        ParsePrinted(value);
        NegativeEmission(value);
        var lo, hi := Int64FromString(IntString(value));
        Add(U64, lo, hi, Leb128.Encode(value + 0x1_0000_0000_0000_0000), 10);
      } else {
        Varint(value);
      }
    }

    method Sint32(value: int)
      requires Valid() && -0x8000_0000 <= value < 0x8000_0000
      modifies this, next.Keys
      ensures Valid() && saved == old(saved) && finished == old(finished)
      ensures fresh(next.Keys - old(next.Keys)) && fresh(owner.Keys - old(owner.Keys))
      ensures Pending(spine) == old(Pending(spine)) + Leb128.Encode(ZigZag.Encode(value))
    {
      hide Valid, Pending, Leb128.Encode, Xor, Shl, Sar;
      ZigZag.Encode32Is(value);
      var z := ToUint32(Xor(Shl(value, 1), Sar(value, 31)));
      SelfWord(z);
      Varint(z);
    }

    /** `int64` and `uint64` of a number given by its decimal string. */
    method Int64(dec: string)
      requires Valid() && AllDigits(Magnitude(dec))
      modifies this, next.Keys
      ensures Valid() && saved == old(saved) && finished == old(finished)
      ensures fresh(next.Keys - old(next.Keys)) && fresh(owner.Keys - old(owner.Keys))
      ensures Pending(spine) == old(Pending(spine)) + Int64Bytes(ParsedNumber(dec))
    {
      hide Separate, Linked, Tracks, Pending, Held, Emitted, Padded, ParsedNumber, Halves;
      SeparateEnds(spine, saved, next);
      var lo, hi := Int64FromString(dec);
      EmittedIsEncoding(lo, hi);
      Push(U64, Int64Length(lo, hi), lo, hi);
    }

    method Sint64(dec: string)
      requires Valid() && AllDigits(Magnitude(dec))
      modifies this, next.Keys
      ensures Valid() && saved == old(saved) && finished == old(finished)
      ensures fresh(next.Keys - old(next.Keys)) && fresh(owner.Keys - old(owner.Keys))
      ensures Pending(spine) == old(Pending(spine))
              + Leb128.Encode(ZigZag.Encode(Signed64(ParsedNumber(dec) % 0x1_0000_0000_0000_0000)))
    {
      hide Valid, Pending, Leb128.Encode, Emitted, Int64Length, Halves, ParsedNumber, ZzEncode, Word;
      var lo, hi := Int64FromString(dec);
      WordOfHalves(ParsedNumber(dec));
      ZzEncodeIs(lo, hi);
      var z := ZzEncode(lo, hi);
      EmittedIsEncoding(z.0, z.1);
      LengthExact(z.0, z.1);
      Add(U64, z.0, z.1, Leb128.Encode(Word(z.0, z.1)), Int64Length(z.0, z.1));
    }

    /** `fixed32` and `sfixed32` */
    method Fixed32(value: int)
      requires Valid()
      modifies this, next.Keys
      ensures Valid() && saved == old(saved) && finished == old(finished)
      ensures fresh(next.Keys - old(next.Keys)) && fresh(owner.Keys - old(owner.Keys))
      ensures Pending(spine) == old(Pending(spine)) + FixedBytes(value)
    {
      hide Valid, Pending, FixedBytes, ToUint32;
      SameFixed(value);
      Add(Fixed(ToUint32(value)), 0, 0, FixedBytes(value), 4);
    }

    /** `fixed64` and `sfixed64` */
    method Fixed64(dec: string)
      requires Valid() && AllDigits(Magnitude(dec))
      modifies this, next.Keys
      ensures Valid() && saved == old(saved) && finished == old(finished)
      ensures fresh(next.Keys - old(next.Keys)) && fresh(owner.Keys - old(owner.Keys))
      ensures var n := ParsedNumber(dec);
        Pending(spine) == old(Pending(spine)) + (FixedBytes(Halves(n).0) + FixedBytes(Halves(n).1))
    {
      hide Valid, Pending, FixedBytes, Halves, ParsedNumber;
      var lo, hi := Int64FromString(dec);
      NotEmpty();
      ghost var before := Pending(spine);
      Add(Fixed(lo), 0, 0, FixedBytes(lo), 4);
      NotEmpty();
      Add(Fixed(hi), 0, 0, FixedBytes(hi), 4);
      ConcatAssoc(before, FixedBytes(lo), FixedBytes(hi));
    }

    method Bool(value: bool)
      requires Valid()
      modifies this, next.Keys
      ensures Valid() && saved == old(saved) && finished == old(finished)
      ensures fresh(next.Keys - old(next.Keys)) && fresh(owner.Keys - old(owner.Keys))
      ensures Pending(spine) == old(Pending(spine)) + [if value then 1 else 0]
    {
      hide Valid, Pending;
      var v := if value then 1 else 0;
      Add(OneByte(v), 0, 0, [v], 1);
    }

    method Bytes(value: seq<byte>)
      requires Valid() && |value| < 0x1_0000_0000
      modifies this, next.Keys
      ensures Valid() && saved == old(saved) && finished == old(finished)
      ensures fresh(next.Keys - old(next.Keys)) && fresh(owner.Keys - old(owner.Keys))
      ensures Pending(spine) == old(Pending(spine)) + (Leb128.Encode(|value|) + value)
    {
      hide Valid, Pending;
      var n := ToUint32(|value|);
      if n == 0 {
        Add(OneByte(0), 0, 0, [0], 1);
      } else {
        NotEmpty();
        ghost var before := Pending(spine);
        Varint(n);
        NotEmpty();
        Add(Blob(value), 0, 0, value, n);
        ConcatAssoc(before, Leb128.Encode(n), value);
      }
    }

    method String(value: seq<unit16>)
      requires Valid() && |Utf8(value)| < 0x1_0000_0000
      modifies this, next.Keys
      ensures Valid() && saved == old(saved) && finished == old(finished)
      ensures fresh(next.Keys - old(next.Keys)) && fresh(owner.Keys - old(owner.Keys))
      ensures Pending(spine) == old(Pending(spine)) + (Leb128.Encode(|Utf8(value)|) + Utf8(value))
    {
      hide Valid, Pending, Utf8;
      var n := Utf8Length(value);
      if n == 0 {
        Add(OneByte(0), 0, 0, [0], 1);
      } else {
        NotEmpty();
        ghost var before := Pending(spine);
        Varint(n);
        NotEmpty();
        Add(Text(value), 0, 0, Utf8(value), n);
        ConcatAssoc(before, Leb128.Encode(n), Utf8(value));
      }
    }

    lemma NotEmpty()
      requires Valid()
      ensures spine != []
    {
    }

    /** The running length is that of the pending bytes. */
    lemma Counted()
      requires Valid()
      ensures spine != [] && len == |Pending(spine)|
    {
    }

    // ---- finish

    /** What the pending operations would write now, one by one. */
    ghost function Nows(): (parts: seq<seq<byte>>)
      requires Valid()
      reads this, next.Keys, owner.Keys
      ensures |parts| + 1 == |spine|
    {
      OpsKnown();
      seq(|Rest(spine)|, k requires 0 <= k < |spine| - 1 reads this, next.Keys, owner.Keys requires Valid() => Rest(spine)[k].Now())
    }

    lemma NowsAre()
      requires Valid()
      ensures spine != [] && |Nows()| == |Rest(spine)| && forall k :: 0 <= k < |Rest(spine)| ==> Nows()[k] == Rest(spine)[k].Now()
    {
      OpsKnown();
    }

    /** The parts add up to the length that was counted. */
    lemma PartsLength()
      requires Valid()
      ensures |Joined(Nows())| == len
    {
      hide Plans;
      OpsKnown();
      LengthsMatch(spine[1..], Nows());
    }

    lemma OpsKnown()
      requires Valid()
      ensures spine != []
      ensures forall k :: 0 <= k < |Rest(spine)| ==> Rest(spine)[k] in next && Rest(spine)[k].bits in owner && Rest(spine)[k].Valid()
    {
      forall k | 0 <= k < |spine|
        ensures spine[k] in next
      {
        assert spine[k] in spine;
      }
    }

    /** Every operation of the list has a pair of its own. */
    lemma OpsApart()
      requires Valid()
      ensures spine != [] && forall j, k :: 0 <= j < k < |Rest(spine)| ==> Rest(spine)[j].bits != Rest(spine)[k].bits
    {
      hide Plans, Pending, Held, Op.Valid, Op.Now;
      OpsKnown();
      forall j, k | 0 <= j < k < |Rest(spine)|
        ensures Rest(spine)[j].bits != Rest(spine)[k].bits
      {
        NoRepeats(spine, next, j + 1, k + 1);
      }
    }

    /** Following `next` from the head goes through the list. */
    lemma OpsFollow()
      requires Valid()
      ensures spine != [] && forall k :: 0 <= k < |Rest(spine)| ==> NextIs(Rest(spine), k)
      ensures head.next == if Rest(spine) == [] then null else Rest(spine)[0]
    {
      hide Plans, Pending, Held, Op.Valid, Op.Now;
      forall k | 0 <= k < |spine|
        ensures NextIs(spine, k)
      {
        Successor(spine, next, k);
        if k + 1 < |spine| {
          assert next[spine[k]] == spine[k + 1];
        }
      }
      forall k | 0 <= k < |Rest(spine)|
        ensures NextIs(Rest(spine), k)
      {
        assert NextIs(spine, k + 1);
      }
      assert NextIs(spine, 0);
    }

    /** Fills exactly `len` bytes with what the operations write, in order; every 64-bit operation loses
        its value but for the last group. */
    method Finish() returns (buf: array<byte>)
      requires Valid()
      modifies this`finished, owner.Keys
      ensures Valid() && finished
      ensures fresh(buf) && buf.Length == len && buf[..] == Joined(old(Nows()))
      ensures !old(finished) ==> buf[..] == Pending(spine)
      ensures forall o :: o in Rest(spine) && o.payload.U64? ==> Spent(o.bits, old(o.bits.lo), old(o.bits.hi))
    {
      hide Separate, Linked, Tracks, Plans, Pending, Held, Remnant, Spent, Op.Valid, Op.Now, Joined, Rest, Nows, NextIs;
      OpsKnown();
      NowsAre();
      OpsApart();
      OpsFollow();
      PartsLength();
      buf := new byte[len](_ => 0);
      if !finished {
        PlannedParts();
      }
      TracksWeaker(next, owner, finished);
      ProceedAll(head.next, Rest(spine), Nows(), buf, next, owner);
      finished := true;
    }

    /** Before the first `Finish` the parts are the planned ones. */
    lemma PlannedParts()
      requires Valid() && !finished
      ensures Joined(Nows()) == Pending(spine)
    {
      hide Plans;
      OpsKnown();
      JoinedPlans(spine[1..], Nows());
    }
  }

  lemma TracksWeaker(next: Links, owner: map<Bits, Op>, finished: bool)
    requires Tracks(next, owner, finished)
    ensures Tracks(next, owner, true)
  {
  }

  /** One operation runs; the others are as before. */
  method ProceedOne(op: Op, buf: array<byte>, pos: nat, ghost next: Links, ghost owner: map<Bits, Op>)
    requires Tracks(next, owner, true) && op in next && op.Valid() && pos + op.len <= buf.Length
    requires forall k :: pos <= k < pos + op.len ==> buf[k] == 0
    modifies op.bits, buf
    ensures Tracks(next, owner, true) && op.Valid() && buf[..] == Placed(old(buf[..]), pos, old(op.Now()))
    ensures op.payload.U64? ==> op.bits.lo == old(Remnant(op.bits.lo, op.bits.hi)) && op.bits.hi == 0
  {
    hide Op.Valid, Op.Now, Placed, Remnant;
    op.Proceed(buf, pos);
  }

  ghost predicate NextIs(sp: seq<Op>, k: nat)
    requires k < |sp|
    reads sp[k]
  {
    sp[k].next == if k + 1 < |sp| then sp[k + 1] else null
  }

  /** The loop of `finish` over the operations from `first` on. */
  method ProceedAll(first: Op?, ghost sp: seq<Op>, ghost parts: seq<seq<byte>>, buf: array<byte>,
                    ghost next: Links, ghost owner: map<Bits, Op>)
    requires Tracks(next, owner, true) && forall k :: 0 <= k < |sp| ==> sp[k] in next
    requires first == if sp == [] then null else sp[0]
    requires forall k :: 0 <= k < |sp| ==> NextIs(sp, k)
    requires forall j, k :: 0 <= j < k < |sp| ==> sp[j].bits != sp[k].bits
    requires |parts| == |sp| && forall k :: 0 <= k < |sp| ==> sp[k].Valid() && sp[k].Now() == parts[k]
    requires |Joined(parts)| == buf.Length && forall k :: 0 <= k < buf.Length ==> buf[k] == 0
    modifies buf, set k | 0 <= k < |sp| :: sp[k].bits
    ensures buf[..] == Joined(parts) && Tracks(next, owner, true)
    ensures forall o :: o in sp && o.payload.U64? ==> Spent(o.bits, old(o.bits.lo), old(o.bits.hi))
  {
    hide Remnant, Tracks, Op.Valid, Op.Now, Placed, Joined;
    var op, pos := first, 0;
    ghost var i := 0;
    JoinedNone();
    while op != null
      invariant i <= |sp| && (op == if i < |sp| then sp[i] else null)
      invariant pos == |Joined(parts[..i])| && pos <= buf.Length
      invariant forall k :: pos <= k < buf.Length ==> buf[k] == 0
      invariant buf[..pos] == Joined(parts[..i])
      invariant Tracks(next, owner, true)
      invariant forall k :: i <= k < |sp| ==> sp[k].Valid() && sp[k].Now() == parts[k]
      invariant forall k :: i <= k < |sp| ==> Kept(sp[k].bits, old(sp[k].bits.lo), old(sp[k].bits.hi))
      invariant forall k :: 0 <= k < i && sp[k].payload.U64? ==>
        Spent(sp[k].bits, old(sp[k].bits.lo), old(sp[k].bits.hi))
      decreases |sp| - i
    {
      assert NextIs(sp, i);
      JoinedStep(parts, i);
      ghost var was := buf[..];
      ProceedOne(op, buf, pos, next, owner);
      PlacedFront(was, pos, parts[i], buf[..]);
      pos := pos + op.len;
      op := op.next;
      i := i + 1;
    }
    assert parts[..i] == parts;
  }

  ghost predicate Kept(b: Bits, lo: half, hi: half)
    reads b
  {
    b.lo == lo && b.hi == hi
  }

  ghost predicate Spent(b: Bits, lo: half, hi: half)
    reads b
  {
    b.lo == Remnant(lo, hi) && b.hi == 0
  }

  lemma JoinedNone()
    ensures Joined([]) == []
  {
  }

  // ---- concatenations

  function Joined(parts: seq<seq<byte>>): seq<byte>
    decreases |parts|
  {
    if parts == [] then [] else Joined(parts[..|parts| - 1]) + parts[|parts| - 1]
  }

  lemma {:induction false} JoinedStep(parts: seq<seq<byte>>, i: nat)
    requires i < |parts|
    ensures Joined(parts[..i + 1]) == Joined(parts[..i]) + parts[i]
    ensures |Joined(parts[..i])| + |parts[i]| <= |Joined(parts)|
    decreases |parts| - i
  {
    assert parts[..i + 1][..i] == parts[..i];
    if i + 1 < |parts| {
      JoinedStep(parts, i + 1);
    } else {
      assert parts[..i + 1] == parts;
    }
  }

  lemma {:induction false} JoinedPlans(sp: seq<Op>, parts: seq<seq<byte>>)
    requires |sp| == |parts| && forall k :: 0 <= k < |sp| ==> parts[k] == sp[k].plan
    ensures Joined(parts) == Plans(sp)
    decreases |sp|
  {
    if sp != [] {
      var n := |sp| - 1;
      JoinedPlans(sp[..n], parts[..n]);
      assert sp == sp[..n] + [sp[n]];
      PlansConcat(sp[..n], [sp[n]]);
      PlansOne(sp[n]);
    }
  }

  lemma {:induction false} LengthsMatch(sp: seq<Op>, parts: seq<seq<byte>>)
    requires |sp| == |parts| && forall k :: 0 <= k < |sp| ==> |parts[k]| == |sp[k].plan|
    ensures |Joined(parts)| == |Plans(sp)|
    decreases |sp|
  {
    if sp != [] {
      var n := |sp| - 1;
      LengthsMatch(sp[..n], parts[..n]);
      assert sp == sp[..n] + [sp[n]];
      PlansConcat(sp[..n], [sp[n]]);
      PlansOne(sp[n]);
    }
  }

  lemma {:induction false} PlacedFront(was: seq<byte>, pos: nat, b: seq<byte>, now: seq<byte>)
    requires pos + |b| <= |was| && now == Placed(was, pos, b)
    ensures now[..pos + |b|] == was[..pos] + b
    ensures forall k :: pos + |b| <= k < |now| ==> now[k] == was[k]
  {
  }

  // ---- what the typed writes plan

  /** The bytes of `int64`: the announced length, filled by what the writer emits. */
  function Int64Bytes(n: int): seq<byte> {
    var b := Halves(n);
    EmittedIsEncoding(b.0, b.1);
    Padded(Emitted(b.0, b.1), Int64Length(b.0, b.1))
  }

  /** `int64` plans the varint of the number modulo 2^64, except for words from 2^31 to 2^32 - 1. */
  lemma {:induction false} Int64Exact(n: int)
    ensures var w := n % 0x1_0000_0000_0000_0000;
      Int64Bytes(n) == Leb128.Encode(w) <==> !(0x8000_0000 <= w < 0x1_0000_0000)
  {
    hide Word, Emitted, Int64Length, Leb128.Encode, Padded;
    var b := Halves(n);
    var w := n % 0x1_0000_0000_0000_0000;
    WordOfHalves(n);
    EmittedIsEncoding(b.0, b.1);
    LengthExact(b.0, b.1);
    EarlyWords(b.0, b.1);
    PaddedFull(Leb128.Encode(w));
    if StopsEarly(b.0, b.1) {
      PaddedShort(Emitted(b.0, b.1), Int64Length(b.0, b.1));
      Leb128.EncodeIsGroup(w);
      LastIsPositive(w);
    }
  }

  lemma {:induction false} EarlyWords(lo: half, hi: half)
    requires lo < 0x8000_0000 && hi < 0x8000_0000
    ensures StopsEarly(lo, hi) <==> 0x8000_0000 <= Word(lo, hi) < 0x1_0000_0000
  {
  }

  lemma PaddedShort(b: seq<byte>, len: nat)
    requires |b| < len
    ensures Padded(b, len)[len - 1] == 0
  {
  }

  lemma {:induction false} LastIsPositive(w: nat)
    requires w > 0
    ensures var e := Leb128.Encode(w); e[|e| - 1] != 0
    decreases w
  {
    if w >= 128 {
      LastIsPositive(w / 128);
    }
  }

  lemma {:induction false} NegativeEmission(value: int)
    requires -0x8000_0000 <= value < 0
    ensures Emission(U64, Halves(value).0, Halves(value).1) == Leb128.Encode(value + 0x1_0000_0000_0000_0000)
    ensures |Leb128.Encode(value + 0x1_0000_0000_0000_0000)| == 10
    ensures value % 0x1_0000_0000_0000_0000 == value + 0x1_0000_0000_0000_0000
  {
    hide Word, Emitted, Leb128.Encode;
    FloorUnique(value, 0x1_0000_0000_0000_0000, -1, value + 0x1_0000_0000_0000_0000);
    FloorUnique(value, 0x1_0000_0000, -1, value + 0x1_0000_0000);
    WordOfHalves(value);
    EmittedIsEncoding(Halves(value).0, Halves(value).1);
    GroupsIs(value + 0x1_0000_0000_0000_0000);
  }

  lemma {:induction false} TagWord(fieldNo: nat, wireType: nat)
    requires fieldNo < 0x2000_0000 && wireType < 8
    ensures ToUint32(ToUint32(Or(Shl(fieldNo, 3), wireType))) == 8 * fieldNo + wireType
  {
    hide Or, Shl;
    Two3();
    ShlIs(fieldNo, 3, 8);
    FloorUnique(fieldNo * 8, 0x1_0000_0000, 0, fieldNo * 8);
    SelfWord(wireType);
    OrJoin(wireType, Shl(fieldNo, 3), wireType, fieldNo, 3, 8);
    SelfWord(8 * fieldNo + wireType);
  }

  lemma SameFixed(value: int)
    ensures FixedBytes(ToUint32(value)) == FixedBytes(value)
  {
    SelfWord(ToUint32(value));
  }


  /** The block that is being closed, seen from the enclosing list. */
  lemma {:induction false} BlockApart(block: seq<Op>, outside: seq<seq<Op>>, links: Links,
                                      base: seq<Op>, reset: Links, rest: seq<seq<Op>>)
    requires Separate(block, outside, links)
    requires outside != [] ==> base == outside[0] && rest == outside[1..] && reset == links
    requires outside == [] ==> rest == [] && |base| == 1 && base[0] !in links && reset == links[base[0] := null]
    ensures Linked(block, reset) && base != [] && Last(base) !in block && Last(base) != Last(block)
    ensures forall k :: 0 <= k < |rest| ==> rest[k] != [] && Last(rest[k]) != Last(block)
  {
    if outside == [] {
      StaysLinked(block, links, base[0], null);
    } else {
      assert Linked(outside[0], links);
      EndElsewhere(block, links, Last(base));
      forall k | 0 <= k < |rest|
        ensures rest[k] != [] && Last(rest[k]) != Last(block)
      {
        assert rest[k] == outside[k + 1];
      }
    }
  }

  lemma {:induction false} BlockClosed(spine: seq<Op>, block: seq<Op>, rest: seq<seq<Op>>, next: Links)
    requires Separate(spine, rest, next) && Linked(block, next) && Pending(block) != []
    requires Last(spine) != Last(block) && forall k :: 0 <= k < |rest| ==> rest[k] != [] && Last(rest[k]) != Last(block)
    ensures |block| > 1 && Separate(spine + block[1..], rest, next[Last(spine) := block[1]])
    ensures Last(spine + block[1..]) == Last(block)
    ensures Pending(spine + block[1..]) == Pending(spine) + Pending(block)
  {
    Spliced(spine, block, next);
    forall k | 0 <= k < |rest|
      ensures Linked(rest[k], next[Last(spine) := block[1]])
    {
      EndElsewhere(rest[k], next, Last(spine));
      StaysLinked(rest[k], next, Last(spine), block[1]);
    }
    assert (spine + block[1..])[1..] == spine[1..] + block[1..];
    PlansConcat(spine[1..], block[1..]);
  }

  lemma PendingLength(block: seq<Op>)
    requires block != []
    ensures |Pending(block)| == 0 <==> Pending(block) == []
  {
  }

  lemma BlockHead(block: seq<Op>, next: Links)
    requires Linked(block, next) && |block| > 1
    ensures block[0] in next && next[block[0]] == block[1] && block[1] in next
  {
  }

  lemma SeparateEnds(spine: seq<Op>, saved: seq<seq<Op>>, next: Links)
    requires Separate(spine, saved, next)
    ensures spine != [] && Last(spine) in next && next[Last(spine)] == null
    ensures forall k :: 0 <= k < |saved| ==> saved[k] != []
  {
  }

  lemma EmptyPending(op: Op)
    ensures Pending([op]) == []
  {
    assert [op][1..] == [];
  }

  lemma HeldFork(states: States, spine: seq<Op>, saved: seq<seq<Op>>)
    requires Held(states, saved) && spine != []
    ensures Held(State(spine[0], Last(spine), |Pending(spine)|, states), [spine] + saved)
  {
    assert ([spine] + saved)[1..] == saved;
  }

  lemma {:induction false} Forked(spine: seq<Op>, saved: seq<seq<Op>>, next: Links, op: Op)
    requires Separate(spine, saved, next) && op !in next
    ensures Separate([op], [spine] + saved, next[op := null])
    ensures spine != []
  {
    var sv := [spine] + saved;
    forall k | 0 <= k < |sv|
      ensures Linked(sv[k], next[op := null]) && Last(sv[k]) != op
    {
      StaysLinked(sv[k], next, op, null);
    }
    forall j, k | 0 <= j < k < |sv|
      ensures Last(sv[j]) != Last(sv[k])
    {
      assert sv[k] == saved[k - 1];
      if j > 0 {
        assert sv[j] == saved[j - 1];
      }
    }
  }

  lemma {:induction false} Restored(spine: seq<Op>, saved: seq<seq<Op>>, next: Links)
    requires Separate(spine, saved, next) && saved != []
    ensures Separate(saved[0], saved[1..], next)
  {
    var sv := saved[1..];
    forall k | 0 <= k < |sv|
      ensures Linked(sv[k], next) && Last(sv[k]) != Last(saved[0])
    {
      assert sv[k] == saved[k + 1];
    }
    forall j, k | 0 <= j < k < |sv|
      ensures Last(sv[j]) != Last(sv[k])
    {
      assert sv[k] == saved[k + 1] && sv[j] == saved[j + 1];
    }
  }

  lemma {:induction false} Renewed(spine: seq<Op>, next: Links, op: Op)
    requires op !in next
    ensures Separate([op], [], next[op := null])
  {
  }

  lemma PaddedFull(b: seq<byte>)
    ensures Padded(b, |b|) == b
  {
  }
}
