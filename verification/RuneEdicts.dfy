/**
 * The edict list of the first runes protocol (packages/coin-bitcoin/src/rune.ts): sorted by id in place, and
 * each id written as its distance from the one before.
 */
module RuneEdicts {
  import opened Wrappers
  import opened RuneVarints

  datatype Edict = Edict(id: int, amount: int, output: int)

  // ---- the order

  predicate Sorted(s: seq<Edict>) {
    forall i, j :: 0 <= i < j < |s| ==> s[i].id <= s[j].id
  }

  /** The edicts with one id, in their order. */
  function Having(s: seq<Edict>, id: int): seq<Edict>
    decreases |s|
  {
    if s == [] then [] else (if s[0].id == id then [s[0]] else []) + Having(s[1..], id)
  }

  /** `e` before the first edict whose id is not smaller. */
  function Insert(e: Edict, s: seq<Edict>): (r: seq<Edict>)
    ensures |r| == |s| + 1
    decreases |s|
  {
    if s == [] || e.id <= s[0].id then [e] + s else [s[0]] + Insert(e, s[1..])
  }

  /** The stable sort by id. */
  function SortById(s: seq<Edict>): (r: seq<Edict>)
    ensures |r| == |s|
    decreases |s|
  {
    if s == [] then [] else Insert(s[0], SortById(s[1..]))
  }

  lemma {:induction false} InsertSorted(e: Edict, s: seq<Edict>)
    requires Sorted(s)
    ensures Sorted(Insert(e, s))
    ensures forall x :: x in Insert(e, s) <==> x == e || x in s
    decreases |s|
  {
    if s != [] && e.id > s[0].id {
      InsertSorted(e, s[1..]);
      var r := Insert(e, s[1..]);
      assert s == [s[0]] + s[1..];
      assert forall i :: 0 <= i < |r| ==> r[i] in r;
    }
  }

  lemma {:induction false} InsertHaving(e: Edict, s: seq<Edict>, id: int)
    requires Sorted(s)
    ensures Having(Insert(e, s), id) == (if e.id == id then [e] else []) + Having(s, id)
    decreases |s|
  {
    if s != [] && e.id > s[0].id {
      InsertHaving(e, s[1..], id);
      assert Insert(e, s)[1..] == Insert(e, s[1..]);
    } else {
      assert Insert(e, s)[1..] == s;
    }
  }

  /** Sorted, and edicts with one id keep their order, so that no edict is lost or doubled either. */
  lemma {:induction false} SortStable(s: seq<Edict>, id: int)
    ensures Sorted(SortById(s)) && Having(SortById(s), id) == Having(s, id)
    decreases |s|
  {
    if s != [] {
      SortStable(s[1..], id);
      InsertSorted(s[0], SortById(s[1..]));
      InsertHaving(s[0], SortById(s[1..]), id);
    }
  }

  /** Only one list is so, whatever way of sorting produced it. */
  lemma {:induction false} StableUnique(s: seq<Edict>, t: seq<Edict>)
    requires Sorted(s) && Sorted(t) && forall id :: Having(s, id) == Having(t, id)
    ensures s == t
    decreases |s|
  {
    if s == [] || t == [] {
      if s != [] {
        FirstHad(s, t);
      } else if t != [] {
        FirstHad(t, s);
      }
    } else {
      SameFirst(s, t);
      forall id ensures Having(s[1..], id) == Having(t[1..], id) {
        var first: seq<Edict> := if s[0].id == id then [s[0]] else [];
        assert Having(s, id) == first + Having(s[1..], id);
        assert Having(t, id) == first + Having(t[1..], id);
        Tail(first, Having(s[1..], id), Having(t[1..], id));
      }
      StableUnique(s[1..], t[1..]);
      assert s == [s[0]] + s[1..] && t == [t[0]] + t[1..];
    }
  }

  lemma FirstHad(s: seq<Edict>, t: seq<Edict>)
    requires s != [] && t == []
    ensures Having(s, s[0].id) != Having(t, s[0].id)
  {
    assert Having(s, s[0].id)[0] == s[0];
  }

  lemma Tail(first: seq<Edict>, s: seq<Edict>, t: seq<Edict>)
    requires first + s == first + t
    ensures s == t
  {
    assert (first + s)[|first|..] == s && (first + t)[|first|..] == t;
  }

  lemma {:induction false} SameFirst(s: seq<Edict>, t: seq<Edict>)
    requires s != [] && t != [] && Sorted(s) && Sorted(t)
    requires forall id :: Having(s, id) == Having(t, id)
    ensures s[0] == t[0]
  {
    HavingMember(s, t[0].id);
    HavingMember(t, s[0].id);
    assert Having(s, s[0].id)[0] == s[0] && Having(t, t[0].id)[0] == t[0];
  }

  /** A list with an edict of this id starts with no larger id. */
  lemma {:induction false} HavingMember(s: seq<Edict>, id: int)
    requires Sorted(s) && Having(s, id) != []
    ensures s != [] && s[0].id <= id
    decreases |s|
  {
    if s[0].id != id {
      HavingMember(s[1..], id);
    }
  }

  // ---- the payload

  /** The numbers of the edicts in `s`, after one with id `last`. */
  function Triples(s: seq<Edict>, last: int): seq<byte>
    decreases |s|
  {
    if s == [] then []
    else
      PushedPrefix(s[0].id - last)
      + (PushedPrefix(s[0].amount) + (PushedPrefix(s[0].output) + Triples(s[1..], s[0].id)))
  }

  function Payload(s: seq<Edict>): seq<byte> {
    if s == [] then [] else PushedPrefix(0) + Triples(s, 0)
  }

  /** The payload of `buildRuneData`; the list itself ends up sorted. */
  method BuildRuneData(edicts: array<Edict>) returns (payload: seq<byte>)
    modifies edicts
    ensures edicts[..] == SortById(old(edicts[..]))
    ensures payload == Payload(SortById(old(edicts[..])))
  {
    hide PushedPrefix, SortById;
    payload := [];
    if edicts.Length > 0 {
      payload := EncodeToVec(0, payload);
      Sort(edicts);
      var id := 0;
      assert edicts[0..] == edicts[..];
      for i := 0 to edicts.Length
        invariant edicts[..] == SortById(old(edicts[..]))
        invariant payload + Triples(edicts[i..], id) == Payload(edicts[..])
      {
        var edict := edicts[i];
        ghost var done, rest := payload, Triples(edicts[i + 1..], edict.id);
        assert edicts[i..][0] == edict && edicts[i..][1..] == edicts[i + 1..];
        payload := EncodeToVec(edict.id - id, payload);
        payload := EncodeToVec(edict.amount, payload);
        payload := EncodeToVec(edict.output, payload);
        Regroup(done, PushedPrefix(edict.id - id), PushedPrefix(edict.amount), PushedPrefix(edict.output), rest);
        id := edict.id;
      }
      assert edicts[edicts.Length..] == [] && payload + [] == payload;
    }
  }

  lemma Regroup(done: seq<byte>, a: seq<byte>, b: seq<byte>, c: seq<byte>, rest: seq<byte>)
    ensures done + (a + (b + (c + rest))) == (((done + a) + b) + c) + rest
  {
  }

  /** `edicts.sort`, which sorts in place and keeps the order of equal ids. */
  method Sort(edicts: array<Edict>)
    modifies edicts
    ensures edicts[..] == SortById(old(edicts[..]))
  {
    var sorted := SortById(edicts[..]);
    forall i | 0 <= i < edicts.Length {
      edicts[i] := sorted[i];
    }
  }

  // ---- reading it back

  /** One number, and what follows. */
  function ReadNumber(s: seq<byte>): (r: Option<Read<nat>>)
    ensures r.Some? ==> |r.value.rest| < |s|
  {
    match DecodeFrom(0, s)
    case None => None
    case Some(d) => Some(Read(d.0, s[d.1..]))
  }

  /** One edict after one with id `last`. */
  function ReadEdict(s: seq<byte>, last: int): (r: Option<Read<Edict>>)
    ensures r.Some? ==> |r.value.rest| < |s|
  {
    match ReadNumber(s)
    case None => None
    case Some(d) =>
      match ReadNumber(d.rest)
      case None => None
      case Some(a) =>
        match ReadNumber(a.rest)
        case None => None
        case Some(o) => Some(Read(Edict(last + d.value, a.value, o.value), o.rest))
  }

  /** Edicts up to the end, by running sums of the distances. */
  function ReadTriples(s: seq<byte>, last: int): Option<seq<Edict>>
    decreases |s|
  {
    if s == [] then Some([])
    else
      match ReadEdict(s, last)
      case None => None
      case Some(e) =>
        match ReadTriples(e.rest, e.value.id)
        case None => None
        case Some(t) => Some([e.value] + t)
  }

  /** The edicts of a payload: none, or the body tag and the edicts. */
  function ReadPayload(s: seq<byte>): Option<seq<Edict>> {
    if s == [] then Some([])
    else
      match ReadNumber(s)
      case None => None
      case Some(tag) => if tag.value == 0 then ReadTriples(tag.rest, 0) else None
  }

  /** Every number in the list can be written, and every distance between ids. */
  predicate Carried(s: seq<Edict>, last: int)
    decreases |s|
  {
    s == [] || (Writable(s[0].id - last) && Writable(s[0].amount) && Writable(s[0].output) && Carried(s[1..], s[0].id))
  }

  lemma {:induction false} NumberRead(n: int, rest: seq<byte>)
    ensures Writable(n) ==> ReadNumber(PushedPrefix(n) + rest) == Some(Read(n, rest))
    ensures !Writable(n) ==> var r := ReadNumber(PushedPrefix(n) + rest); r.None? || r.value.value != n
  {
    hide PushedPrefix, Writable;
    PrefixRoundTrip(n, rest);
    assert (PushedPrefix(n) + rest)[|PushedPrefix(n)|..] == rest;
  }

  lemma {:induction false} EdictRead(e: Edict, last: int, rest: seq<byte>)
    ensures
      var s := PushedPrefix(e.id - last) + (PushedPrefix(e.amount) + (PushedPrefix(e.output) + rest));
      var all := Writable(e.id - last) && Writable(e.amount) && Writable(e.output);
      if all then ReadEdict(s, last) == Some(Read(e, rest))
      else ReadEdict(s, last).None? || ReadEdict(s, last).value.value != e
  {
    hide PushedPrefix, Writable, ReadNumber;
    var o := PushedPrefix(e.output) + rest;
    var a := PushedPrefix(e.amount) + o;
    NumberRead(e.id - last, a);
    NumberRead(e.amount, o);
    NumberRead(e.output, rest);
  }

  lemma {:induction false} FirstRead(s: seq<byte>, last: int, e: Edict, rest: seq<byte>, tail: seq<Edict>)
    requires s != [] && ReadEdict(s, last) == Some(Read(e, rest))
    ensures ReadTriples(s, last) == Some([e] + tail) <==> ReadTriples(rest, e.id) == Some(tail)
  {
    hide ReadEdict;
    if ReadTriples(s, last) == Some([e] + tail) {
      var t := ReadTriples(rest, e.id).value;
      assert ([e] + t)[1..] == t && ([e] + tail)[1..] == tail;
    }
  }

  lemma {:induction false} FirstMisread(s: seq<byte>, last: int, e: Edict, tail: seq<Edict>)
    requires s != [] && (ReadEdict(s, last).None? || ReadEdict(s, last).value.value != e)
    ensures ReadTriples(s, last) != Some([e] + tail)
  {
    hide ReadEdict;
    if ReadTriples(s, last).Some? {
      assert ReadTriples(s, last).value[0] == ReadEdict(s, last).value.value;
      assert ([e] + tail)[0] == e;
    }
  }

  lemma {:induction false} TriplesRead(s: seq<Edict>, last: int)
    ensures ReadTriples(Triples(s, last), last) == Some(s) <==> Carried(s, last)
    decreases |s|
  {
    hide PushedPrefix, Writable, ReadEdict, ReadTriples;
    var bytes := Triples(s, last);
    if s == [] {
      assert ReadTriples([], last) == Some([]) by { NothingRead(last); }
    } else {
      var rest := Triples(s[1..], s[0].id);
      NotEmpty(s, last);
      EdictRead(s[0], last, rest);
      TriplesRead(s[1..], s[0].id);
      assert s == [s[0]] + s[1..];
      if ReadEdict(bytes, last) == Some(Read(s[0], rest)) {
        FirstRead(bytes, last, s[0], rest, s[1..]);
      } else {
        FirstMisread(bytes, last, s[0], s[1..]);
      }
    }
  }

  lemma NothingRead(last: int)
    ensures ReadTriples([], last) == Some([])
  {
  }

  lemma NotEmpty(s: seq<Edict>, last: int)
    requires s != []
    ensures Triples(s, last) != []
  {
  }

  /** Reading a payload by running sums recovers the list that was sorted, exactly when all its numbers and
      the distances between its ids can be written. */
  lemma {:induction false} EdictsRoundTrip(edicts: seq<Edict>)
    ensures ReadPayload(Payload(SortById(edicts))) == Some(SortById(edicts)) <==> Carried(SortById(edicts), 0)
  {
    hide SortById, Triples, Carried, ReadTriples;
    var s := SortById(edicts);
    if s == [] {
      assert Carried(s, 0) by { NothingCarried(s); }
    } else {
      TriplesRead(s, 0);
      ZeroWritable();
      NumberRead(0, Triples(s, 0));
    }
  }

  lemma NothingCarried(s: seq<Edict>)
    requires s == []
    ensures Carried(s, 0)
  {
  }

  lemma ZeroWritable()
    ensures Writable(0)
  {
    assert FirstOf(19) == 128 + 128 * FirstOf(18);
  }

  predicate InRange(e: Edict) {
    Writable(e.id) && Writable(e.amount) && Writable(e.output)
  }

  /** In particular for every list of numbers from 0 to below 128 + 128^2 + ... + 128^19. */
  lemma {:induction false} InRangeCarried(edicts: seq<Edict>)
    requires forall e :: e in edicts ==> InRange(e)
    ensures ReadPayload(Payload(SortById(edicts))) == Some(SortById(edicts))
  {
    SortStable(edicts, 0);
    SortMembers(edicts);
    var s := SortById(edicts);
    assert s != [] ==> InRange(s[0]);
    RangeCarried(s, 0);
    EdictsRoundTrip(edicts);
  }

  lemma {:induction false} SortMembers(s: seq<Edict>)
    ensures forall e :: e in SortById(s) <==> e in s
    decreases |s|
  {
    if s != [] {
      SortMembers(s[1..]);
      SortStable(s[1..], 0);
      InsertSorted(s[0], SortById(s[1..]));
      assert s == [s[0]] + s[1..];
    }
  }

  lemma {:induction false} RangeCarried(s: seq<Edict>, last: int)
    requires Sorted(s) && (forall e :: e in s ==> InRange(e)) && 0 <= last && (s != [] ==> last <= s[0].id)
    ensures Carried(s, last)
    decreases |s|
  {
    if s != [] {
      hide FirstOf;
      assert InRange(s[0]);
      RangeCarried(s[1..], s[0].id);
    }
  }
}
