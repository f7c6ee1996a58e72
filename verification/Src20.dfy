/**
 * The SRC-20 payload of packages/coin-bitcoin/src/src20.ts: packing, RC4 and the multisig outputs that carry
 * the encrypted bytes. Strings of character codes below 256 and hexadecimal text stand for byte strings.
 */
module Src20 {
  import opened Wrappers
  import opened Numerals
  import opened JsInt
  import opened JsBytes

  // ---- RC4

  /** The state: an arrangement of 0..255. */
  predicate IsPermutation(s: seq<byte>) {
    |s| == 256 && forall i, j :: 0 <= i < j < 256 ==> s[i] != s[j]
  }

  function Swap(s: seq<byte>, i: nat, j: nat): (r: seq<byte>)
    requires i < |s| && j < |s|
    ensures |r| == |s|
  {
    s[i := s[j]][j := s[i]]
  }

  lemma {:induction false} SwapPermutes(s: seq<byte>, i: nat, j: nat)
    requires IsPermutation(s) && i < 256 && j < 256
    ensures IsPermutation(Swap(s, i, j))
  {
  }

  /** `(a + b) % 256` */
  function Plus(a: nat, b: nat): byte {
    (a + b) % 256
  }

  lemma PlusPlus(a: nat, b: nat, c: nat)
    ensures Plus(Plus(a, b), c) == (a + b + c) % 256
  {
  }

  function Identity(): (s: seq<byte>)
    ensures IsPermutation(s)
  {
    seq(256, i requires 0 <= i < 256 => i)
  }

  /** State and `j` after `i` steps of the key schedule. */
  function Scheduled(key: seq<byte>, i: nat): (r: (seq<byte>, byte))
    requires key != [] && i <= 256
    ensures |r.0| == 256
  {
    if i == 0 then (Identity(), 0)
    else
      var p := Scheduled(key, i - 1);
      var j := Plus(Plus(p.1, p.0[i - 1]), key[(i - 1) % |key|]);
      (Swap(p.0, i - 1, j), j)
  }

  /** State and `j` after `y` bytes of output; `i` is `y % 256`. */
  function Running(s: seq<byte>, y: nat): (r: (seq<byte>, byte))
    requires |s| == 256
    ensures |r.0| == 256
  {
    if y == 0 then (s, 0)
    else
      var p := Running(s, y - 1);
      var j := Plus(p.1, p.0[y % 256]);
      (Swap(p.0, y % 256, j), j)
  }

  /** The state stays a permutation through key schedule and output. */
  lemma {:induction false} ScheduledPermutes(key: seq<byte>, i: nat)
    requires key != [] && i <= 256
    ensures IsPermutation(Scheduled(key, i).0)
    decreases i
  {
    if i > 0 {
      ScheduledPermutes(key, i - 1);
      SwapPermutes(Scheduled(key, i - 1).0, i - 1, Scheduled(key, i).1);
    }
  }

  lemma {:induction false} RunningPermutes(s: seq<byte>, y: nat)
    requires IsPermutation(s)
    ensures IsPermutation(Running(s, y).0)
    decreases y
  {
    if y > 0 {
      RunningPermutes(s, y - 1);
      SwapPermutes(Running(s, y - 1).0, y % 256, Running(s, y).1);
    }
  }

  /** The byte of the key stream for position `y`. */
  function KeyByte(key: seq<byte>, y: nat): byte
    requires key != []
  {
    var r := Running(Scheduled(key, 256).0, y + 1);
    r.0[Plus(r.0[(y + 1) % 256], r.0[r.1])]
  }

  function XorByte(x: byte, y: byte): byte {
    assert XorN(x, y) < 256 by {
      Two8();
      XorBelow(x, y, 8);
    }
    XorN(x, y)
  }

  function Encrypted(key: seq<byte>, str: seq<byte>): (r: seq<byte>)
    requires key != []
    ensures |r| == |str|
  {
    seq(|str|, y requires 0 <= y < |str| => XorByte(str[y], KeyByte(key, y)))
  }

  /** `a ^ b` on bytes. */
  lemma {:induction false} XorIsByte(x: byte, y: byte)
    ensures Xor(x, y) == XorByte(x, y)
  {
    XorIs(x, y, x, y);
  }

  /** `x = s[i]; s[i] = s[j]; s[j] = x` */
  method Exchange(s: array<byte>, i: nat, j: nat)
    requires s.Length == 256 && i < 256 && j < 256
    modifies s
    ensures s[..] == Swap(old(s[..]), i, j)
  {
    var x := s[i];
    s[i] := s[j];
    s[j] := x;
  }

  /** The key schedule of `rc4`. */
  method Schedule(key: seq<byte>) returns (s: array<byte>)
    requires key != []
    ensures fresh(s) && s.Length == 256 && s[..] == Scheduled(key, 256).0
  {
    hide Scheduled, Swap, Plus;
    s := new byte[256](i requires 0 <= i < 256 => i);
    var j: byte := 0;
    ScheduledStart(key);
    assert s[..] == Identity();
    for i := 0 to 256
      invariant s[..] == Scheduled(key, i).0 && j == Scheduled(key, i).1
    {
      ScheduledStep(key, i);
      var a: int, b: int, c: int := j, s[i], key[i % |key|];
      PlusPlus(a, b, c);
      j := (a + b + c) % 256;
      assert j == Scheduled(key, i + 1).1;
      Exchange(s, i, j);
    }
  }

  /** `rc4`, in place on its state array. */
  method Rc4(key: seq<byte>, str: seq<byte>) returns (res: seq<byte>)
    requires key != []
    ensures res == Encrypted(key, str)
    ensures Ciphered(key, str, res)
  {
    hide Running, Scheduled, Swap, KeyByte, XorByte, Xor, Ciphered;
    var s := Schedule(key);
    ghost var s0 := s[..];
    var i, j: byte := 0, 0;
    res := [];
    RunningStart(s0);
    for y := 0 to |str|
      invariant i == y % 256 && s[..] == Running(s0, y).0 && j == Running(s0, y).1
      invariant res == Encrypted(key, str[..y])
    {
      RunningStep(key, y);
      NextIndex(y);
      i := (i + 1) % 256;
      var a: int, b: int := j, s[i];
      j := (a + b) % 256;
      Exchange(s, i, j);
      var c: int, d: int := s[i], s[j];
      XorIsByte(str[y], s[(c + d) % 256]);
      EncryptedStep(key, str, y);
      res := res + [Xor(str[y], s[(c + d) % 256])];
    }
    assert str[..|str|] == str;
    CipheredExactly(key, str, res);
  }

  lemma NextIndex(y: nat)
    ensures (y % 256 + 1) % 256 == (y + 1) % 256
  {
  }

  lemma ScheduledStart(key: seq<byte>)
    requires key != []
    ensures Scheduled(key, 0) == (Identity(), 0)
  {
  }

  lemma ScheduledStep(key: seq<byte>, i: nat)
    requires key != [] && i < 256
    ensures var p := Scheduled(key, i); var j := Plus(Plus(p.1, p.0[i]), key[i % |key|]);
      Scheduled(key, i + 1) == (Swap(p.0, i, j), j)
  {
  }

  lemma RunningStart(s: seq<byte>)
    requires |s| == 256
    ensures Running(s, 0) == (s, 0)
  {
  }

  lemma RunningStep(key: seq<byte>, y: nat)
    requires key != []
    ensures var s := Scheduled(key, 256).0; var p := Running(s, y); var i := (y + 1) % 256; var j := Plus(p.1, p.0[i]);
      var t := Swap(p.0, i, j);
      Running(s, y + 1) == (t, j) && KeyByte(key, y) == t[Plus(t[i], t[j])]
  {
  }

  lemma {:induction false} EncryptedStep(key: seq<byte>, str: seq<byte>, y: nat)
    requires key != [] && y < |str|
    ensures Encrypted(key, str[..y + 1]) == Encrypted(key, str[..y]) + [XorByte(str[y], KeyByte(key, y))]
  {
    hide KeyByte, XorByte;
  }

  /** Decrypting is encrypting again. */
  lemma {:induction false} Involution(key: seq<byte>, str: seq<byte>)
    requires key != []
    ensures Encrypted(key, Encrypted(key, str)) == str
  {
    hide KeyByte;
    forall y | 0 <= y < |str|
      ensures Encrypted(key, Encrypted(key, str))[y] == str[y]
    {
      XorTwice(str[y], KeyByte(key, y));
    }
  }

  // ---- the cipher as a history of states

  /** `t` is `s` with entries `i` and `j` exchanged. */
  predicate Exchanged(s: seq<byte>, t: seq<byte>, i: nat, j: nat) {
    && |s| == |t| == 256 && i < 256 && j < 256
    && t[i] == s[j] && t[j] == s[i]
    && forall k :: 0 <= k < 256 && k != i && k != j ==> t[k] == s[k]
  }

  /** State array and `j` after every step of the key schedule, from `s[i] == i` on. */
  predicate IsSchedule(key: seq<byte>, h: seq<(seq<byte>, byte)>)
    requires key != []
  {
    && |h| == 257 && (forall k :: 0 <= k <= 256 ==> |h[k].0| == 256)
    && h[0].1 == 0 && (forall i :: 0 <= i < 256 ==> h[0].0[i] == i)
    && forall i :: 0 <= i < 256 ==> IsScheduleStep(h[i], h[i + 1], i, key[i % |key|])
  }

  predicate IsScheduleStep(p: (seq<byte>, byte), q: (seq<byte>, byte), i: nat, k: byte)
    requires |p.0| == |q.0| == 256 && i < 256
  {
    q.1 == (p.1 + p.0[i] + k) % 256 && Exchanged(p.0, q.0, i, q.1)
  }

  /** State array and `j` after every byte of output, from state `s` on, and the bytes that come out. */
  predicate IsOutput(s: seq<byte>, str: seq<byte>, g: seq<(seq<byte>, byte)>, res: seq<byte>) {
    && |g| == |str| + 1 && |res| == |str| && (forall y :: 0 <= y <= |str| ==> |g[y].0| == 256)
    && g[0] == (s, 0)
    && forall y :: 0 <= y < |str| ==> IsOutputStep(g[y], g[y + 1], (y + 1) % 256, str[y], res[y])
  }

  predicate IsOutputStep(p: (seq<byte>, byte), q: (seq<byte>, byte), i: nat, c: byte, r: byte)
    requires |p.0| == |q.0| == 256 && i < 256
  {
    && q.1 == (p.1 + p.0[i]) % 256 && Exchanged(p.0, q.0, i, q.1)
    && (var a: int, b: int := q.0[i], q.0[q.1]; r == Xor(c, q.0[(a + b) % 256]))
  }

  /** Some run of the cipher turns `str` into `res`. */
  ghost predicate Ciphered(key: seq<byte>, str: seq<byte>, res: seq<byte>)
    requires key != []
  {
    exists h: seq<(seq<byte>, byte)>, g: seq<(seq<byte>, byte)> ::
      |h| == 257 && IsSchedule(key, h) && IsOutput(h[256].0, str, g, res)
  }

  lemma SwapExchanges(s: seq<byte>, i: nat, j: nat)
    requires |s| == 256 && i < 256 && j < 256
    ensures Exchanged(s, Swap(s, i, j), i, j)
  {
  }

  /** Only one array is the other with two entries exchanged. */
  lemma {:induction false} ExchangedIs(s: seq<byte>, t: seq<byte>, i: nat, j: nat)
    requires Exchanged(s, t, i, j)
    ensures t == Swap(s, i, j)
  {
  }

  lemma {:induction false} ScheduleStepIs(key: seq<byte>, i: nat, q: (seq<byte>, byte))
    requires key != [] && i < 256 && |q.0| == 256
    ensures IsScheduleStep(Scheduled(key, i), q, i, key[i % |key|]) <==> q == Scheduled(key, i + 1)
  {
    hide Exchanged, Scheduled, Swap, Plus;
    var p := Scheduled(key, i);
    ScheduledStep(key, i);
    var a: int, b: int, c: int := p.1, p.0[i], key[i % |key|];
    PlusPlus(a, b, c);
    var j: byte := (a + b + c) % 256;
    SwapExchanges(p.0, i, j);
    if IsScheduleStep(p, q, i, key[i % |key|]) {
      ExchangedIs(p.0, q.0, i, j);
    }
  }

  lemma {:induction false} OutputStepIs(key: seq<byte>, y: nat, q: (seq<byte>, byte), c: byte, r: byte)
    requires key != [] && |q.0| == 256
    ensures IsOutputStep(Running(Scheduled(key, 256).0, y), q, (y + 1) % 256, c, r)
            <==> q == Running(Scheduled(key, 256).0, y + 1) && r == XorByte(c, KeyByte(key, y))
  {
    hide Exchanged, Scheduled, Running, Swap, KeyByte, Xor, XorByte;
    var p := Running(Scheduled(key, 256).0, y);
    var i := (y + 1) % 256;
    RunningStep(key, y);
    var a: int, b: int := p.1, p.0[i];
    var j: byte := (a + b) % 256;
    SwapExchanges(p.0, i, j);
    var t := Swap(p.0, i, j);
    var d: int, e: int := t[i], t[j];
    XorIsByte(c, t[(d + e) % 256]);
    if IsOutputStep(p, q, i, c, r) {
      ExchangedIs(p.0, q.0, i, j);
    }
  }

  lemma {:induction false} ScheduleIs(key: seq<byte>, h: seq<(seq<byte>, byte)>, i: nat)
    requires key != [] && IsSchedule(key, h) && i <= 256
    ensures h[i] == Scheduled(key, i)
    decreases i
  {
    hide IsScheduleStep, Scheduled;
    if i == 0 {
      ScheduledStart(key);
      assert h[0].0 == Identity();
    } else {
      ScheduleIs(key, h, i - 1);
      ScheduleStepIs(key, i - 1, h[i]);
      assert IsScheduleStep(h[i - 1], h[i - 1 + 1], i - 1, key[(i - 1) % |key|]);
    }
  }

  lemma {:induction false} OutputIs(key: seq<byte>, str: seq<byte>, g: seq<(seq<byte>, byte)>, res: seq<byte>, y: nat)
    requires key != [] && IsOutput(Scheduled(key, 256).0, str, g, res) && y <= |str|
    ensures g[y] == Running(Scheduled(key, 256).0, y)
    ensures forall k :: 0 <= k < y ==> res[k] == XorByte(str[k], KeyByte(key, k))
    decreases y
  {
    hide IsOutputStep, Running, Scheduled, KeyByte, XorByte;
    if y == 0 {
      RunningStart(Scheduled(key, 256).0);
    } else {
      OutputIs(key, str, g, res, y - 1);
      OutputStepIs(key, y - 1, g[y], str[y - 1], res[y - 1]);
      assert IsOutputStep(g[y - 1], g[y - 1 + 1], (y - 1 + 1) % 256, str[y - 1], res[y - 1]);
    }
  }

  lemma {:induction false} ScheduleExists(key: seq<byte>)
    requires key != []
    ensures IsSchedule(key, seq(257, i requires 0 <= i < 257 => Scheduled(key, i)))
  {
    hide IsScheduleStep, Scheduled;
    var h := seq(257, i requires 0 <= i < 257 => Scheduled(key, i));
    ScheduledStart(key);
    forall i | 0 <= i < 256
      ensures IsScheduleStep(h[i], h[i + 1], i, key[i % |key|])
    {
      ScheduleStepIs(key, i, h[i + 1]);
    }
  }

  lemma {:induction false} OutputExists(key: seq<byte>, str: seq<byte>)
    requires key != []
    ensures var s := Scheduled(key, 256).0;
      IsOutput(s, str, seq(|str| + 1, y requires 0 <= y < |str| + 1 => Running(s, y)), Encrypted(key, str))
  {
    hide IsOutputStep, Running, Scheduled, KeyByte, XorByte;
    var s := Scheduled(key, 256).0;
    var g := seq(|str| + 1, y requires 0 <= y < |str| + 1 => Running(s, y));
    RunningStart(s);
    forall y | 0 <= y < |str|
      ensures IsOutputStep(g[y], g[y + 1], (y + 1) % 256, str[y], Encrypted(key, str)[y])
    {
      OutputStepIs(key, y, g[y + 1], str[y], Encrypted(key, str)[y]);
    }
  }

  /** Exactly one byte string comes out of a run of the cipher. */
  lemma {:induction false} CipheredExactly(key: seq<byte>, str: seq<byte>, res: seq<byte>)
    requires key != []
    ensures Ciphered(key, str, res) <==> res == Encrypted(key, str)
  {
    hide IsSchedule, IsOutput, Scheduled, Running, KeyByte, XorByte;
    ScheduleExists(key);
    OutputExists(key, str);
    var h := seq(257, i requires 0 <= i < 257 => Scheduled(key, i));
    assert h[256] == Scheduled(key, 256);
    if Ciphered(key, str, res) {
      CipheredOnce(key, str, res);
    }
  }

  lemma {:induction false} CipheredOnce(key: seq<byte>, str: seq<byte>, res: seq<byte>)
    requires key != [] && Ciphered(key, str, res)
    ensures res == Encrypted(key, str)
  {
    hide IsSchedule, Scheduled, Running, KeyByte, XorByte;
    var h: seq<(seq<byte>, byte)>, g: seq<(seq<byte>, byte)> :|
      |h| == 257 && IsSchedule(key, h) && IsOutput(h[256].0, str, g, res);
    ScheduleIs(key, h, 256);
    OutputIs(key, str, g, res, |str|);
  }
}
