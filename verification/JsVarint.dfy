/** The 32-bit accumulators with which the varint readers of EOS and protobuf join groups of seven bits. */
module JsVarint {
  import opened Wrappers
  import opened Numerals
  import opened JsInt
  import opened JsBytes
  import opened Leb128

  /** The reader's accumulator after the bytes of `s`: `v |= (b & 0x7f) << bit`, where the
      shift count wraps at 32. */
  function Accumulate(s: seq<byte>): (v: int)
    ensures -0x8000_0000 <= v < 0x8000_0000
    decreases |s|
  {
    if s == [] then 0
    else
      var k := |s| - 1;
      Or(Accumulate(s[..k]), Shl(And(s[k], 0x7f), 7 * k))
  }

  lemma {:induction false} Pow128(k: nat)
    ensures Pow(128, k) == Pow(2, 7 * k)
    decreases k
  {
    if k > 0 {
      Pow128(k - 1);
      Two7();
      PowAdd(2, 7, 7 * (k - 1));
    }
  }

  /** Up to five bytes the accumulator holds the payload modulo 2^32. */
  lemma {:induction false} AccumulateValue(s: seq<byte>)
    requires |s| <= 5
    ensures ToUint32(Accumulate(s)) == Payload(s) % 0x1_0000_0000
    decreases |s|
  {
    if s != [] {
      var k := |s| - 1;
      var low, b := s[..k], s[k];
      assert s == low + [b];
      PayloadAppend(low, b);
      AccumulateValue(low);
      Mask7(b);
      Pow128(k);
      PayloadBound(low);
      AccumulateStep(Payload(low), b % 128, k, Accumulate(low));
    }
  }

  lemma {:induction false} AccumulateStep(u: nat, d: nat, k: nat, a: int)
    requires k < 5 && u < Pow(2, 7 * k) && d < 128
    requires ToUint32(a) == u % 0x1_0000_0000
    ensures ToUint32(Or(a, Shl(d, 7 * k))) == (u + Pow(2, 7 * k) * d) % 0x1_0000_0000
  {
    if k < 4 {
      var p := Pow(2, 7 * k);
      assert p <= 0x20_0000 by {
        Two21();
        PowMono(2, 7 * k, 21);
      }
      AccumulateLow(u, d, 7 * k, p, a);
    } else {
      Two28();
      ShlIs(d, 28, 0x1000_0000);
      AccumulateTop(u, d, a, Shl(d, 28));
    }
  }

  lemma {:induction false} AccumulateLow(u: nat, d: nat, k: nat, p: nat, a: int)
    requires k < 32 && p == Pow(2, k) && p <= 0x20_0000 && u < p && d < 128 && ToUint32(a) == u
    ensures ToUint32(Or(a, Shl(d, k))) == (u + p * d) % 0x1_0000_0000
  {
    hide Or, Shl, ToUint32, Pow;
    assert d * p <= 127 * 0x20_0000 by {
      MulMono(d, 127, p);
      MulMono(p, 0x20_0000, 127);
    }
    assert ToUint32(Shl(d, k)) == d * p by {
      ShlIs(d, k, p);
    }
    OrJoin(a, Shl(d, k), u, d, k, p);
  }

  /** The fifth group: only its low four bits stay inside the word. */
  lemma {:induction false} AccumulateTop(u: nat, d: nat, a: int, y: int)
    requires u < 0x1000_0000 && d < 128 && ToUint32(a) == u
    requires ToUint32(y) == (d * 0x1000_0000) % 0x1_0000_0000
    ensures ToUint32(Or(a, y)) == (u + 0x1000_0000 * d) % 0x1_0000_0000
  {
    Two28();
    assert ToUint32(y) == (d % 16) * 0x1000_0000;
    OrJoin(a, y, u, d % 16, 28, 0x1000_0000);
  }

  /** Reading what the writer wrote. */
  lemma {:induction false} AccumulateEncode(n: nat)
    requires n < 0x1_0000_0000
    ensures |Encode(n)| <= 5 && ToUint32(Accumulate(Encode(n))) == n
  {
    var e := Encode(n);
    assert |e| <= 5 by { Encode5(n); }
    assert Payload(e) == n by { DecodeEncode(n, []); }
    AccumulateValue(e);
    FloorUnique(n, 0x1_0000_0000, 0, n);
  }

  lemma {:induction false} Encode5(n: nat)
    requires n < 0x1_0000_0000
    ensures |Encode(n)| <= 5
  {
    assert Pow(128, 5) == 0x8_0000_0000 by {
      Pow128(5);
      Two28();
      Two7();
      PowAdd(2, 28, 7);
    }
    EncodeLength(n, 5);
  }
}
