/** Sums of output values and fees, and fees from sizes and rates. */
module Amounts {
  function Sum(s: seq<int>): int
    decreases |s|
  {
    if s == [] then 0 else s[0] + Sum(s[1..])
  }

  lemma {:induction false} SumConcat(s: seq<int>, t: seq<int>)
    ensures Sum(s + t) == Sum(s) + Sum(t)
    decreases |s|
  {
    if s == [] {
      assert s + t == t;
    } else {
      assert (s + t)[1..] == s[1..] + t;
      SumConcat(s[1..], t);
    }
  }

  lemma {:induction false} SumOne(x: int)
    ensures Sum([x]) == x
  {
    assert [x][1..] == [];
  }

  lemma {:induction false} SumTail(s: seq<int>, k: nat)
    requires k < |s|
    ensures Sum(s[k..]) == s[k] + Sum(s[k + 1..])
  {
    assert s[k..][1..] == s[k + 1..];
  }

  lemma {:induction false} SumUpTo(s: seq<int>, k: nat)
    requires k < |s|
    ensures Sum(s[..k + 1]) == Sum(s[..k]) + s[k]
  {
    assert s[..k + 1] == s[..k] + [s[k]];
    SumConcat(s[..k], [s[k]]);
    SumOne(s[k]);
  }

  /** `Math.floor(size * rate)` for a size in (virtual) bytes. */
  function Fee(size: nat, rate: real): (fee: int)
    ensures fee as real <= size as real * rate < fee as real + 1.0
  {
    (size as real * rate).Floor
  }

  /** Fees grow with the size. */
  lemma FeeMono(a: nat, b: nat, rate: real)
    requires a <= b && rate >= 0.0
    ensures 0 <= Fee(a, rate) <= Fee(b, rate)
  {
    assert a as real * rate <= b as real * rate;
  }
}
