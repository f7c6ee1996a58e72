/** Result and option values for the exceptions and optional fields of the source. */
module Wrappers {

  datatype Option<+T> = None | Some(value: T)

  /** A returned value, or the error the source throws. */
  datatype Result<+T, +E> = Success(value: T) | Failure(error: E) {
    predicate IsFailure() {
      Failure?
    }

    function PropagateFailure<U>(): Result<U, E>
      requires Failure?
    {
      Failure(error)
    }

    function Extract(): T
      requires Success?
    {
      value
    }
  }

  /** A byte, as one element of a `Uint8Array` or a `Buffer`. */
  type byte = x: int | 0 <= x < 256

  /** One 16-bit code unit of a JavaScript string. */
  type unit16 = x: int | 0 <= x < 0x1_0000

  /** A value read, and the bytes left after it. */
  datatype Read<+T> = Read(value: T, rest: seq<byte>)

  /** `s` read backwards. */
  function Reverse<T>(s: seq<T>): (r: seq<T>)
    ensures |r| == |s|
    ensures forall i :: 0 <= i < |s| ==> r[i] == s[|s| - 1 - i]
  {
    if s == [] then [] else Reverse(s[1..]) + [s[0]]
  }

  lemma ReverseReverse<T>(s: seq<T>)
    ensures Reverse(Reverse(s)) == s
  {
  }

  lemma ReverseConcat<T>(s: seq<T>, t: seq<T>)
    ensures Reverse(s + t) == Reverse(t) + Reverse(s)
  {
  }

  lemma ConcatAssoc<T>(s: seq<T>, t: seq<T>, u: seq<T>)
    ensures (s + t) + u == s + (t + u)
  {
  }

  lemma AppendStep<T>(done: seq<T>, x: T, rest: seq<T>)
    ensures done + ([x] + rest) == (done + [x]) + rest
  {
  }

  /** `n` copies of `x`. */
  function Repeat<T>(x: T, n: nat): (r: seq<T>)
    ensures |r| == n
    ensures forall i :: 0 <= i < n ==> r[i] == x
  {
    seq(n, _ => x)
  }

  lemma SliceConcat<T>(s: seq<T>, t: seq<T>, k: nat)
    requires k <= |t|
    ensures (s + t)[..|s| + k] == s + t[..k]
    ensures (s + t)[|s| + k..] == t[k..]
  {
    var u, v := (s + t)[|s| + k..], t[k..];
    assert |u| == |v|;
    assert forall i :: 0 <= i < |v| ==> u[i] == (s + t)[|s| + k + i] == t[k + i] == v[i];
  }
}
