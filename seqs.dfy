/** Python's slicing idioms on sequences: `s[::-1]`, `s[:n]` (SQL LIMIT) and `s[-n:]`. */
module Seqs {

  /** `s[::-1]` */
  function Reverse<T>(s: seq<T>): (r: seq<T>)
    ensures |r| == |s|
    ensures forall i :: 0 <= i < |s| ==> r[i] == s[|s| - 1 - i]
    ensures multiset(r) == multiset(s)
  {
    if s == [] then []
    else
      assert s == [s[0]] + s[1..];
      Reverse(s[1..]) + [s[0]]
  }

  /** The first `n` elements, or all of them when there are fewer (SQL `LIMIT n`, Python `s[:n]`). */
  function Take<T>(s: seq<T>, n: nat): (r: seq<T>)
    ensures |r| == if |s| <= n then |s| else n
    ensures r == s[..|r|]
  {
    if |s| <= n then s else s[..n]
  }

  /** The last `n` elements, or all of them when there are fewer (Python `s[-n:]` for n > 0). */
  function TakeLast<T>(s: seq<T>, n: nat): (r: seq<T>)
    ensures |r| == if |s| <= n then |s| else n
    ensures r == s[|s| - |r|..]
  {
    if |s| <= n then s else s[|s| - n..]
  }

  lemma ReverseReverse<T>(s: seq<T>)
    ensures Reverse(Reverse(s)) == s
  {
    var r := Reverse(Reverse(s));
    assert forall i :: 0 <= i < |s| ==> r[i] == s[i];
  }

  /** Taking the first `n` of a reversed sequence is reversing its last `n`. */
  lemma TakeOfReverse<T>(s: seq<T>, n: nat)
    ensures Take(Reverse(s), n) == Reverse(TakeLast(s, n))
  {
    var a, b := Take(Reverse(s), n), Reverse(TakeLast(s, n));
    assert |a| == |b|;
    assert forall i :: 0 <= i < |a| ==> a[i] == b[i];
  }

  /** DESC, LIMIT, then reversed is the same as ascending, then the last `n`. */
  lemma ReverseTakeOfReverse<T>(s: seq<T>, n: nat)
    ensures Reverse(Take(Reverse(s), n)) == TakeLast(s, n)
  {
    TakeOfReverse(s, n);
    ReverseReverse(TakeLast(s, n));
  }
}
