/** Sorting by an integer key, as Python's `sorted(..., key=...)` does,
    and the fact that sorted permutations are unique when the key tells elements apart. */
module Sorting {
  import Seqs

  predicate SortedAsc<T>(s: seq<T>, key: T -> int) {
    forall i, j :: 0 <= i < j < |s| ==> key(s[i]) <= key(s[j])
  }

  predicate SortedDesc<T>(s: seq<T>, key: T -> int) {
    forall i, j :: 0 <= i < j < |s| ==> key(s[i]) >= key(s[j])
  }

  /** Elements that share a key are equal. */
  ghost predicate KeyInjective<T>(s: seq<T>, key: T -> int) {
    forall x, y :: x in s && y in s && key(x) == key(y) ==> x == y
  }

  /** Prepending an element no larger than any other keeps a sequence ascending. */
  lemma SortedCons<T>(h: T, t: seq<T>, key: T -> int)
    requires SortedAsc(t, key)
    requires forall y :: y in t ==> key(h) <= key(y)
    ensures SortedAsc([h] + t, key)
  {
    var r := [h] + t;
    forall i, j | 0 <= i < j < |r| ensures key(r[i]) <= key(r[j]) {
      if i == 0 {
        assert r[j] == t[j - 1] && t[j - 1] in t;
      } else {
        assert r[i] == t[i - 1] && r[j] == t[j - 1];
      }
    }
  }

  /** Inserts `x` before the first element whose key is not smaller: `x` stays ahead of its equals. */
  function Insert<T>(x: T, s: seq<T>, key: T -> int): (r: seq<T>)
    requires SortedAsc(s, key)
    ensures SortedAsc(r, key)
    ensures forall y :: y in r ==> y == x || y in s
    ensures multiset(r) == multiset(s) + multiset{x}
  {
    if s == [] then [x]
    else if key(x) <= key(s[0]) then
      SortedCons(x, s, key);
      [x] + s
    else
      var rest := Insert(x, s[1..], key);
      assert forall y :: y in s[1..] ==> key(s[0]) <= key(y) by {
        forall y | y in s[1..] ensures key(s[0]) <= key(y) {
          var k :| 0 <= k < |s[1..]| && s[1..][k] == y;
          assert s[k + 1] == y;
        }
      }
      SortedCons(s[0], rest, key);
      assert s == [s[0]] + s[1..];
      [s[0]] + rest
  }

  /** Ascending sort (an insertion sort). */
  function SortAsc<T>(s: seq<T>, key: T -> int): (r: seq<T>)
    ensures SortedAsc(r, key)
    ensures multiset(r) == multiset(s)
  {
    if s == [] then []
    else
      assert s == [s[0]] + s[1..];
      Insert(s[0], SortAsc(s[1..], key), key)
  }

  /** Descending sort: ascending by the negated key. */
  function SortDesc<T>(s: seq<T>, key: T -> int): (r: seq<T>)
    ensures SortedDesc(r, key)
    ensures multiset(r) == multiset(s)
  {
    var r := SortAsc(s, x => -key(x));
    assert forall i, j :: 0 <= i < j < |r| ==> -key(r[i]) <= -key(r[j]);
    r
  }

  lemma KeyInjectiveTransfer<T>(a: seq<T>, b: seq<T>, key: T -> int)
    requires multiset(a) == multiset(b)
    requires KeyInjective(a, key)
    ensures KeyInjective(b, key)
  {
    forall x, y | x in b && y in b && key(x) == key(y) ensures x == y {
      assert x in multiset(b) && y in multiset(b);
      assert x in a && y in a;
    }
  }

  lemma HeadIsLeast<T>(a: seq<T>, key: T -> int, y: T)
    requires SortedAsc(a, key) && a != [] && y in a
    ensures key(a[0]) <= key(y)
  {
    var i :| 0 <= i < |a| && a[i] == y;
    if i > 0 { assert key(a[0]) <= key(a[i]); }
  }

  lemma MultisetTail<T>(a: seq<T>)
    requires a != []
    ensures multiset(a[1..]) == multiset(a) - multiset{a[0]}
  {
    assert a == [a[0]] + a[1..];
  }

  lemma SortedTail<T>(a: seq<T>, key: T -> int)
    requires SortedAsc(a, key) && a != []
    ensures SortedAsc(a[1..], key)
  {
    forall i, j | 0 <= i < j < |a| - 1 ensures key(a[1..][i]) <= key(a[1..][j]) {
      assert a[1..][i] == a[i + 1] && a[1..][j] == a[j + 1];
    }
  }

  lemma KeyInjectiveTail<T>(a: seq<T>, key: T -> int)
    requires KeyInjective(a, key) && a != []
    ensures KeyInjective(a[1..], key)
  {
    forall x, y | x in a[1..] && y in a[1..] && key(x) == key(y) ensures x == y {
      assert x in a && y in a;
    }
  }

  /** The least elements of two ascending arrangements of the same elements are the same element. */
  lemma HeadsAgree<T>(a: seq<T>, b: seq<T>, key: T -> int)
    requires SortedAsc(a, key) && SortedAsc(b, key) && a != []
    requires multiset(a) == multiset(b)
    requires KeyInjective(a, key)
    ensures b != [] && a[0] == b[0]
  {
    assert a[0] in multiset(b) by { assert a[0] in multiset(a); }
    assert b[0] in multiset(a) by { assert b[0] in multiset(b); }
    HeadIsLeast(a, key, b[0]);
    HeadIsLeast(b, key, a[0]);
  }

  lemma ConsEqual<T>(a: seq<T>, b: seq<T>)
    requires a != [] && b != [] && a[0] == b[0] && a[1..] == b[1..]
    ensures a == b
  {
    assert a == [a[0]] + a[1..];
    assert b == [b[0]] + b[1..];
  }

  /** Two ascending arrangements of the same elements coincide when equal keys mean equal elements. */
  lemma {:induction false} SortedPermutationUnique<T>(a: seq<T>, b: seq<T>, key: T -> int)
    requires SortedAsc(a, key) && SortedAsc(b, key)
    requires multiset(a) == multiset(b)
    requires KeyInjective(a, key)
    ensures a == b
  {
    if a == [] {
      assert |multiset(b)| == 0;
    } else {
      HeadsAgree(a, b, key);
      MultisetTail(a);
      MultisetTail(b);
      SortedTail(a, key);
      SortedTail(b, key);
      KeyInjectiveTail(a, key);
      SortedPermutationUnique(a[1..], b[1..], key);
      ConsEqual(a, b);
    }
  }

  lemma ReverseOfDesc<T>(s: seq<T>, key: T -> int)
    requires SortedDesc(s, key)
    ensures SortedAsc(Seqs.Reverse(s), key)
  {
  }
}
