/** A TinyDB table as the sequence of its documents in insertion order, and the table
    operations the server uses, each selecting documents by one key field. */
module TinyTable {
  import opened Wrappers

  /** `table.search(key == k)`: the matching documents, in table order. */
  function Select<D, K(==)>(t: seq<D>, keyOf: D -> K, k: K): (r: seq<D>)
    ensures |r| <= |t|
    ensures forall d :: d in r ==> d in t && keyOf(d) == k
    ensures forall d :: d in t && keyOf(d) == k ==> d in r
  {
    if t == [] then []
    else (if keyOf(t[0]) == k then [t[0]] else []) + Select(t[1..], keyOf, k)
  }

  /** `table.remove(key == k)`: the documents that do not match, in table order. */
  function Remove<D, K(==)>(t: seq<D>, keyOf: D -> K, k: K): (r: seq<D>)
    ensures |r| <= |t|
    ensures forall d :: d in r ==> d in t && keyOf(d) != k
    ensures forall d :: d in t && keyOf(d) != k ==> d in r
  {
    if t == [] then []
    else (if keyOf(t[0]) == k then [] else [t[0]]) + Remove(t[1..], keyOf, k)
  }

  /** `table.get(key == k)`: the first matching document, if any. */
  function First<D, K(==)>(t: seq<D>, keyOf: D -> K, k: K): (r: Option<D>)
    ensures r.Some? <==> Select(t, keyOf, k) != []
    ensures r.Some? ==> r.value == Select(t, keyOf, k)[0] && r.value in t && keyOf(r.value) == k
  {
    if t == [] then None
    else if keyOf(t[0]) == k then Some(t[0])
    else First(t[1..], keyOf, k)
  }

  /** Every matching document replaced by `doc`. */
  function Replace<D, K(==)>(t: seq<D>, keyOf: D -> K, k: K, doc: D): (r: seq<D>)
    requires keyOf(doc) == k
    ensures |r| == |t|
    ensures forall i :: 0 <= i < |t| ==> r[i] == if keyOf(t[i]) == k then doc else t[i]
  {
    if t == [] then []
    else [if keyOf(t[0]) == k then doc else t[0]] + Replace(t[1..], keyOf, k, doc)
  }

  /** `table.upsert(doc, key == k)`: update the matching documents, or insert when none
      matches; either way the key then reads back as `doc`. */
  function Upsert<D, K(==)>(t: seq<D>, keyOf: D -> K, k: K, doc: D): (r: seq<D>)
    requires keyOf(doc) == k
    ensures |r| == if Select(t, keyOf, k) != [] then |t| else |t| + 1
    ensures First(r, keyOf, k) == Some(doc)
  {
    if Select(t, keyOf, k) != [] then
      SelectReplace(t, keyOf, k, doc, k);
      Replace(t, keyOf, k, doc)
    else
      SelectAppend(t, [doc], keyOf, k);
      t + [doc]
  }

  /** How many documents match. */
  function Count<D, K(==)>(t: seq<D>, keyOf: D -> K, k: K): nat {
    |Select(t, keyOf, k)|
  }

  lemma {:induction false} SelectAppend<D, K>(t: seq<D>, u: seq<D>, keyOf: D -> K, k: K)
    ensures Select(t + u, keyOf, k) == Select(t, keyOf, k) + Select(u, keyOf, k)
  {
    if t != [] {
      assert (t + u)[1..] == t[1..] + u && (t + u)[0] == t[0];
      SelectAppend(t[1..], u, keyOf, k);
    } else {
      assert t + u == u;
    }
  }

  lemma {:induction false} SelectReplace<D, K>(t: seq<D>, keyOf: D -> K, k: K, doc: D, k': K)
    requires keyOf(doc) == k
    ensures Select(Replace(t, keyOf, k, doc), keyOf, k') ==
            if k' == k then seq(Count(t, keyOf, k), _ => doc) else Select(t, keyOf, k')
  {
    if t != [] {
      SelectReplace(t[1..], keyOf, k, doc, k');
      assert Replace(t, keyOf, k, doc)[1..] == Replace(t[1..], keyOf, k, doc);
    }
  }

  /** After an upsert the key's documents are all `doc`: one of them when there was none
      before, as many as before otherwise; every other key's documents are untouched. */
  lemma UpsertSelect<D, K>(t: seq<D>, keyOf: D -> K, k: K, doc: D, k': K)
    requires keyOf(doc) == k
    ensures Select(Upsert(t, keyOf, k, doc), keyOf, k') ==
            if k' == k then seq(if Count(t, keyOf, k) == 0 then 1 else Count(t, keyOf, k), _ => doc)
            else Select(t, keyOf, k')
  {
    if Select(t, keyOf, k) != [] {
      SelectReplace(t, keyOf, k, doc, k');
    } else {
      SelectAppend(t, [doc], keyOf, k');
      assert Select([doc], keyOf, k') == if k' == k then [doc] else [];
    }
  }

  /** Reading another key after an upsert gives what it gave before. */
  lemma UpsertThenFirstOther<D, K>(t: seq<D>, keyOf: D -> K, k: K, doc: D, k': K)
    requires keyOf(doc) == k && k' != k
    ensures First(Upsert(t, keyOf, k, doc), keyOf, k') == First(t, keyOf, k')
  {
    UpsertSelect(t, keyOf, k, doc, k');
  }

  /** Two upserts of the same key leave what the second alone would leave. */
  lemma UpsertTwice<D, K>(t: seq<D>, keyOf: D -> K, k: K, d1: D, d2: D)
    requires keyOf(d1) == k && keyOf(d2) == k
    ensures Upsert(Upsert(t, keyOf, k, d1), keyOf, k, d2) == Upsert(t, keyOf, k, d2)
  {
    var u := Upsert(t, keyOf, k, d1);
    UpsertSelect(t, keyOf, k, d1, k);
    if Select(t, keyOf, k) != [] {
      var a, b := Replace(u, keyOf, k, d2), Replace(t, keyOf, k, d2);
      assert forall i :: 0 <= i < |t| ==> keyOf(u[i]) == keyOf(t[i]);
      assert forall i :: 0 <= i < |t| ==> a[i] == b[i];
    } else {
      var a, b := Replace(u, keyOf, k, d2), t + [d2];
      assert u == t + [d1];
      forall i | 0 <= i < |t| ensures keyOf(t[i]) != k {
        assert t[i] in t;
      }
      assert forall i :: 0 <= i < |u| ==> a[i] == b[i];
    }
  }

  /** After removing a key nothing matches it and every other key's documents are untouched. */
  lemma {:induction false} RemoveSelect<D, K>(t: seq<D>, keyOf: D -> K, k: K, k': K)
    ensures Select(Remove(t, keyOf, k), keyOf, k') == if k' == k then [] else Select(t, keyOf, k')
  {
    if t != [] {
      RemoveSelect(t[1..], keyOf, k, k');
      var head := if keyOf(t[0]) == k then [] else [t[0]];
      SelectAppend(head, Remove(t[1..], keyOf, k), keyOf, k');
    }
  }

  /** Removing twice removes no more than removing once. */
  lemma {:induction false} RemoveTwice<D, K>(t: seq<D>, keyOf: D -> K, k: K)
    ensures Remove(Remove(t, keyOf, k), keyOf, k) == Remove(t, keyOf, k)
  {
    if t != [] {
      RemoveTwice(t[1..], keyOf, k);
      var head := if keyOf(t[0]) == k then [] else [t[0]];
      RemoveAppend(head, Remove(t[1..], keyOf, k), keyOf, k);
    }
  }

  lemma {:induction false} RemoveAppend<D, K>(t: seq<D>, u: seq<D>, keyOf: D -> K, k: K)
    ensures Remove(t + u, keyOf, k) == Remove(t, keyOf, k) + Remove(u, keyOf, k)
  {
    if t != [] {
      assert (t + u)[1..] == t[1..] + u && (t + u)[0] == t[0];
      RemoveAppend(t[1..], u, keyOf, k);
    } else {
      assert t + u == u;
    }
  }
}
