/** Which messages `get_messages` returns, and which submissions the admin games view
    returns, from each store. */
module History {
  import opened Seqs
  import opened Sorting
  import opened Records
  import TinyTable

  /** How many messages a read returns out of `n`. */
  function Window(n: nat, limit: nat): nat {
    if limit > 0 && limit < n then limit else n
  }

  /** `r` is the latest `limit` messages of `pool` (all of them when the limit is 0), in
      ascending timestamp order: nothing left out is newer than anything taken. */
  ghost predicate LatestAscending(r: seq<Message>, pool: seq<Message>, limit: nat) {
    && SortedAsc(r, StampKey)
    && multiset(r) <= multiset(pool)
    && |r| == Window(|pool|, limit)
    && forall x, y :: x in pool && x !in r && y in r ==> StampKey(x) <= StampKey(y)
  }

  lemma SuffixIsLatest(sorted: seq<Message>, start: nat)
    requires SortedAsc(sorted, StampKey) && start <= |sorted|
    ensures SortedAsc(sorted[start..], StampKey)
    ensures multiset(sorted[start..]) <= multiset(sorted)
    ensures forall x, y :: x in sorted && x !in sorted[start..] && y in sorted[start..] ==> StampKey(x) <= StampKey(y)
  {
    var r := sorted[start..];
    assert sorted == sorted[..start] + r;
    forall i, j | 0 <= i < j < |r| ensures StampKey(r[i]) <= StampKey(r[j]) {
      assert r[i] == sorted[start + i] && r[j] == sorted[start + j];
    }
    forall x, y | x in sorted && x !in r && y in r ensures StampKey(x) <= StampKey(y) {
      var i :| 0 <= i < |sorted| && sorted[i] == x;
      var j :| 0 <= j < |r| && r[j] == y;
      assert i < start;
      assert sorted[start + j] == y;
    }
  }

  lemma TakeLastOfSortedIsLatest(sorted: seq<Message>, pool: seq<Message>, limit: nat)
    requires SortedAsc(sorted, StampKey) && multiset(sorted) == multiset(pool)
    ensures LatestAscending(if limit > 0 then TakeLast(sorted, limit) else sorted, pool, limit)
  {
    var r := if limit > 0 then TakeLast(sorted, limit) else sorted;
    var start := |sorted| - |r|;
    assert r == sorted[start..];
    assert |sorted| == |pool| by { assert |multiset(sorted)| == |multiset(pool)|; }
    assert |r| == Window(|pool|, limit);
    SuffixIsLatest(sorted, start);
    assert SortedAsc(r, StampKey) && multiset(r) <= multiset(pool);
    forall x, y | x in pool && x !in r && y in r ensures StampKey(x) <= StampKey(y) {
      assert x in multiset(pool);
      assert x in sorted;
    }
  }

  /** The relational path: `ORDER BY timestamp DESC [LIMIT limit]`, then reversed. A
      `limit` of 0 stands for the falsy limit (None): no LIMIT. It returns the user's
      latest `limit` rows in ascending order. */
  function RelationalHistory(rows: seq<Message>, user: int, limit: nat): (r: seq<Message>)
    ensures LatestAscending(r, TinyTable.Select(rows, Sender, user), limit)
  {
    var pool := TinyTable.Select(rows, Sender, user);
    var desc := SortDesc(pool, StampKey);
    ReverseOfDesc(desc, StampKey);
    var r := Reverse(if limit > 0 then Take(desc, limit) else desc);
    assert r == if limit > 0 then TakeLast(Reverse(desc), limit) else Reverse(desc) by {
      if limit > 0 {
        ReverseTakeOfReverse(Reverse(desc), limit);
        ReverseReverse(desc);
      }
    }
    TakeLastOfSortedIsLatest(Reverse(desc), pool, limit);
    r
  }

  /** The TinyDB path: the user's documents sorted by timestamp, then `[-limit:]` when the
      limit is truthy; `[]` when the user has none. It returns the user's latest `limit`
      documents in ascending order. */
  function TinyHistory(docs: seq<Message>, user: int, limit: nat): (r: seq<Message>)
    ensures LatestAscending(r, TinyTable.Select(docs, Sender, user), limit)
  {
    var msgs := TinyTable.Select(docs, Sender, user);
    if msgs != [] then
      var sorted := SortAsc(msgs, StampKey);
      TakeLastOfSortedIsLatest(sorted, msgs, limit);
      if limit > 0 then TakeLast(sorted, limit) else sorted
    else []
  }

  /** On the same messages the two paths return the same list, provided messages that
      share a timestamp are the same message (SQL leaves the order of ties open). */
  lemma HistoryPathsAgree(rows: seq<Message>, docs: seq<Message>, user: int, limit: nat)
    requires multiset(TinyTable.Select(rows, Sender, user)) == multiset(TinyTable.Select(docs, Sender, user))
    requires KeyInjective(TinyTable.Select(docs, Sender, user), StampKey)
    ensures RelationalHistory(rows, user, limit) == TinyHistory(docs, user, limit)
  {
    var pool, pool' := TinyTable.Select(rows, Sender, user), TinyTable.Select(docs, Sender, user);
    var desc, asc := SortDesc(pool, StampKey), SortAsc(pool', StampKey);
    ReverseOfDesc(desc, StampKey);
    KeyInjectiveTransfer(pool', asc, StampKey);
    SortedPermutationUnique(asc, Reverse(desc), StampKey);
    ReverseReverse(desc);
    if limit > 0 {
      ReverseTakeOfReverse(asc, limit);
    }
    if pool' == [] {
      assert |multiset(pool)| == 0;
    }
  }

  const SubmissionLimit: nat := 100

  /** `SELECT * FROM game_submissions ORDER BY timestamp DESC LIMIT 100`: the 100 newest
      rows (all of them when there are fewer), newest first. */
  function RelationalSubmissions(rows: seq<Submission>): (r: seq<Submission>)
    ensures |r| == if |rows| <= SubmissionLimit then |rows| else SubmissionLimit
    ensures SortedDesc(r, SubmittedAt)
    ensures multiset(r) <= multiset(rows)
    ensures forall x, y :: x in rows && x !in r && y in r ==> SubmittedAt(x) <= SubmittedAt(y)
  {
    var desc := SortDesc(rows, SubmittedAt);
    assert |desc| == |rows| by { assert |multiset(desc)| == |multiset(rows)|; }
    PrefixIsNewest(desc, rows, if |desc| <= SubmissionLimit then |desc| else SubmissionLimit);
    Take(desc, SubmissionLimit)
  }

  /** A prefix of a descending arrangement of `rows` is newest first, drawn from `rows`,
      and nothing left out is newer than what it holds. */
  lemma PrefixIsNewest(desc: seq<Submission>, rows: seq<Submission>, n: nat)
    requires SortedDesc(desc, SubmittedAt) && multiset(desc) == multiset(rows) && n <= |desc|
    ensures SortedDesc(desc[..n], SubmittedAt)
    ensures multiset(desc[..n]) <= multiset(rows)
    ensures forall x, y :: x in rows && x !in desc[..n] && y in desc[..n] ==> SubmittedAt(x) <= SubmittedAt(y)
  {
    var r := desc[..n];
    assert desc == r + desc[n..];
    forall x, y | x in rows && x !in r && y in r ensures SubmittedAt(x) <= SubmittedAt(y) {
      assert x in multiset(rows);
      assert x in desc;
      var i :| 0 <= i < |desc| && desc[i] == x;
      var j :| 0 <= j < |r| && r[j] == y;
      assert i >= n;
      assert desc[j] == y;
    }
  }

  /** `table.all()[-100:][::-1]`: the last 100 documents inserted, newest insertion first. */
  function TinySubmissions(docs: seq<Submission>): (r: seq<Submission>)
    ensures |r| == if |docs| <= SubmissionLimit then |docs| else SubmissionLimit
    ensures forall i :: 0 <= i < |r| ==> r[i] == docs[|docs| - 1 - i]
  {
    Reverse(TakeLast(docs, SubmissionLimit))
  }

  /** When documents were inserted in time order and both stores hold the same
      submissions with distinct times, the two paths list the same 100, newest first. */
  lemma SubmissionPathsAgree(rows: seq<Submission>, docs: seq<Submission>)
    requires SortedAsc(docs, SubmittedAt)
    requires multiset(rows) == multiset(docs)
    requires KeyInjective(docs, SubmittedAt)
    ensures RelationalSubmissions(rows) == TinySubmissions(docs)
  {
    var desc := SortDesc(rows, SubmittedAt);
    ReverseOfDesc(desc, SubmittedAt);
    KeyInjectiveTransfer(docs, rows, SubmittedAt);
    KeyInjectiveTransfer(rows, desc, SubmittedAt);
    KeyInjectiveTransfer(desc, Reverse(desc), SubmittedAt);
    SortedPermutationUnique(Reverse(desc), docs, SubmittedAt);
    ReverseReverse(desc);
    TakeOfReverse(docs, SubmissionLimit);
  }
}
