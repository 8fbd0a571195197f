/** The retention request (`/repair/delete_old`): the range it names, what the relational
    DELETE removes and counts, and what the TinyDB loop removes. */
module Retention {
  import opened Wrappers
  import opened Records
  import TinyTable

  const Minute: nat := 60
  const Day: nat := 86400

  /** The cutoff time a range names: None deletes everything ("all"). */
  function Cutoff(range: string, now: int): (r: Result<Option<int>>)
    ensures r.Err? <==> range !in {"all", "30days", "7days", "1day", "session"}
    ensures r.Err? ==> r.error == InvalidRange
    ensures r == Ok(None) <==> range == "all"
    ensures r.Ok? && r.value.Some? ==> r.value.value == now - RangeSeconds(range)
  {
    if range == "all" then Ok(None)
    else if range == "30days" then Ok(Some(now - 30 * Day))
    else if range == "7days" then Ok(Some(now - 7 * Day))
    else if range == "1day" then Ok(Some(now - Day))
    else if range == "session" then Ok(Some(now - 30 * Minute))
    else Err(InvalidRange)
  }

  /** How far back a bounded range reaches, in seconds. */
  function RangeSeconds(range: string): nat {
    if range == "30days" then 30 * Day
    else if range == "7days" then 7 * Day
    else if range == "1day" then Day
    else 30 * Minute
  }

  /** The longer the range, the earlier the cutoff; every cutoff lies before `now`. */
  lemma CutoffsOrdered(now: int)
    ensures Cutoff("30days", now).value.value < Cutoff("7days", now).value.value
    ensures Cutoff("7days", now).value.value < Cutoff("1day", now).value.value
    ensures Cutoff("1day", now).value.value < Cutoff("session", now).value.value < now
  {
  }

  /** A message timestamp that parses and is older than the cutoff (a NULL timestamp is
      never `< cutoff` in SQL either). */
  predicate OlderThan(m: Message, cutoff: int) {
    m.stamp.At? && m.stamp.time < cutoff
  }

  /** The rows `DELETE FROM messages WHERE user_id = user [AND timestamp < cutoff]` removes. */
  predicate Doomed(m: Message, user: int, cutoff: Option<int>) {
    m.userId == user && (cutoff.None? || OlderThan(m, cutoff.value))
  }

  /** The rows that survive the DELETE, in their order. */
  function Surviving(rows: seq<Message>, user: int, cutoff: Option<int>): (r: seq<Message>)
    ensures |r| <= |rows|
    ensures forall m :: m in r ==> m in rows && !Doomed(m, user, cutoff)
    ensures forall m :: m in rows && !Doomed(m, user, cutoff) ==> m in r
  {
    if rows == [] then []
    else (if Doomed(rows[0], user, cutoff) then [] else [rows[0]]) + Surviving(rows[1..], user, cutoff)
  }

  /** `cur.rowcount` of the DELETE: exactly the rows that disappear, all of them the user's. */
  function DeletedCount(rows: seq<Message>, user: int, cutoff: Option<int>): (r: nat)
    ensures r + |Surviving(rows, user, cutoff)| == |rows|
    ensures r <= |TinyTable.Select(rows, Sender, user)|
  {
    if rows == [] then 0
    else (if Doomed(rows[0], user, cutoff) then 1 else 0) + DeletedCount(rows[1..], user, cutoff)
  }

  /** "all" counts every row of the user. */
  lemma {:induction false} DeleteAllCountsUser(rows: seq<Message>, user: int)
    ensures DeletedCount(rows, user, None) == |TinyTable.Select(rows, Sender, user)|
    ensures Surviving(rows, user, None) == TinyTable.Remove(rows, Sender, user)
  {
    if rows != [] { DeleteAllCountsUser(rows[1..], user); }
  }

  /** Other users' rows are never deleted. */
  lemma {:induction false} SurvivingSparesOthers(rows: seq<Message>, user: int, cutoff: Option<int>, other: int)
    requires other != user
    ensures TinyTable.Select(Surviving(rows, user, cutoff), Sender, other) == TinyTable.Select(rows, Sender, other)
  {
    if rows != [] {
      SurvivingSparesOthers(rows[1..], user, cutoff, other);
      var head := if Doomed(rows[0], user, cutoff) then [] else [rows[0]];
      TinyTable.SelectAppend(head, Surviving(rows[1..], user, cutoff), Sender, other);
    }
  }

  /** The condition the TinyDB loop tests for each document: `cutoff_time is None`, or
      the document's timestamp parses and `msg_time < cutoff_time`. */
  predicate Triggers(m: Message, cutoff: Option<int>) {
    cutoff.None? || OlderThan(m, cutoff.value)
  }

  /** The TinyDB effect as written: whenever the loop meets any document (of any user)
      that triggers, it removes every document of `user`; removing again changes nothing. */
  function TinyAsWritten(docs: seq<Message>, user: int, cutoff: Option<int>): (r: seq<Message>)
    ensures r == docs || r == TinyTable.Remove(docs, Sender, user)
    ensures forall m :: m in r ==> m in docs
  {
    if TriggersBefore(docs, |docs|, cutoff) then TinyTable.Remove(docs, Sender, user) else docs
  }

  /** Some document among the first `n` triggers. */
  predicate TriggersBefore(docs: seq<Message>, n: nat, cutoff: Option<int>)
    requires n <= |docs|
  {
    exists i :: 0 <= i < n && Triggers(docs[i], cutoff)
  }

  /** One more document triggers exactly when it does or an earlier one did. */
  lemma TriggersBeforeNext(docs: seq<Message>, n: nat, cutoff: Option<int>)
    requires n < |docs|
    ensures TriggersBefore(docs, n + 1, cutoff) <==> TriggersBefore(docs, n, cutoff) || Triggers(docs[n], cutoff)
  {
    if TriggersBefore(docs, n + 1, cutoff) && !Triggers(docs[n], cutoff) {
      var i :| 0 <= i < n + 1 && Triggers(docs[i], cutoff);
      assert i < n;
    }
  }

  /** As written, other users' documents are never removed, and `user`'s are removed
      either all together or not at all: all of them exactly when some document in the
      table (anyone's) triggers. With "all" that is whenever the table is not empty. */
  lemma TinyAsWrittenEffect(docs: seq<Message>, user: int, cutoff: Option<int>)
    ensures forall other :: other != user ==>
      TinyTable.Select(TinyAsWritten(docs, user, cutoff), Sender, other) == TinyTable.Select(docs, Sender, other)
    ensures (exists i :: 0 <= i < |docs| && Triggers(docs[i], cutoff)) ==>
      TinyTable.Select(TinyAsWritten(docs, user, cutoff), Sender, user) == []
    ensures (forall i :: 0 <= i < |docs| ==> !Triggers(docs[i], cutoff)) ==>
      TinyAsWritten(docs, user, cutoff) == docs
    ensures cutoff.None? && docs != [] ==> TinyAsWritten(docs, user, cutoff) == TinyTable.Remove(docs, Sender, user)
  {
    forall other ensures TinyTable.Select(TinyTable.Remove(docs, Sender, user), Sender, other) ==
                         if other == user then [] else TinyTable.Select(docs, Sender, other) {
      TinyTable.RemoveSelect(docs, Sender, user, other);
    }
    if cutoff.None? && docs != [] {
      assert Triggers(docs[0], cutoff);
    }
  }

  /** The evidently intended TinyDB effect: remove exactly the documents the relational
      DELETE removes. */
  function TinyIntended(docs: seq<Message>, user: int, cutoff: Option<int>): seq<Message> {
    Surviving(docs, user, cutoff)
  }

  /** The intended effect keeps other users' documents and `user`'s documents that are not
      older than the cutoff, removes the rest, and agrees with the as-written effect for "all". */
  lemma TinyIntendedEffect(docs: seq<Message>, user: int, cutoff: Option<int>)
    ensures forall other :: other != user ==>
      TinyTable.Select(TinyIntended(docs, user, cutoff), Sender, other) == TinyTable.Select(docs, Sender, other)
    ensures forall m :: m in TinyIntended(docs, user, cutoff) <==> m in docs && !Doomed(m, user, cutoff)
    ensures cutoff.None? ==> TinyIntended(docs, user, cutoff) == TinyAsWritten(docs, user, cutoff)
  {
    forall other | other != user ensures
      TinyTable.Select(Surviving(docs, user, cutoff), Sender, other) == TinyTable.Select(docs, Sender, other) {
      SurvivingSparesOthers(docs, user, cutoff, other);
    }
    if cutoff.None? {
      DeleteAllCountsUser(docs, user);
      if docs != [] { assert Triggers(docs[0], cutoff); }
    }
  }

  /** The retention fixture of messages one, ten and forty days old, with "7days": the
      relational DELETE keeps only the one-day-old message and reports two, but the TinyDB
      loop as written also removes the one-day-old message. */
  lemma AsWrittenRemovesRecentMessages()
    ensures
      var now := 100 * Day;
      var recent := Message(0, "hi", "hello", At(now - Day));
      var docs := [recent, Message(0, "a", "b", At(now - 10 * Day)), Message(0, "c", "d", At(now - 40 * Day))];
      var cutoff := Cutoff("7days", now).value;
      && Surviving(docs, 0, cutoff) == [recent]
      && DeletedCount(docs, 0, cutoff) == 2
      && TinyIntended(docs, 0, cutoff) == [recent]
      && TinyAsWritten(docs, 0, cutoff) == []
  {
    var now := 100 * Day;
    var recent := Message(0, "hi", "hello", At(now - Day));
    var docs := [recent, Message(0, "a", "b", At(now - 10 * Day)), Message(0, "c", "d", At(now - 40 * Day))];
    var cutoff := Some(now - 7 * Day);
    assert Cutoff("7days", now).value == cutoff;
    assert Triggers(docs[1], cutoff);
    var tail := docs[1..][1..];
    assert tail[1..] == [];
    assert Surviving(tail, 0, cutoff) == [];
    assert Surviving(docs[1..], 0, cutoff) == [];
    assert Surviving(docs, 0, cutoff) == [recent];
    assert DeletedCount(tail, 0, cutoff) == 1;
    assert DeletedCount(docs[1..], 0, cutoff) == 2;
    assert TinyTable.Remove(tail, Sender, 0) == [];
    assert TinyTable.Remove(docs[1..], Sender, 0) == [];
    assert TinyTable.Remove(docs, Sender, 0) == [];
  }
}
