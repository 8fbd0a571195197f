/** The dual-store helpers of the server: each one as its effect on the PostgreSQL tables
    and the TinyDB tables, for one outcome of its relational call. A helper opens its own
    connection, so each takes its own `Conn`. */
module Persistence {
  import opened Wrappers
  import opened MemoryDocument
  import opened Records
  import opened Sorting
  import opened History
  import opened Retention
  import TinyTable

  /** Both stores at one moment. */
  datatype Stores = Stores(sql: Relational, tiny: Tiny)

  /** What a helper returns (or raises), and the stores after it. */
  datatype Effect<T> = Effect(result: Result<T>, after: Stores)

  /** The `users` table is keyed by its `id` column. */
  predicate WellFormed(s: Stores) {
    forall k :: k in s.sql.users ==> s.sql.users[k].id == k
  }

  // ---------------------------------------------------------------- users

  /** `get_user_data`: the relational row when there is one; otherwise the TinyDB document;
      otherwise the default record. A relational error escapes (no `except`). */
  function GetUserData(s: Stores, uid: int, conn: Conn): (r: Result<User>)
    ensures r.Err? <==> conn.Fails?
    ensures r.Err? ==> r.error == Raised
    ensures conn.Up? && uid in s.sql.users ==> r == Ok(s.sql.users[uid])
    ensures r.Ok? && !(conn.Up? && uid in s.sql.users) ==>
      r.value == TinyTable.First(s.tiny.users, UserId, uid).GetOr(DefaultUser(uid))
    ensures r.Ok? && WellFormed(s) ==> r.value.id == uid
  {
    if conn.Fails? then Err(Raised)
    else if conn.Up? && uid in s.sql.users then Ok(s.sql.users[uid])
    else Ok(TinyTable.First(s.tiny.users, UserId, uid).GetOr(DefaultUser(uid)))
  }

  /** With no record in either store, the default record comes back. */
  lemma GetUserDataDefault(s: Stores, uid: int, conn: Conn)
    requires !conn.Fails? && uid !in s.sql.users
    requires forall u :: u in s.tiny.users ==> u.id != uid
    ensures GetUserData(s, uid, conn) == Ok(User(uid, "", DefaultMood))
  {
    if TinyTable.Select(s.tiny.users, UserId, uid) != [] {
      assert TinyTable.Select(s.tiny.users, UserId, uid)[0] in s.tiny.users;
    }
  }

  /** `update_user_data`: the relational upsert, then the TinyDB upsert. When the
      relational call raises, the exception escapes before TinyDB is written. */
  function UpdateUserData(s: Stores, uid: int, memory: string, mood: string, conn: Conn): (e: Effect<()>)
    ensures e.result.Err? <==> conn.Fails?
    ensures conn.Fails? ==> e == Effect(Err(Raised), s)
    ensures !conn.Fails? ==> TinyTable.First(e.after.tiny.users, UserId, uid) == Some(User(uid, memory, mood))
    ensures forall other :: other != uid ==>
      TinyTable.First(e.after.tiny.users, UserId, other) == TinyTable.First(s.tiny.users, UserId, other)
    ensures e.after.sql.users == if conn.Up? then s.sql.users[uid := User(uid, memory, mood)] else s.sql.users
    ensures e.after.sql == s.sql.(users := e.after.sql.users)
    ensures e.after.tiny == s.tiny.(users := e.after.tiny.users)
    ensures WellFormed(s) ==> WellFormed(e.after)
  {
    if conn.Fails? then Effect(Err(Raised), s)
    else
      var user := User(uid, memory, mood);
      assert forall other :: other != uid ==>
        TinyTable.First(TinyTable.Upsert(s.tiny.users, UserId, uid, user), UserId, other) == TinyTable.First(s.tiny.users, UserId, other) by {
        forall other | other != uid
          ensures TinyTable.First(TinyTable.Upsert(s.tiny.users, UserId, uid, user), UserId, other) == TinyTable.First(s.tiny.users, UserId, other) {
          TinyTable.UpsertThenFirstOther(s.tiny.users, UserId, uid, user, other);
        }
      }
      var sql := if conn.Up? then s.sql.(users := s.sql.users[uid := user]) else s.sql;
      Effect(Ok(()), Stores(sql, s.tiny.(users := TinyTable.Upsert(s.tiny.users, UserId, uid, user))))
  }

  /** A write that reached PostgreSQL is what every later read sees; a write made while
      PostgreSQL was unreachable is seen by reads that fall back to TinyDB, but a connected
      read still returns the older relational row when one exists. */
  lemma UserWriteThenRead(s: Stores, uid: int, memory: string, mood: string, w: Conn, rd: Conn)
    requires !w.Fails? && !rd.Fails?
    ensures w.Up? || !rd.Up? || uid !in s.sql.users ==>
      GetUserData(UpdateUserData(s, uid, memory, mood, w).after, uid, rd) == Ok(User(uid, memory, mood))
    ensures w.Unreachable? && rd.Up? && uid in s.sql.users ==>
      GetUserData(UpdateUserData(s, uid, memory, mood, w).after, uid, rd) == Ok(s.sql.users[uid])
  {
  }

  // ---------------------------------------------------------------- messages

  /** The row `save_message` inserts; its id is not modelled and both stores stamp it
      with the same clock reading. */
  function Saved(uid: int, msg: string, response: string, now: nat): Message {
    Message(uid, msg, response, At(now))
  }

  /** `save_message`: the relational insert, whose failure is caught, then the TinyDB
      insert, which always happens. Nothing is raised. */
  function SaveMessage(s: Stores, uid: int, msg: string, response: string, now: nat, conn: Conn): (r: Stores)
    ensures TinyTable.Select(r.tiny.messages, Sender, uid) ==
      TinyTable.Select(s.tiny.messages, Sender, uid) + [Saved(uid, msg, response, now)]
    ensures TinyTable.Select(r.sql.messages, Sender, uid) ==
      TinyTable.Select(s.sql.messages, Sender, uid) + (if conn.Up? then [Saved(uid, msg, response, now)] else [])
    ensures forall other :: other != uid ==>
      TinyTable.Select(r.tiny.messages, Sender, other) == TinyTable.Select(s.tiny.messages, Sender, other) &&
      TinyTable.Select(r.sql.messages, Sender, other) == TinyTable.Select(s.sql.messages, Sender, other)
    ensures r.tiny.messages == s.tiny.messages + [Saved(uid, msg, response, now)]
    ensures r.sql.messages == s.sql.messages + (if conn.Up? then [Saved(uid, msg, response, now)] else [])
    ensures r.sql == s.sql.(messages := r.sql.messages) && r.tiny == s.tiny.(messages := r.tiny.messages)
  {
    var m := Saved(uid, msg, response, now);
    var added := if conn.Up? then [m] else [];
    var tinyMsgs, sqlMsgs := s.tiny.messages + [m], s.sql.messages + added;
    assert TinyTable.Select(tinyMsgs, Sender, uid) == TinyTable.Select(s.tiny.messages, Sender, uid) + [m] by {
      TinyTable.SelectAppend(s.tiny.messages, [m], Sender, uid);
    }
    assert TinyTable.Select(sqlMsgs, Sender, uid) == TinyTable.Select(s.sql.messages, Sender, uid) + added by {
      TinyTable.SelectAppend(s.sql.messages, added, Sender, uid);
    }
    OthersUnchangedByAppend(s.tiny.messages, [m], uid);
    OthersUnchangedByAppend(s.sql.messages, added, uid);
    Stores(s.sql.(messages := sqlMsgs), s.tiny.(messages := tinyMsgs))
  }

  /** Appending messages of `uid` leaves other users' selections as they were. */
  lemma OthersUnchangedByAppend(t: seq<Message>, added: seq<Message>, uid: int)
    requires forall m :: m in added ==> m.userId == uid
    ensures forall other :: other != uid ==> TinyTable.Select(t + added, Sender, other) == TinyTable.Select(t, Sender, other)
  {
    forall other | other != uid ensures TinyTable.Select(t + added, Sender, other) == TinyTable.Select(t, Sender, other) {
      TinyTable.SelectAppend(t, added, Sender, other);
      assert TinyTable.Select(added, Sender, other) == [];
    }
  }

  /** `get_messages`: the relational history when the query succeeds and finds any;
      otherwise (unreachable, failed, or empty) the TinyDB history. Nothing is raised.
      A `limit` of 0 stands for no limit. */
  function GetMessages(s: Stores, uid: int, limit: nat, conn: Conn): (r: seq<Message>)
    ensures conn.Up? && TinyTable.Select(s.sql.messages, Sender, uid) != [] ==>
      LatestAscending(r, TinyTable.Select(s.sql.messages, Sender, uid), limit)
    ensures !(conn.Up? && TinyTable.Select(s.sql.messages, Sender, uid) != []) ==>
      LatestAscending(r, TinyTable.Select(s.tiny.messages, Sender, uid), limit)
    ensures TinyTable.Select(s.sql.messages, Sender, uid) == [] && TinyTable.Select(s.tiny.messages, Sender, uid) == [] ==> r == []
  {
    var fromSql := if conn.Up? then RelationalHistory(s.sql.messages, uid, limit) else [];
    if fromSql != [] then fromSql else TinyHistory(s.tiny.messages, uid, limit)
  }

  /** With no limit, `get_messages` returns every message of the chosen store's pool, in
      ascending timestamp order (what `/repair/history` answers). */
  lemma FullHistoryIsSorted(s: Stores, uid: int, conn: Conn)
    ensures
      var sqlPool, tinyPool := TinyTable.Select(s.sql.messages, Sender, uid), TinyTable.Select(s.tiny.messages, Sender, uid);
      var all := GetMessages(s, uid, 0, conn);
      && SortedAsc(all, StampKey)
      && multiset(all) == multiset(if conn.Up? && sqlPool != [] then sqlPool else tinyPool)
  {
    var sqlPool, tinyPool := TinyTable.Select(s.sql.messages, Sender, uid), TinyTable.Select(s.tiny.messages, Sender, uid);
    var desc := SortDesc(sqlPool, StampKey);
    ReverseOfDesc(desc, StampKey);
    assert |desc| == |sqlPool| by { assert |multiset(desc)| == |multiset(sqlPool)|; }
    assert RelationalHistory(s.sql.messages, uid, 0) == Seqs.Reverse(desc);
  }

  const ChatHistoryLimit: nat := 20

  /** `/chat/history`: `get_messages(OWNER_ID)[-20:]`, the latest 20 messages of the
      chosen store, in ascending order. */
  function ChatHistory(s: Stores, uid: int, conn: Conn): (r: seq<Message>)
    ensures conn.Up? && TinyTable.Select(s.sql.messages, Sender, uid) != [] ==>
      LatestAscending(r, TinyTable.Select(s.sql.messages, Sender, uid), ChatHistoryLimit)
    ensures !(conn.Up? && TinyTable.Select(s.sql.messages, Sender, uid) != []) ==>
      LatestAscending(r, TinyTable.Select(s.tiny.messages, Sender, uid), ChatHistoryLimit)
  {
    var sqlPool, tinyPool := TinyTable.Select(s.sql.messages, Sender, uid), TinyTable.Select(s.tiny.messages, Sender, uid);
    var all := GetMessages(s, uid, 0, conn);
    FullHistoryIsSorted(s, uid, conn);
    TakeLastOfSortedIsLatest(all, if conn.Up? && sqlPool != [] then sqlPool else tinyPool, ChatHistoryLimit);
    Seqs.TakeLast(all, ChatHistoryLimit)
  }

  /** The two stores hold the same messages of `uid`. */
  ghost predicate Mirrored(s: Stores, uid: int) {
    multiset(TinyTable.Select(s.sql.messages, Sender, uid)) == multiset(TinyTable.Select(s.tiny.messages, Sender, uid))
  }

  /** When the stores mirror each other and no two of the user's messages share a
      timestamp, every connection outcome reads the same history. */
  lemma MirroredReadsAgree(s: Stores, uid: int, limit: nat, c1: Conn, c2: Conn)
    requires Mirrored(s, uid)
    requires KeyInjective(TinyTable.Select(s.tiny.messages, Sender, uid), StampKey)
    ensures GetMessages(s, uid, limit, c1) == GetMessages(s, uid, limit, c2)
    ensures GetMessages(s, uid, limit, c1) == TinyHistory(s.tiny.messages, uid, limit)
  {
    HistoryPathsAgree(s.sql.messages, s.tiny.messages, uid, limit);
  }

  /** A save that reaches PostgreSQL keeps the stores mirrored; one that does not leaves
      TinyDB one message ahead. */
  lemma SaveMessageMirrors(s: Stores, uid: int, msg: string, response: string, now: nat, conn: Conn)
    requires Mirrored(s, uid)
    ensures conn.Up? ==> Mirrored(SaveMessage(s, uid, msg, response, now, conn), uid)
    ensures !conn.Up? ==>
      var r := SaveMessage(s, uid, msg, response, now, conn);
      |TinyTable.Select(r.tiny.messages, Sender, uid)| == |TinyTable.Select(r.sql.messages, Sender, uid)| + 1
  {
    var r := SaveMessage(s, uid, msg, response, now, conn);
    assert |multiset(TinyTable.Select(s.sql.messages, Sender, uid))| == |multiset(TinyTable.Select(s.tiny.messages, Sender, uid))|;
  }

  // ---------------------------------------------------------------- config

  /** `get_config`: the relational cell when there is one; otherwise the TinyDB
      document's value; otherwise `default`. A relational error escapes. */
  function GetConfig(s: Stores, key: string, default: string, conn: Conn): (r: Result<ConfigValue>)
    ensures r.Err? <==> conn.Fails?
    ensures r.Err? ==> r.error == Raised
    ensures conn.Up? && key in s.sql.config ==> r == Ok(s.sql.config[key])
    ensures r.Ok? && !(conn.Up? && key in s.sql.config) ==>
      r.value == Text(if TinyTable.Select(s.tiny.config, ConfigKey, key) != [] then TinyTable.Select(s.tiny.config, ConfigKey, key)[0].value else default)
  {
    if conn.Fails? then Err(Raised)
    else if conn.Up? && key in s.sql.config then Ok(s.sql.config[key])
    else
      match TinyTable.First(s.tiny.config, ConfigKey, key)
      case Some(doc) => Ok(Text(doc.value))
      case None => Ok(Text(default))
  }

  /** `set_config`: the relational upsert, then the TinyDB upsert; a relational error
      escapes before TinyDB is written. */
  function SetConfig(s: Stores, key: string, value: string, conn: Conn): (e: Effect<()>)
    ensures e.result.Err? <==> conn.Fails?
    ensures conn.Fails? ==> e == Effect(Err(Raised), s)
    ensures !conn.Fails? ==> TinyTable.First(e.after.tiny.config, ConfigKey, key) == Some(ConfigDoc(key, value))
    ensures !conn.Fails? ==> (|TinyTable.Select(e.after.tiny.config, ConfigKey, key)| ==
      if TinyTable.Select(s.tiny.config, ConfigKey, key) == [] then 1 else |TinyTable.Select(s.tiny.config, ConfigKey, key)|)
    ensures forall k :: k != key ==>
      TinyTable.Select(e.after.tiny.config, ConfigKey, k) == TinyTable.Select(s.tiny.config, ConfigKey, k)
    ensures e.after.sql.config == if conn.Up? then s.sql.config[key := Text(value)] else s.sql.config
    ensures e.after.sql == s.sql.(config := e.after.sql.config) && e.after.tiny == s.tiny.(config := e.after.tiny.config)
  {
    if conn.Fails? then Effect(Err(Raised), s)
    else
      var doc := ConfigDoc(key, value);
      TinyTable.UpsertSelect(s.tiny.config, ConfigKey, key, doc, key);
      assert forall k :: k != key ==>
        TinyTable.Select(TinyTable.Upsert(s.tiny.config, ConfigKey, key, doc), ConfigKey, k) == TinyTable.Select(s.tiny.config, ConfigKey, k) by {
        forall k | k != key
          ensures TinyTable.Select(TinyTable.Upsert(s.tiny.config, ConfigKey, key, doc), ConfigKey, k) == TinyTable.Select(s.tiny.config, ConfigKey, k) {
          TinyTable.UpsertSelect(s.tiny.config, ConfigKey, key, doc, k);
        }
      }
      var sql := if conn.Up? then s.sql.(config := s.sql.config[key := Text(value)]) else s.sql;
      Effect(Ok(()), Stores(sql, s.tiny.(config := TinyTable.Upsert(s.tiny.config, ConfigKey, key, doc))))
  }

  /** Setting a key twice over the same kind of connection leaves the second value, read
      back by that connection, and a single TinyDB document for the key when there was at
      most one before. */
  lemma SetConfigTwice(s: Stores, key: string, v1: string, v2: string, default: string, conn: Conn)
    requires !conn.Fails?
    requires |TinyTable.Select(s.tiny.config, ConfigKey, key)| <= 1
    ensures
      var after := SetConfig(SetConfig(s, key, v1, conn).after, key, v2, conn).after;
      && GetConfig(after, key, default, conn) == Ok(Text(v2))
      && TinyTable.Select(after.tiny.config, ConfigKey, key) == [ConfigDoc(key, v2)]
  {
    var d1, d2 := ConfigDoc(key, v1), ConfigDoc(key, v2);
    var after := SetConfig(SetConfig(s, key, v1, conn).after, key, v2, conn).after;
    assert after.tiny.config == TinyTable.Upsert(s.tiny.config, ConfigKey, key, d2) by {
      TinyTable.UpsertTwice(s.tiny.config, ConfigKey, key, d1, d2);
    }
    assert TinyTable.Select(after.tiny.config, ConfigKey, key) == [d2] by {
      TinyTable.UpsertSelect(s.tiny.config, ConfigKey, key, d2, key);
    }
  }

  /** `sync_memory_to_db`: `load_memory()` (the file, or the default document when it
      cannot be read) upserted under `memory_backup`; only the relational store, and only
      when the call succeeds (its failure is caught). */
  function SyncMemoryToDb(sql: Relational, file: Option<Memory>, conn: Conn): (r: Relational)
    ensures conn.Up? ==> r.config.Keys == sql.config.Keys + {MemoryBackupKey}
    ensures conn.Up? ==> r.config[MemoryBackupKey] == MemoryBackup(file.GetOr(DefaultMemory()))
    ensures forall k :: k in sql.config && k != MemoryBackupKey ==> k in r.config && r.config[k] == sql.config[k]
    ensures !conn.Up? ==> r == sql
    ensures r == sql.(config := r.config)
  {
    if conn.Up? then sql.(config := sql.config[MemoryBackupKey := MemoryBackup(file.GetOr(DefaultMemory()))])
    else sql
  }

  /** After a successful sync the backup reads back as the file's document. */
  lemma SyncThenGetConfig(s: Stores, file: Option<Memory>, default: string)
    ensures GetConfig(Stores(SyncMemoryToDb(s.sql, file, Up), s.tiny), MemoryBackupKey, default, Up)
      == Ok(MemoryBackup(file.GetOr(DefaultMemory())))
  {
  }

  // ---------------------------------------------------------------- diary

  /** `get_diary`: the relational row, or the TinyDB document, or the default diary.
      Errors on either path are caught, so nothing is raised. */
  function GetDiary(s: Stores, uid: int, conn: Conn): (r: Diary)
    ensures conn.Up? && uid in s.sql.diary ==> r == s.sql.diary[uid]
    ensures !(conn.Up? && uid in s.sql.diary) && TinyTable.Select(s.tiny.diary, DiaryOwner, uid) == [] ==> r == DefaultDiary()
    ensures !(conn.Up? && uid in s.sql.diary) && TinyTable.Select(s.tiny.diary, DiaryOwner, uid) != [] ==>
      var d := TinyTable.Select(s.tiny.diary, DiaryOwner, uid)[0];
      r == Diary(d.notes, d.lastAiLine)
  {
    if conn.Up? && uid in s.sql.diary then s.sql.diary[uid]
    else
      match TinyTable.First(s.tiny.diary, DiaryOwner, uid)
      case Some(d) => Diary(d.notes, d.lastAiLine)
      case None => DefaultDiary()
  }

  /** `update_diary`: the relational upsert, whose failure is caught, then the TinyDB
      upsert, which always happens. Nothing is raised. */
  function UpdateDiary(s: Stores, uid: int, notes: seq<Json>, lastAiLine: string, conn: Conn): (r: Stores)
    ensures TinyTable.First(r.tiny.diary, DiaryOwner, uid) == Some(DiaryDoc(uid, notes, lastAiLine))
    ensures forall other :: other != uid ==>
      TinyTable.First(r.tiny.diary, DiaryOwner, other) == TinyTable.First(s.tiny.diary, DiaryOwner, other)
    ensures r.sql.diary == if conn.Up? then s.sql.diary[uid := Diary(notes, lastAiLine)] else s.sql.diary
    ensures r.sql == s.sql.(diary := r.sql.diary) && r.tiny == s.tiny.(diary := r.tiny.diary)
  {
    var doc := DiaryDoc(uid, notes, lastAiLine);
    assert forall other :: other != uid ==>
      TinyTable.First(TinyTable.Upsert(s.tiny.diary, DiaryOwner, uid, doc), DiaryOwner, other) == TinyTable.First(s.tiny.diary, DiaryOwner, other) by {
      forall other | other != uid
        ensures TinyTable.First(TinyTable.Upsert(s.tiny.diary, DiaryOwner, uid, doc), DiaryOwner, other) == TinyTable.First(s.tiny.diary, DiaryOwner, other) {
        TinyTable.UpsertThenFirstOther(s.tiny.diary, DiaryOwner, uid, doc, other);
      }
    }
    var sql := if conn.Up? then s.sql.(diary := s.sql.diary[uid := Diary(notes, lastAiLine)]) else s.sql;
    Stores(sql, s.tiny.(diary := TinyTable.Upsert(s.tiny.diary, DiaryOwner, uid, doc)))
  }

  /** A diary write is read back by any read that does not meet an older relational row;
      even a write whose relational call failed is in TinyDB. */
  lemma DiaryWriteThenRead(s: Stores, uid: int, notes: seq<Json>, line: string, w: Conn, rd: Conn)
    requires w.Up? || !rd.Up? || uid !in s.sql.diary
    ensures GetDiary(UpdateDiary(s, uid, notes, line, w), uid, rd) == Diary(notes, line)
  {
    var r := UpdateDiary(s, uid, notes, line, w);
    if !(rd.Up? && uid in r.sql.diary) {
      assert TinyTable.Select(r.tiny.diary, DiaryOwner, uid) != [];
    }
  }

  /** `admin_diary_delete` for `uid`: the relational delete, then the TinyDB remove. A
      relational error escapes before TinyDB is touched. */
  function AdminDiaryDelete(s: Stores, uid: int, conn: Conn): (e: Effect<()>)
    ensures e.result.Err? <==> conn.Fails?
    ensures conn.Fails? ==> e == Effect(Err(Raised), s)
    ensures !conn.Fails? ==> TinyTable.Select(e.after.tiny.diary, DiaryOwner, uid) == []
    ensures forall other :: other != uid ==>
      TinyTable.Select(e.after.tiny.diary, DiaryOwner, other) == TinyTable.Select(s.tiny.diary, DiaryOwner, other)
    ensures e.after.sql.diary == if conn.Up? then s.sql.diary - {uid} else s.sql.diary
    ensures e.after.sql == s.sql.(diary := e.after.sql.diary) && e.after.tiny == s.tiny.(diary := e.after.tiny.diary)
  {
    if conn.Fails? then Effect(Err(Raised), s)
    else
      assert forall other ::
        TinyTable.Select(TinyTable.Remove(s.tiny.diary, DiaryOwner, uid), DiaryOwner, other) ==
        if other == uid then [] else TinyTable.Select(s.tiny.diary, DiaryOwner, other) by {
        forall other ensures TinyTable.Select(TinyTable.Remove(s.tiny.diary, DiaryOwner, uid), DiaryOwner, other) ==
                             if other == uid then [] else TinyTable.Select(s.tiny.diary, DiaryOwner, other) {
          TinyTable.RemoveSelect(s.tiny.diary, DiaryOwner, uid, other);
        }
      }
      var sql := if conn.Up? then s.sql.(diary := s.sql.diary - {uid}) else s.sql;
      Effect(Ok(()), Stores(sql, s.tiny.(diary := TinyTable.Remove(s.tiny.diary, DiaryOwner, uid))))
  }

  /** After a delete that succeeds, reads see the default diary unless a connected read
      meets a relational row the delete could not reach. */
  lemma DiaryDeleteThenRead(s: Stores, uid: int, w: Conn, rd: Conn)
    requires !w.Fails?
    requires w.Up? || !rd.Up? || uid !in s.sql.diary
    ensures GetDiary(AdminDiaryDelete(s, uid, w).after, uid, rd) == DefaultDiary()
  {
  }

  // ---------------------------------------------------------------- repair

  /** `repair_clear_user` for `uid`: the three relational deletes (a failure is reported
      as an error response and nothing is committed), then the three TinyDB removes. */
  function RepairClearUser(s: Stores, uid: int, conn: Conn): (e: Effect<()>)
    ensures e.result.Err? <==> conn.Fails?
    ensures conn.Fails? ==> e == Effect(Err(DatabaseError), s)
    ensures !conn.Fails? ==>
      && TinyTable.Select(e.after.tiny.messages, Sender, uid) == []
      && TinyTable.Select(e.after.tiny.users, UserId, uid) == []
      && TinyTable.Select(e.after.tiny.diary, DiaryOwner, uid) == []
    ensures conn.Up? ==>
      && TinyTable.Select(e.after.sql.messages, Sender, uid) == []
      && e.after.sql.users == s.sql.users - {uid}
      && e.after.sql.diary == s.sql.diary - {uid}
    ensures !conn.Up? ==> e.after.sql == s.sql
    ensures forall other :: other != uid ==>
      && TinyTable.Select(e.after.tiny.messages, Sender, other) == TinyTable.Select(s.tiny.messages, Sender, other)
      && TinyTable.Select(e.after.sql.messages, Sender, other) == TinyTable.Select(s.sql.messages, Sender, other)
      && TinyTable.Select(e.after.tiny.users, UserId, other) == TinyTable.Select(s.tiny.users, UserId, other)
      && TinyTable.Select(e.after.tiny.diary, DiaryOwner, other) == TinyTable.Select(s.tiny.diary, DiaryOwner, other)
    ensures e.after.sql.config == s.sql.config && e.after.sql.games == s.sql.games
    ensures e.after.tiny.config == s.tiny.config && e.after.tiny.games == s.tiny.games
    ensures WellFormed(s) ==> WellFormed(e.after)
  {
    if conn.Fails? then Effect(Err(DatabaseError), s)
    else
      TinyTable.RemoveSelect(s.tiny.users, UserId, uid, uid);
      TinyTable.RemoveSelect(s.tiny.diary, DiaryOwner, uid, uid);
      assert forall other :: other != uid ==>
        && TinyTable.Select(TinyTable.Remove(s.tiny.users, UserId, uid), UserId, other) == TinyTable.Select(s.tiny.users, UserId, other)
        && TinyTable.Select(TinyTable.Remove(s.tiny.diary, DiaryOwner, uid), DiaryOwner, other) == TinyTable.Select(s.tiny.diary, DiaryOwner, other) by {
        forall other | other != uid
          ensures TinyTable.Select(TinyTable.Remove(s.tiny.users, UserId, uid), UserId, other) == TinyTable.Select(s.tiny.users, UserId, other)
          ensures TinyTable.Select(TinyTable.Remove(s.tiny.diary, DiaryOwner, uid), DiaryOwner, other) == TinyTable.Select(s.tiny.diary, DiaryOwner, other) {
          TinyTable.RemoveSelect(s.tiny.users, UserId, uid, other);
          TinyTable.RemoveSelect(s.tiny.diary, DiaryOwner, uid, other);
        }
      }
      assert forall other ::
        && TinyTable.Select(TinyTable.Remove(s.tiny.messages, Sender, uid), Sender, other) ==
           (if other == uid then [] else TinyTable.Select(s.tiny.messages, Sender, other))
        && TinyTable.Select(TinyTable.Remove(s.sql.messages, Sender, uid), Sender, other) ==
           (if other == uid then [] else TinyTable.Select(s.sql.messages, Sender, other)) by {
        forall other
          ensures TinyTable.Select(TinyTable.Remove(s.tiny.messages, Sender, uid), Sender, other) ==
                  (if other == uid then [] else TinyTable.Select(s.tiny.messages, Sender, other))
          ensures TinyTable.Select(TinyTable.Remove(s.sql.messages, Sender, uid), Sender, other) ==
                  (if other == uid then [] else TinyTable.Select(s.sql.messages, Sender, other)) {
          TinyTable.RemoveSelect(s.tiny.messages, Sender, uid, other);
          TinyTable.RemoveSelect(s.sql.messages, Sender, uid, other);
        }
      }
      var sql := if conn.Up? then s.sql.(messages := TinyTable.Remove(s.sql.messages, Sender, uid),
                                         users := s.sql.users - {uid}, diary := s.sql.diary - {uid})
                 else s.sql;
      var tiny := s.tiny.(messages := TinyTable.Remove(s.tiny.messages, Sender, uid),
                          users := TinyTable.Remove(s.tiny.users, UserId, uid),
                          diary := TinyTable.Remove(s.tiny.diary, DiaryOwner, uid));
      Effect(Ok(()), Stores(sql, tiny))
  }

  /** After a clear that succeeds, the user reads back as new: the default record, no
      history and the default diary, unless a connected read meets relational rows the
      clear could not reach. */
  lemma ClearThenRead(s: Stores, uid: int, limit: nat, w: Conn, rd: Conn)
    requires !w.Fails? && !rd.Fails?
    requires w.Up? || !rd.Up? || (uid !in s.sql.users && uid !in s.sql.diary && TinyTable.Select(s.sql.messages, Sender, uid) == [])
    ensures
      var after := RepairClearUser(s, uid, w).after;
      && GetUserData(after, uid, rd) == Ok(DefaultUser(uid))
      && GetMessages(after, uid, limit, rd) == []
      && GetDiary(after, uid, rd) == DefaultDiary()
  {
    var after := RepairClearUser(s, uid, w).after;
    var r := GetMessages(after, uid, limit, rd);
    assert |r| == 0;
  }

  // ---------------------------------------------------------------- retention

  /** `delete_old_messages` for `uid`: the range names a cutoff; the relational DELETE
      removes the user's messages older than it (all of them for "all") and reports how
      many; a relational failure is reported as an error response before TinyDB is
      touched; then the TinyDB loop removes messages as it is written. */
  function DeleteOldMessages(s: Stores, uid: int, range: string, now: int, conn: Conn): (e: Effect<nat>)
    ensures Cutoff(range, now).Err? ==> e == Effect(Err(InvalidRange), s)
    ensures Cutoff(range, now).Ok? && conn.Fails? ==> e == Effect(Err(DatabaseError), s)
    ensures e.result.Ok? ==> Cutoff(range, now).Ok? && !conn.Fails?
    ensures e.result.Ok? ==>
      var cutoff := Cutoff(range, now).value;
      && e.after.tiny.messages == TinyAsWritten(s.tiny.messages, uid, cutoff)
      && e.after.sql.messages == (if conn.Up? then Surviving(s.sql.messages, uid, cutoff) else s.sql.messages)
      && e.result.value + |e.after.sql.messages| == |s.sql.messages|
      && (!conn.Up? ==> e.result.value == 0)
    ensures e.after.sql == s.sql.(messages := e.after.sql.messages) && e.after.tiny == s.tiny.(messages := e.after.tiny.messages)
  {
    match Cutoff(range, now)
    case Err(_) => Effect(Err(InvalidRange), s)
    case Ok(cutoff) =>
      if conn.Fails? then Effect(Err(DatabaseError), s)
      else
        var count := if conn.Up? then DeletedCount(s.sql.messages, uid, cutoff) else 0;
        var sql := if conn.Up? then s.sql.(messages := Surviving(s.sql.messages, uid, cutoff)) else s.sql;
        Effect(Ok(count), Stores(sql, s.tiny.(messages := TinyAsWritten(s.tiny.messages, uid, cutoff))))
  }

  /** "all" over a reachable store clears the user's history from every read, and other
      users' messages are kept by any range. */
  lemma DeleteAllThenRead(s: Stores, uid: int, now: int, limit: nat, w: Conn, rd: Conn)
    requires !w.Fails?
    requires w.Up? || !rd.Up? || TinyTable.Select(s.sql.messages, Sender, uid) == []
    ensures GetMessages(DeleteOldMessages(s, uid, "all", now, w).after, uid, limit, rd) == []
  {
    var after := DeleteOldMessages(s, uid, "all", now, w).after;
    DeleteAllCountsUser(s.sql.messages, uid);
    TinyAsWrittenEffect(s.tiny.messages, uid, None);
    TinyTable.RemoveSelect(s.sql.messages, Sender, uid, uid);
    TinyTable.RemoveSelect(s.tiny.messages, Sender, uid, uid);
    assert TinyTable.Select(after.tiny.messages, Sender, uid) == [];
    var r := GetMessages(after, uid, limit, rd);
    assert |r| == 0;
  }

  /** Retention never removes another user's messages, from either store. */
  lemma DeleteOldSparesOthers(s: Stores, uid: int, range: string, now: int, conn: Conn, other: int)
    requires other != uid
    ensures
      var after := DeleteOldMessages(s, uid, range, now, conn).after;
      && TinyTable.Select(after.tiny.messages, Sender, other) == TinyTable.Select(s.tiny.messages, Sender, other)
      && TinyTable.Select(after.sql.messages, Sender, other) == TinyTable.Select(s.sql.messages, Sender, other)
  {
    if Cutoff(range, now).Ok? && !conn.Fails? {
      var cutoff := Cutoff(range, now).value;
      TinyAsWrittenEffect(s.tiny.messages, uid, cutoff);
      SurvivingSparesOthers(s.sql.messages, uid, cutoff, other);
    }
  }

  // ---------------------------------------------------------------- games

  /** `save_game_submission`: the relational insert, then the TinyDB insert; a relational
      error escapes before TinyDB is written. */
  function SaveGameSubmission(s: Stores, gameType: string, content: string, now: nat, conn: Conn): (e: Effect<()>)
    ensures e.result.Err? <==> conn.Fails?
    ensures conn.Fails? ==> e == Effect(Err(Raised), s)
    ensures !conn.Fails? ==> e.after.tiny.games == s.tiny.games + [Submission(gameType, content, now)]
    ensures e.after.sql.games == if conn.Up? then s.sql.games + [Submission(gameType, content, now)] else s.sql.games
    ensures e.after.sql == s.sql.(games := e.after.sql.games) && e.after.tiny == s.tiny.(games := e.after.tiny.games)
  {
    if conn.Fails? then Effect(Err(Raised), s)
    else
      var sub := Submission(gameType, content, now);
      var sql := if conn.Up? then s.sql.(games := s.sql.games + [sub]) else s.sql;
      Effect(Ok(()), Stores(sql, s.tiny.(games := s.tiny.games + [sub])))
  }

  /** `admin_games_submissions`: the newest 100 relational rows; when there are none
      (or PostgreSQL is unreachable) the newest 100 TinyDB documents, last inserted first.
      A relational error escapes. */
  function GamesSubmissions(s: Stores, conn: Conn): (r: Result<seq<Submission>>)
    ensures r.Err? <==> conn.Fails?
    ensures r.Err? ==> r.error == Raised
    ensures r.Ok? ==> |r.value| <= SubmissionLimit
    ensures conn.Up? && s.sql.games != [] ==>
      && r.Ok? && SortedDesc(r.value, SubmittedAt) && multiset(r.value) <= multiset(s.sql.games)
      && |r.value| == (if |s.sql.games| <= SubmissionLimit then |s.sql.games| else SubmissionLimit)
      && (forall x, y :: x in s.sql.games && x !in r.value && y in r.value ==> SubmittedAt(x) <= SubmittedAt(y))
    ensures r.Ok? && !(conn.Up? && s.sql.games != []) ==>
      |r.value| == (if |s.tiny.games| <= SubmissionLimit then |s.tiny.games| else SubmissionLimit)
    ensures r.Ok? && !(conn.Up? && s.sql.games != []) ==>
      forall i :: 0 <= i < |r.value| ==> r.value[i] == s.tiny.games[|s.tiny.games| - 1 - i]
  {
    if conn.Fails? then Err(Raised)
    else
      var fromSql := if conn.Up? then RelationalSubmissions(s.sql.games) else [];
      if fromSql != [] then Ok(fromSql) else Ok(TinySubmissions(s.tiny.games))
  }

  /** When both tables hold the same submissions with distinct times and TinyDB holds them
      in time order, the fallback returns exactly what PostgreSQL would. */
  lemma GamesPathsAgree(s: Stores)
    requires SortedAsc(s.tiny.games, SubmittedAt) && KeyInjective(s.tiny.games, SubmittedAt)
    requires multiset(s.sql.games) == multiset(s.tiny.games)
    ensures GamesSubmissions(s, Up) == GamesSubmissions(s, Unreachable)
  {
    SubmissionPathsAgree(s.sql.games, s.tiny.games);
  }
}
