/** The running server: the two stores, the in-process memory document `MEMORY` and the
    memory.json file, changed in place by the chat route, the admin routes and the repair
    routes. */
module Server {
  import opened Wrappers
  import opened MemoryDocument
  import opened Records
  import opened Cascade
  import opened ChatTurn
  import opened Retention
  import opened Seqs
  import TinyTable
  import P = Persistence

  /** The chat route as one step from the stores it starts from: read the owner's record,
      run the provider cascade, write the rolling memory, save the message. `outs` are the
      provider outcomes in cascade order. */
  function ChatEffect(s: P.Stores, owner: int, msg: string, outs: seq<Outcome>, now: nat,
                      readConn: Conn, writeConn: Conn, saveConn: Conn): (e: P.Effect<string>)
    ensures readConn.Fails? || writeConn.Fails? ==> e == P.Effect(Err(Raised), s)
    ensures !readConn.Fails? && !writeConn.Fails? ==> e.result == Ok(Answer(outs)) && Answer(outs) != []
    ensures e.result.Ok? ==>
      var prior := P.GetUserData(s, owner, readConn).value.memory;
      var user := User(owner, RollingMemory(prior, msg, Answer(outs)), DefaultMood);
      var saved := P.Saved(owner, msg, Answer(outs), now);
      && TinyTable.First(e.after.tiny.users, UserId, owner) == Some(user)
      && |user.memory| <= MemoryLimit
      && e.after.sql.users == (if writeConn.Up? then s.sql.users[owner := user] else s.sql.users)
      && e.after.tiny.messages == s.tiny.messages + [saved]
      && e.after.sql.messages == s.sql.messages + (if saveConn.Up? then [saved] else [])
    ensures forall other :: other != owner ==>
      TinyTable.First(e.after.tiny.users, UserId, other) == TinyTable.First(s.tiny.users, UserId, other)
    ensures e.after.sql == s.sql.(users := e.after.sql.users, messages := e.after.sql.messages)
    ensures e.after.tiny == s.tiny.(users := e.after.tiny.users, messages := e.after.tiny.messages)
    ensures P.WellFormed(s) ==> P.WellFormed(e.after)
  {
    match P.GetUserData(s, owner, readConn)
    case Err(err) => P.Effect(Err(err), s)
    case Ok(user) =>
      var reply := Answer(outs);
      AnswerIsFirstUsable(outs);
      var w := P.UpdateUserData(s, owner, RollingMemory(user.memory, msg, reply), DefaultMood, writeConn);
      if w.result.Err? then P.Effect(Err(w.result.error), s)
      else P.Effect(Ok(reply), P.SaveMessage(w.after, owner, msg, reply, now, saveConn))
  }

  /** One chat turn over a working database stores the rolling memory relationally. */
  lemma ChatTurnUp(s: P.Stores, owner: int, msg: string, outs: seq<Outcome>, now: nat)
    requires P.WellFormed(s)
    ensures
      var after := ChatEffect(s, owner, msg, outs, now, Up, Up, Up).after;
      var prior := P.GetUserData(s, owner, Up).value.memory;
      && P.WellFormed(after)
      && P.GetUserData(after, owner, Up) == Ok(User(owner, RollingMemory(prior, msg, Answer(outs)), DefaultMood))
  {
  }

  /** Two chat turns over a working database keep exactly the rolling window of the
      owner's memory followed by both turns' text. */
  lemma ChatTurnsKeepWindow(s: P.Stores, owner: int, m1: string, o1: seq<Outcome>, t1: nat,
                            m2: string, o2: seq<Outcome>, t2: nat)
    requires P.WellFormed(s)
    ensures
      var first := ChatEffect(s, owner, m1, o1, t1, Up, Up, Up).after;
      var second := ChatEffect(first, owner, m2, o2, t2, Up, Up, Up).after;
      var prior := P.GetUserData(s, owner, Up).value.memory;
      && P.GetUserData(second, owner, Up).value.memory == Replay(prior, [Turn(m1, Answer(o1)), Turn(m2, Answer(o2))])
      && P.GetUserData(second, owner, Up).value.memory == TakeLast(prior + Entry(m1, Answer(o1)) + Entry(m2, Answer(o2)), MemoryLimit)
  {
    var prior := P.GetUserData(s, owner, Up).value.memory;
    var a1, a2 := Answer(o1), Answer(o2);
    var first := ChatEffect(s, owner, m1, o1, t1, Up, Up, Up).after;
    ChatTurnUp(s, owner, m1, o1, t1);
    ChatTurnUp(first, owner, m2, o2, t2);
    TwoTurns(prior, m1, a1, m2, a2);
  }

  /** The memory after two turns, by `Replay` and by one final cut. */
  lemma TwoTurns(prior: string, m1: string, a1: string, m2: string, a2: string)
    ensures RollingMemory(RollingMemory(prior, m1, a1), m2, a2) == Replay(prior, [Turn(m1, a1), Turn(m2, a2)])
    ensures Replay(prior, [Turn(m1, a1), Turn(m2, a2)]) == TakeLast(prior + Entry(m1, a1) + Entry(m2, a2), MemoryLimit)
  {
    var turns := [Turn(m1, a1), Turn(m2, a2)];
    assert turns[..1] == [Turn(m1, a1)] && turns[..1][..0] == [];
    assert Replay(prior, turns[..1]) == RollingMemory(prior, m1, a1);
    ReplayKeepsLatest(prior, turns);
    assert Transcript(turns[..1]) == Entry(m1, a1);
    assert prior + Transcript(turns) == prior + Entry(m1, a1) + Entry(m2, a2);
  }

  class App {
    const ownerId: int
    var stores: P.Stores
    /** `MEMORY`, the in-process memory document. */
    var memory: Memory
    /** memory.json: the document it holds, or None when it is missing or unreadable. */
    var memoryFile: Option<Memory>

    ghost predicate Valid()
      reads this
    {
      P.WellFormed(stores)
    }

    /** Start-up: `init_db()` syncs memory.json to PostgreSQL when it is reachable, then
        `MEMORY = load_memory()`. */
    constructor (ownerId: int, stores: P.Stores, memoryFile: Option<Memory>, initConn: Conn)
      requires P.WellFormed(stores)
      ensures Valid() && this.ownerId == ownerId
      ensures this.stores == P.Stores(P.SyncMemoryToDb(stores.sql, memoryFile, initConn), stores.tiny)
      ensures this.memoryFile == memoryFile && memory == memoryFile.GetOr(DefaultMemory())
    {
      this.ownerId := ownerId;
      this.stores := P.Stores(P.SyncMemoryToDb(stores.sql, memoryFile, initConn), stores.tiny);
      this.memoryFile := memoryFile;
      memory := memoryFile.GetOr(DefaultMemory());
    }

    // ------------------------------------------------------------ store writes

    method UpdateUserData(uid: int, mem: string, mood: string, conn: Conn) returns (r: Result<()>)
      requires Valid()
      modifies this
      ensures Valid()
      ensures var e := P.UpdateUserData(old(stores), uid, mem, mood, conn); r == e.result && stores == e.after
      ensures memory == old(memory) && memoryFile == old(memoryFile)
    {
      if conn.Fails? { return Err(Raised); }
      var user := User(uid, mem, mood);
      if conn.Up? {
        stores := stores.(sql := stores.sql.(users := stores.sql.users[uid := user]));
      }
      stores := stores.(tiny := stores.tiny.(users := TinyTable.Upsert(stores.tiny.users, UserId, uid, user)));
      r := Ok(());
    }

    method SaveMessage(uid: int, msg: string, response: string, now: nat, conn: Conn)
      requires Valid()
      modifies this
      ensures Valid()
      ensures stores == P.SaveMessage(old(stores), uid, msg, response, now, conn)
      ensures memory == old(memory) && memoryFile == old(memoryFile)
    {
      var m := P.Saved(uid, msg, response, now);
      if conn.Up? {
        stores := stores.(sql := stores.sql.(messages := stores.sql.messages + [m]));
      }
      stores := stores.(tiny := stores.tiny.(messages := stores.tiny.messages + [m]));
    }

    method SetConfig(key: string, value: string, conn: Conn) returns (r: Result<()>)
      requires Valid()
      modifies this
      ensures Valid()
      ensures var e := P.SetConfig(old(stores), key, value, conn); r == e.result && stores == e.after
      ensures memory == old(memory) && memoryFile == old(memoryFile)
    {
      if conn.Fails? { return Err(Raised); }
      if conn.Up? {
        stores := stores.(sql := stores.sql.(config := stores.sql.config[key := Text(value)]));
      }
      stores := stores.(tiny := stores.tiny.(config := TinyTable.Upsert(stores.tiny.config, ConfigKey, key, ConfigDoc(key, value))));
      r := Ok(());
    }

    method UpdateDiary(uid: int, notes: seq<Json>, lastAiLine: string, conn: Conn)
      requires Valid()
      modifies this
      ensures Valid()
      ensures stores == P.UpdateDiary(old(stores), uid, notes, lastAiLine, conn)
      ensures memory == old(memory) && memoryFile == old(memoryFile)
    {
      if conn.Up? {
        stores := stores.(sql := stores.sql.(diary := stores.sql.diary[uid := Diary(notes, lastAiLine)]));
      }
      var doc := DiaryDoc(uid, notes, lastAiLine);
      stores := stores.(tiny := stores.tiny.(diary := TinyTable.Upsert(stores.tiny.diary, DiaryOwner, uid, doc)));
    }

    method AdminDiaryDelete(conn: Conn) returns (r: Result<()>)
      requires Valid()
      modifies this
      ensures Valid()
      ensures var e := P.AdminDiaryDelete(old(stores), ownerId, conn); r == e.result && stores == e.after
      ensures memory == old(memory) && memoryFile == old(memoryFile)
    {
      if conn.Fails? { return Err(Raised); }
      if conn.Up? {
        stores := stores.(sql := stores.sql.(diary := stores.sql.diary - {ownerId}));
      }
      stores := stores.(tiny := stores.tiny.(diary := TinyTable.Remove(stores.tiny.diary, DiaryOwner, ownerId)));
      r := Ok(());
    }

    method RepairClearUser(conn: Conn) returns (r: Result<()>)
      requires Valid()
      modifies this
      ensures Valid()
      ensures var e := P.RepairClearUser(old(stores), ownerId, conn); r == e.result && stores == e.after
      ensures memory == old(memory) && memoryFile == old(memoryFile)
    {
      if conn.Fails? { return Err(DatabaseError); }
      if conn.Up? {
        var sql := stores.sql;
        stores := stores.(sql := sql.(messages := TinyTable.Remove(sql.messages, Sender, ownerId),
                                      users := sql.users - {ownerId}, diary := sql.diary - {ownerId}));
      }
      var tiny := stores.tiny;
      stores := stores.(tiny := tiny.(messages := TinyTable.Remove(tiny.messages, Sender, ownerId)));
      stores := stores.(tiny := stores.tiny.(users := TinyTable.Remove(tiny.users, UserId, ownerId)));
      stores := stores.(tiny := stores.tiny.(diary := TinyTable.Remove(tiny.diary, DiaryOwner, ownerId)));
      r := Ok(());
    }

    /** `delete_old_messages`, with its TinyDB loop as written: it walks a snapshot of the
        table, and each document that triggers removes every document of the owner. */
    method DeleteOldMessages(range: string, now: int, conn: Conn) returns (r: Result<nat>)
      requires Valid()
      modifies this
      ensures Valid()
      ensures var e := P.DeleteOldMessages(old(stores), ownerId, range, now, conn); r == e.result && stores == e.after
      ensures memory == old(memory) && memoryFile == old(memoryFile)
    {
      var cutoff := Cutoff(range, now);
      if cutoff.Err? { return Err(InvalidRange); }
      var c := cutoff.value;
      if conn.Fails? { return Err(DatabaseError); }
      var count: nat := 0;
      if conn.Up? {
        count := DeletedCount(stores.sql.messages, ownerId, c);
        stores := stores.(sql := stores.sql.(messages := Surviving(stores.sql.messages, ownerId, c)));
      }
      ghost var start := stores;
      var msgs := stores.tiny.messages;
      var i := 0;
      while i < |msgs|
        invariant 0 <= i <= |msgs|
        invariant stores.sql == start.sql
        invariant memory == old(memory) && memoryFile == old(memoryFile)
        invariant stores.tiny == start.tiny.(messages := stores.tiny.messages)
        invariant stores.tiny.messages ==
          if TriggersBefore(msgs, i, c) then TinyTable.Remove(msgs, Sender, ownerId) else msgs
      {
        TriggersBeforeNext(msgs, i, c);
        if Triggers(msgs[i], c) {
          TinyTable.RemoveTwice(msgs, Sender, ownerId);
          stores := stores.(tiny := stores.tiny.(messages := TinyTable.Remove(stores.tiny.messages, Sender, ownerId)));
        }
        i := i + 1;
      }
      r := Ok(count);
    }

    method SaveGameSubmission(gameType: string, content: string, now: nat, conn: Conn) returns (r: Result<()>)
      requires Valid()
      modifies this
      ensures Valid()
      ensures var e := P.SaveGameSubmission(old(stores), gameType, content, now, conn); r == e.result && stores == e.after
      ensures memory == old(memory) && memoryFile == old(memoryFile)
    {
      if conn.Fails? { return Err(Raised); }
      var sub := Submission(gameType, content, now);
      if conn.Up? {
        stores := stores.(sql := stores.sql.(games := stores.sql.games + [sub]));
      }
      stores := stores.(tiny := stores.tiny.(games := stores.tiny.games + [sub]));
      r := Ok(());
    }

    // ------------------------------------------------------------ memory document

    /** `save_memory(MEMORY)`: memory.json holds the document when the write succeeds. */
    method SaveMemory(ok: bool) returns (saved: bool)
      modifies this`memoryFile
      ensures saved == ok
      ensures memoryFile == if ok then Some(memory) else old(memoryFile)
    {
      if ok { memoryFile := Some(memory); }
      saved := ok;
    }

    method SyncMemoryToDb(conn: Conn)
      requires Valid()
      modifies this`stores
      ensures Valid()
      ensures stores == P.Stores(P.SyncMemoryToDb(old(stores).sql, memoryFile, conn), old(stores).tiny)
    {
      if conn.Up? {
        var doc := memoryFile.GetOr(DefaultMemory());
        stores := stores.(sql := stores.sql.(config := stores.sql.config[MemoryBackupKey := MemoryBackup(doc)]));
      }
    }

    /** `admin_memory_get`: `MEMORY` is reloaded from memory.json. */
    method AdminMemoryGet() returns (m: Memory)
      modifies this`memory
      ensures memory == memoryFile.GetOr(DefaultMemory()) && m == memory
    {
      memory := memoryFile.GetOr(DefaultMemory());
      m := memory;
    }

    /** `admin_memory_update`: `MEMORY` is merged and stamped even when the save then
        fails; the backup is synced only after a successful save. */
    method AdminMemoryUpdate(data: Memory, now: int, saveOk: bool, syncConn: Conn) returns (r: Result<Memory>)
      requires Valid()
      modifies this
      ensures Valid()
      ensures memory == Merged(old(memory), data, now)
      ensures saveOk ==>
        r == Ok(memory) && memoryFile == Some(memory) && stores == P.Stores(P.SyncMemoryToDb(old(stores).sql, Some(memory), syncConn), old(stores).tiny)
      ensures saveOk && syncConn.Up? ==> stores.sql.config[MemoryBackupKey] == MemoryBackup(memory)
      ensures !saveOk ==> r == Err(SaveFailed) && memoryFile == old(memoryFile) && stores == old(stores)
    {
      memory := Merged(memory, data, now);
      var saved := SaveMemory(saveOk);
      if saved {
        SyncMemoryToDb(syncConn);
        r := Ok(memory);
      } else {
        r := Err(SaveFailed);
      }
    }

    /** `admin_memory_set`: falsy instructions are rejected before anything changes;
        otherwise as `admin_memory_update` with the single key `admin_instructions`. */
    method AdminMemorySet(instructions: Json, now: int, saveOk: bool, syncConn: Conn) returns (r: Result<Memory>)
      requires Valid()
      modifies this
      ensures Valid()
      ensures Falsy(instructions) ==>
        r == Err(InstructionsRequired) && memory == old(memory) && memoryFile == old(memoryFile) && stores == old(stores)
      ensures !Falsy(instructions) ==> memory == WithInstructions(old(memory), instructions, now)
      ensures !Falsy(instructions) && saveOk ==>
        r == Ok(memory) && memoryFile == Some(memory) && stores == P.Stores(P.SyncMemoryToDb(old(stores).sql, Some(memory), syncConn), old(stores).tiny)
      ensures !Falsy(instructions) && !saveOk ==>
        r == Err(SaveFailed) && memoryFile == old(memoryFile) && stores == old(stores)
    {
      if Falsy(instructions) { return Err(InstructionsRequired); }
      memory := WithInstructions(memory, instructions, now);
      var saved := SaveMemory(saveOk);
      if saved {
        SyncMemoryToDb(syncConn);
        r := Ok(memory);
      } else {
        r := Err(SaveFailed);
      }
    }

    // ------------------------------------------------------------ chat

    /** The chat route for the owner's account. A relational error in `get_user_data` or
        `update_user_data` escapes, so nothing after it runs; the cascade is run only
        after the read succeeds. */
    method Chat(msg: string, groq: Outcome, gemini: Outcome, openai: Outcome, now: nat,
                readConn: Conn, writeConn: Conn, saveConn: Conn) returns (r: Result<string>, called: seq<Provider>)
      requires Valid()
      modifies this
      ensures Valid()
      ensures var e := ChatEffect(old(stores), ownerId, msg, [groq, gemini, openai], now, readConn, writeConn, saveConn);
        r == e.result && stores == e.after
      ensures called == if readConn.Fails? then [] else Called([Groq, Gemini, OpenAI], [groq, gemini, openai])
      ensures memory == old(memory) && memoryFile == old(memoryFile)
    {
      var user := P.GetUserData(stores, ownerId, readConn);
      if user.Err? { return Err(user.error), []; }
      var reply;
      reply, called := Generate(groq, gemini, openai);
      var w := UpdateUserData(ownerId, RollingMemory(user.value.memory, msg, reply), DefaultMood, writeConn);
      if w.Err? { return Err(w.error), called; }
      SaveMessage(ownerId, msg, reply, now, saveConn);
      r := Ok(reply);
    }
  }
}
