/** The records the server keeps, the two stores that hold them, and the outcome of one
    relational call. */
module Records {
  import opened MemoryDocument

  /** What happens to one relational (PostgreSQL) call. */
  datatype Conn =
    | Unreachable  // `get_db_connection()` gave None: no DATABASE_URL, or connecting raised
    | Up           // connected, and the statements run and commit
    | Fails        // connected, but a statement or the commit raises

  datatype User = User(id: int, memory: string, mood: string)

  /** A message timestamp: a clock reading, or a value that is missing or does not parse. */
  datatype Stamp = At(time: nat) | Unstamped

  datatype Message = Message(userId: int, message: string, response: string, stamp: Stamp)

  datatype Diary = Diary(notes: seq<Json>, lastAiLine: string)

  datatype DiaryDoc = DiaryDoc(userId: int, notes: seq<Json>, lastAiLine: string)

  /** A relational config cell: a setting's text, or the memory document that
      `sync_memory_to_db` stores as its JSON text under `memory_backup`. */
  datatype ConfigValue = Text(text: string) | MemoryBackup(doc: Memory)

  datatype ConfigDoc = ConfigDoc(key: string, value: string)

  datatype Submission = Submission(gameType: string, content: string, time: nat)

  /** The PostgreSQL tables; `messages` and `game_submissions` in id order. */
  datatype Relational = Relational(
    users: map<int, User>,
    messages: seq<Message>,
    config: map<string, ConfigValue>,
    diary: map<int, Diary>,
    games: seq<Submission>)

  /** The TinyDB tables of db.json, each in insertion order. */
  datatype Tiny = Tiny(
    users: seq<User>,
    messages: seq<Message>,
    config: seq<ConfigDoc>,
    diary: seq<DiaryDoc>,
    games: seq<Submission>)

  const MemoryBackupKey: string := "memory_backup"
  /** The mood of a new user record, and the mood every chat turn stores. */
  const DefaultMood: string := "loving"
  const DefaultDiaryLine: string := "Thinking of you... \U{2728}"

  function DefaultUser(id: int): User { User(id, "", DefaultMood) }
  function DefaultDiary(): Diary { Diary([], DefaultDiaryLine) }

  // The key fields the TinyDB queries select on.
  function UserId(u: User): int { u.id }
  function Sender(m: Message): int { m.userId }
  function ConfigKey(c: ConfigDoc): string { c.key }
  function DiaryOwner(d: DiaryDoc): int { d.userId }

  /** The sort key of a message: its time, with a missing one ('' in the source) first. */
  function StampKey(m: Message): int {
    match m.stamp
    case At(t) => t
    case Unstamped => -1
  }

  function SubmittedAt(s: Submission): int { s.time }
}
