# A chat server over two stores, modelled in Dafny

The server is a small Flask application with one owner account. It sends each chat
message to a cascade of three language-model providers and keeps a rolling memory of
the conversation. Every record is kept twice, once in PostgreSQL (the "relational"
store) and once in a TinyDB file. An admin can edit a process-wide memory document
(`MEMORY`, persisted in memory.json), clear the owner's data, delete old messages and
list game submissions.

The model keeps the decision logic under that plumbing and proves what it guarantees:

- `Cascade`: the provider cascade (groq, then gemini, then openai), including Python's
  `str.strip()`. The route's step-by-step `reply` variable becomes the method `Generate`.
- `ChatTurn`: the part-of-day partition and the memory capped to its last 5000 characters.
- `Records`, `TinyTable`, `Sorting`, `Seqs`, `History`: values for the records and the
  tables of both stores. TinyDB tables are sequences of documents in insertion order,
  with `search`, `get`, `upsert` and `remove`. Also the two ways `get_messages` and
  `admin_games_submissions` order and limit what they return.
- `Persistence`: each database helper as a function from both stores to its result and
  both stores after it, for one outcome of its relational call.
- `Retention`: the range-to-cutoff mapping of the retention request, the relational
  DELETE and its row count, and the TinyDB loop exactly as written.
- `MemoryDocument`: the memory document and the two admin edits.
- `Server.App`: a class whose fields are the two stores, `MEMORY` and the memory.json
  file. Its methods change them in place. Each store-helper method is proved equal to the
  `Persistence` function of the same name, and `Chat` to `Server.ChatEffect`. The memory
  methods (`SaveMemory`, `AdminMemoryGet`, `AdminMemoryUpdate`, `AdminMemorySet`) state
  their effect on `MEMORY` and memory.json directly. The retention request's TinyDB loop
  is a `while` loop over the snapshot it iterates.

Each relational call is a parameter `Conn`:

- `Unreachable`: `get_db_connection()` returned None.
- `Up`: the statements run and commit.
- `Fails`: a statement or the commit raises.

Provider calls are a parameter `Outcome`:

- `NotConfigured`: the client is None.
- `Raises`: the call raises.
- `Returns(text)`: the call returns `text`.

Clocks are integer parameters (`now`, `hour`). Whether memory.json can be written is a
boolean parameter. What memory.json holds is a field of the class.

Each helper handles a relational error in one of three ways:

- `get_user_data`, `get_config`, `update_user_data`, `set_config`, `admin_diary_delete`,
  `save_game_submission` and `admin_games_submissions` have no `except` around their
  relational call. A relational error escapes as an exception (`Raised`), and the TinyDB
  step after it never runs.
- `get_messages`, `get_diary`, `save_message` and `update_diary` catch the error, and
  they fall back to TinyDB or write it anyway.
- `repair_clear_user` and `delete_old_messages` catch the error and answer with an
  error response (`DatabaseError`) before TinyDB is touched.

## Model

| member | source | states |
|---|---|---|
| Cascade.Generate | main.py:361-386 | the reply is `Answer` of the three outcomes in order groq, gemini, openai, and the providers called are exactly `Called` of them, none twice |
| Cascade.AnswerIsFirstUsable | main.py:361-386 | the reply is the stripped text of the first provider that is configured, does not raise and returns non-blank text; with no such provider it is the fixed fallback; it is never empty, so the route never answers with an error |
| Cascade.CalledUpToWinner | main.py:361-383 | the winning provider and every configured provider before it are called |
| Cascade.CalledStopsAtWinner | main.py:361-383 | no provider after the winner is called |
| Cascade.Answer | main.py:361-386 | the cascade's answer is never the empty string |
| Cascade.Called | main.py:361-383 | no more calls than providers, each to a provider of the cascade |
| Cascade.CalledAllWhenNoWinner | main.py:361-385 | when no provider wins, every configured provider is called before the fallback |
| Cascade.SkipsUnconfigured | main.py:363-377 | a provider whose client is missing is never called |
| Cascade.CalledDistinct | main.py:361-383 | over distinct providers no provider is called twice |
| Cascade.StagesOfThree | main.py:361-386 | three guarded steps over any three providers give the cascade's answer and list of calls |
| Cascade.ThreeSteps | main.py:361-386 | the three guarded `if not reply` steps composed give the cascade's answer and list of calls |
| Cascade.Attempt | main.py:363-368 | one guarded step: a provider is tried only while `reply` is falsy and its client exists; a raise leaves `reply` as it was |
| Cascade.Strip | main.py:366 | `str.strip()` returns a slice that neither begins nor ends with whitespace |
| Cascade.StripIsTrimmedSlice | main.py:366 | the stripped text is `s[i..j]` with only whitespace outside it |
| Cascade.StripEmptyIffAllSpace | main.py:366 | stripping leaves the empty (falsy) string exactly when the text is all whitespace |
| ChatTurn.TimeGreeting | main.py:341 | the hours 0-23 split into morning 5-11, afternoon 12-16, evening 17-20 and night otherwise, each name in both directions |
| ChatTurn.RollingMemory | main.py:389 | the stored memory is the last `min(5000, n)` characters of `memory + "\nU: " + msg + "\nB: " + reply`; at most 5000 long; the whole text when that fits |
| ChatTurn.TakeLastAbsorbs | main.py:389 | appending after a cut and cutting again equals one cut at the end |
| ChatTurn.ReplayKeepsLatest | main.py:389 | after one or more turns, the memory is the last 5000 characters of the first memory followed by every turn's text |
| Server.ChatEffect | main.py:324-392 | a raising read or write gives an error with both stores unchanged; otherwise the result is the cascade's (never empty) answer, the owner's TinyDB record holds the rolling memory, at most 5000 long, with mood "loving", the relational row changes exactly when the write is `Up`, the message is appended to TinyDB always and to PostgreSQL exactly when the save is `Up`, other users' records are unchanged, no other table changes, and well-formed stores stay well-formed |
| Server.ChatTurnUp | main.py:334-390 | over a working database, reading the owner after a chat gives the rolling memory and the mood "loving" |
| Server.ChatTurnsKeepWindow | main.py:334-390 | two chats in a row store the last 5000 characters of the first memory followed by both turns' text |
| Server.TwoTurns | main.py:389 | two rolling-memory updates equal one `Replay` of both turns and one final cut |
| History.RelationalHistory | main.py:202-206 | `ORDER BY timestamp DESC LIMIT n` reversed is the user's latest `n` rows, or all of them, ascending |
| History.TinyHistory | main.py:215-218 | sorted ascending then `[-limit:]` is the user's latest `limit` documents, or all of them, ascending |
| History.TakeLastOfSortedIsLatest | main.py:218 | the last `limit` of an ascending sort are sorted, drawn from the pool, as many as the window allows, and nothing left out is newer than anything taken |
| History.HistoryPathsAgree | main.py:197-222 | on the same messages with distinct timestamps, the relational and TinyDB paths return the same list |
| History.RelationalSubmissions | main.py:639-640 | exactly `min(100, n)` rows, newest first, drawn from the table, and no row left out is newer than a row returned |
| History.PrefixIsNewest | main.py:639-640 | the first `n` of a newest-first sort are sorted, drawn from the table, and no row left out is newer than one taken |
| History.TinySubmissions | main.py:645 | `all()[-100:][::-1]`: the last 100 documents inserted, last inserted first |
| History.SubmissionPathsAgree | main.py:631-649 | when TinyDB holds the same submissions in time order with distinct times, both paths list the same 100 |
| TinyTable.Select | main.py:215 | `search` returns exactly the documents with the key, drawn from the table |
| TinyTable.First | main.py:159 | `get` finds a document exactly when `search` does, and then it is the first match |
| TinyTable.Upsert | main.py:170 | `upsert` keeps the table's length when the key exists and adds one otherwise; the key then reads back as the new document |
| TinyTable.UpsertSelect | main.py:244 | after an upsert the key's documents are all the new one, at least one, and other keys' documents are unchanged |
| TinyTable.UpsertTwice | main.py:244 | upserting the same key twice is the second upsert alone |
| TinyTable.Remove | main.py:580-582 | `remove` keeps exactly the documents without the key |
| TinyTable.RemoveSelect | main.py:580-582 | after a remove the key has no documents and other keys' documents are unchanged |
| Persistence.GetUserData | main.py:149-160 | a connected row wins; otherwise the TinyDB document; otherwise the default record; a relational error escapes |
| Persistence.GetUserDataDefault | main.py:160 | with no record in either store the default `{id, memory: "", mood: "loving"}` comes back |
| Persistence.UpdateUserData | main.py:162-170 | a raising relational call escapes and TinyDB is not written; otherwise TinyDB holds exactly the new record for the id, others unchanged, and the relational row is replaced when connected |
| Persistence.UserWriteThenRead | main.py:149-170 | a write is read back unless a connected read meets a relational row the write could not reach, which is then returned unchanged |
| Persistence.SaveMessage | main.py:172-195 | the TinyDB insert always happens; the relational insert only when connected; other users' messages in both stores are unchanged |
| Persistence.GetMessages | main.py:197-222 | a non-empty connected relational result wins and is the latest `limit` ascending; otherwise the TinyDB documents by the same rule; with neither, `[]` |
| Persistence.FullHistoryIsSorted | main.py:197-222 | with no limit the history is the whole chosen pool (PostgreSQL's when connected and non-empty, else TinyDB's) in ascending time order |
| Persistence.ChatHistory | main.py:318-321 | `/chat/history` is the latest 20 messages of the chosen pool, or all of them, ascending |
| Persistence.MirroredReadsAgree | main.py:197-222 | when both stores hold the same messages, every connection outcome reads the same history |
| Persistence.SaveMessageMirrors | main.py:172-195 | a save that reaches PostgreSQL keeps the stores mirrored; one that does not leaves TinyDB one message ahead |
| Persistence.GetConfig | main.py:224-234 | a connected cell wins; otherwise the TinyDB value; otherwise the caller's default; a relational error escapes |
| Persistence.SetConfig | main.py:236-244 | a raising relational call escapes and TinyDB is not written; otherwise the key reads back from TinyDB and other keys are untouched |
| Persistence.SetConfigTwice | main.py:224-244 | after setting `k` to `v1` then `v2`, reading `k` gives `v2` and TinyDB holds exactly one document for `k` |
| Persistence.SyncMemoryToDb | main.py:96-112 | a connected sync stores memory.json's document, or the default one, under `memory_backup` and changes no other key; otherwise nothing changes |
| Persistence.SyncThenGetConfig | main.py:96-112 | after a connected sync the backup reads back as the file's document |
| Persistence.GetDiary | main.py:246-270 | a connected row wins; otherwise the TinyDB document; otherwise the default diary; nothing is raised |
| Persistence.UpdateDiary | main.py:272-293 | the TinyDB upsert always happens, others unchanged; the relational row only when connected |
| Persistence.DiaryWriteThenRead | main.py:246-293 | a diary write is read back unless a connected read meets an older relational row |
| Persistence.AdminDiaryDelete | main.py:520-533 | a raising relational call escapes before TinyDB; otherwise the owner's TinyDB diary is gone, others unchanged, and the relational row is deleted when connected |
| Persistence.DiaryDeleteThenRead | main.py:520-533 | after a delete the default diary is read, unless a connected read meets a row the delete could not reach |
| Persistence.RepairClearUser | main.py:561-584 | a relational failure is an error and nothing changes; otherwise the owner's messages, user record and diary are gone from TinyDB (and from PostgreSQL when connected), every other id's messages, user documents and diary documents are untouched in both stores, and config and games are untouched |
| Persistence.ClearThenRead | main.py:561-584 | after a clear the owner reads back as new: the default record, no history and the default diary |
| Persistence.DeleteOldMessages | main.py:651-709 | an unknown range is an error and nothing changes; a relational failure is an error and TinyDB is untouched; otherwise PostgreSQL keeps the surviving rows, the count is the rows removed (0 when unreachable), and TinyDB gets the loop's effect as written |
| Persistence.DeleteAllThenRead | main.py:651-709 | "all" over a store the read can see leaves the owner no history |
| Persistence.DeleteOldSparesOthers | main.py:651-709 | no range removes another user's messages from either store |
| Persistence.SaveGameSubmission | main.py:613-629 | a raising relational call escapes before TinyDB; otherwise the submission is appended to TinyDB, and to PostgreSQL when connected |
| Persistence.GamesSubmissions | main.py:631-649 | a raising relational call escapes; non-empty connected rows win, exactly `min(100, n)` of them, newest first, with no row left out newer than one returned; otherwise the last 100 TinyDB documents, last inserted first |
| Persistence.GamesPathsAgree | main.py:631-649 | on the same submissions inserted in time order, the fallback returns what PostgreSQL would |
| Retention.Cutoff | main.py:663-675 | "all" gives no cutoff; "30days", "7days", "1day" and "session" give `now` minus 30, 7 and 1 days and 30 minutes; any other string is an error, in both directions |
| Retention.CutoffsOrdered | main.py:663-675 | a longer range gives an earlier cutoff, and every cutoff lies before `now` |
| Retention.Surviving | main.py:682-687 | the DELETE keeps exactly the rows that are not the user's rows older than the cutoff (all of the user's for "all") |
| Retention.DeletedCount | main.py:688 | `rowcount` is exactly the number of rows that disappear, and at most the number of the user's rows |
| Retention.DeleteAllCountsUser | main.py:682-688 | with "all" the count is every row of the user, and the survivors are the other users' rows |
| Retention.SurvivingSparesOthers | main.py:682-687 | the DELETE never removes another user's rows |
| Retention.TinyAsWritten | main.py:695-707 | the loop either leaves the table as it was or removes every document of the owner, and never adds one |
| Retention.TriggersBeforeNext | main.py:698-706 | one more loop step triggers exactly when it or an earlier step did |
| Retention.TinyAsWrittenEffect | main.py:695-707 | as written, other users' documents are kept; the owner's are all removed when some document in the table, anyone's, is older than the cutoff or the range is "all"; otherwise the table is unchanged |
| Retention.TinyIntendedEffect | main.py:682-688 | the intended TinyDB effect removes exactly what the relational DELETE removes, and agrees with the loop for "all" |
| Retention.AsWrittenRemovesRecentMessages | main.py:695-707 | a one-day-old message survives the relational DELETE for "7days" but the TinyDB loop removes it |
| MemoryDocument.DefaultMemory | main.py:70-75 | the document used when memory.json cannot be read, with empty admin instructions |
| MemoryDocument.Merged | main.py:470-471 | exactly the incoming keys are overwritten, `last_updated` is stamped, and every other key keeps its value |
| MemoryDocument.MergedTwice | main.py:470-471 | applying the same update later only moves the stamp |
| MemoryDocument.WithInstructions | main.py:487-488 | `admin_instructions` and `last_updated` are set and every other key keeps its value |
| Server.App.constructor | main.py:114-146 | start-up syncs memory.json to a reachable PostgreSQL, then `MEMORY` is what memory.json holds, or the default document |
| Server.App.UpdateUserData | main.py:162-170 | in place: the stores become what `Persistence.UpdateUserData` gives; `MEMORY` and memory.json are unchanged |
| Server.App.SaveMessage | main.py:172-195 | in place: the stores become what `Persistence.SaveMessage` gives |
| Server.App.SetConfig | main.py:236-244 | in place: the stores become what `Persistence.SetConfig` gives |
| Server.App.UpdateDiary | main.py:272-293 | in place: the stores become what `Persistence.UpdateDiary` gives |
| Server.App.AdminDiaryDelete | main.py:520-533 | in place: the stores become what `Persistence.AdminDiaryDelete` gives for the owner |
| Server.App.RepairClearUser | main.py:561-584 | in place: the stores become what `Persistence.RepairClearUser` gives for the owner |
| Server.App.DeleteOldMessages | main.py:651-709 | the loop over the table's snapshot removes all the owner's documents the first time a document triggers; the stores end as `Persistence.DeleteOldMessages` gives |
| Server.App.SaveGameSubmission | main.py:613-629 | in place: the stores become what `Persistence.SaveGameSubmission` gives |
| Server.App.SaveMemory | main.py:77-84 | memory.json holds `MEMORY` exactly when the write succeeds |
| Server.App.SyncMemoryToDb | main.py:96-112 | in place: the relational config becomes what `Persistence.SyncMemoryToDb` gives for memory.json |
| Server.App.AdminMemoryGet | main.py:458-463 | `MEMORY` is reloaded from memory.json, or the default document |
| Server.App.AdminMemoryUpdate | main.py:465-476 | `MEMORY` is merged and stamped even when the save fails; after a successful save memory.json holds it and the backup is synced; after a failed one it is an error and the stores are unchanged |
| Server.App.AdminMemorySet | main.py:478-493 | falsy instructions are rejected and nothing changes; otherwise as the update with the single key `admin_instructions`, synced only after a successful save |
| Server.App.Chat | main.py:324-392 | in place: the route's result and stores are those of `ChatEffect`; the providers called are those of the cascade, none when the read raises |

## Left out

- Flask routing, sessions, passwords and the JSON response shapes. The admin or user
  session is taken as given. `/chat/history` is `Persistence.ChatHistory`. The other
  routes that only read (`/repair/history`, `/admin/diary`) return what the helpers they
  call return.
- The drivers (psycopg2, TinyDB storage, the provider SDKs) and `init_ai_clients`. Each
  call is an outcome parameter instead.
- SQL DDL in `init_db`. Only its sync of `memory_backup` is modelled.
- Reading and writing memory.json, and JSON serialisation. `save_memory` is a success
  flag. A write that fails part-way is taken to leave the file as it was. The relational
  `memory_backup` cell holds the document itself, not its JSON text.
- Clocks and ISO timestamps. Time is an integer number of seconds, and ISO strings of one
  format are assumed to order as their times do. A timestamp that is missing is
  `Unstamped`. It sorts first, as Python's `''` key does in `get_messages`, and never
  triggers the retention loop. On the PostgreSQL path `ORDER BY timestamp DESC` puts NULLs
  first, so after the reversal they would come last; the model sorts them first on both
  paths. A timestamp that is present but does not parse would sort by its text in Python;
  the model has no such value. The app's own writes always store a timestamp of one
  format, so neither case arises from them.
- JSON numbers that are floats. A `Json` value in the model is null, a boolean, an
  integer, a string, an array or an object.
  `last_updated` is stored as that integer, not as ISO text.
- The relational store stamps rows with its own clock. The model uses the same `now` for
  both stores, so a row and its TinyDB copy carry the same time.
- Row ids of `messages` and `game_submissions`. SQL leaves the order of equal timestamps
  open, so the agreement lemmas assume distinct timestamps. For the same reason the
  stability of Python's `sorted` is not stated: the model's insertion sort is not proved
  to keep equal timestamps in their input order.
- A SQL NULL `memory` column read by the chat route. The model's user record always has
  a string memory.
- Negative `limit` values. The model's limit is a `nat`, and 0 stands for the falsy limit.
- The call to `get_messages` inside the chat route, and the prompt text it builds. Both
  only feed the prompt.
- The JSON shape of the default diary and of notes. Notes are a sequence of JSON values.
- Exceptions raised by TinyDB itself. The source catches most of them, and the model
  assumes TinyDB calls succeed.
- A missing `range` field. The route defaults it to "all", so the model takes the string
  the route ends up with.
- The emoji in the fallback reply and the default diary line. They are written as the
  Unicode characters the source evidently means, not as its mis-decoded bytes.
- File uploads, music files and game files: filesystem I/O.
- Logging, the cache-header hook and concurrency on `MEMORY`.

## Findings

| source | as written | input that shows it | evidently intended | confidence | as-written member | corrected member |
|---|---|---|---|---|---|---|
| main.py:695-707 | for each TinyDB document older than the cutoff, of any user, the loop removes every message of the owner | range "7days"; the owner has messages 1, 10 and 40 days old; the relational DELETE keeps the 1-day-old one and counts 2, but the loop removes all three from TinyDB | remove only the owner's documents older than the cutoff, as the relational DELETE does | not executed | Retention.AsWrittenRemovesRecentMessages | Retention.TinyIntendedEffect |

The route's behaviour is the one this model is about, so `Persistence.DeleteOldMessages`
and `Server.App.DeleteOldMessages` keep the loop as written. The corrected TinyDB effect
is `Retention.TinyIntended`, and `Retention.TinyIntendedEffect` proves what it keeps and
that it agrees with the loop for "all".
