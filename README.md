# Persistence layer of the tutoring chat back end, in Dafny

This project models the PostgreSQL persistence helpers in `database.py` of a chat back end. Students
talk to AI personas in named sessions. Three tables hold the data:

- **students**: the email is the identifier. `last_login` is refreshed on every sign-in.
- **sessions**: one per conversation, owned by a student, with its persona (`ai_client_type`), a
  creation time and the status `'active'`.
- **messages**: each holds its sender (`sender_type`) and its text, plus a per-session
  `sequence_number` and a creation time.

Each helper opens a connection, runs its SQL statements, and commits, or rolls back on an error. The
model treats each helper as one atomic step on an in-memory store:

- `Schema` holds the rows as datatypes.
- `Queries` holds every SELECT as a function over sequences: a lookup by key, a filter in table order,
  a count, a maximum, and ORDER BY as a stable insertion sort from `Ordering`.
- `Store` holds the three writing helpers. Each is a transition function on a `DbState` value (the
  tables, a logical clock, and the next serial keys). Each also appears as a method of the class
  `Store.Database`, whose fields are the tables and counters. Every method is tied to its function by
  `ensures (State(), r) == F(old(State()), ...)` and keeps the invariant `Consistent`.
- `Integrity` states the keys and foreign keys of the schema, plus two facts the helpers maintain:
  - sessions are stored in creation order;
  - within every session, sequence numbers run 1, 2, 3, ….
- `Naming` compares the three ways the code builds a session's display name `Session-n`:
  - at creation;
  - in the newest-first listing;
  - in the single-session lookup.
- `LookupCounterexample` replays a run, for any email, name, persona and two distinct ids, in which the lookup disagrees with creation.

`CURRENT_TIMESTAMP` becomes a logical clock. It ticks once per committed write, so the creation times
of successive writes strictly increase. The UUID that `create_session` generates is a parameter
`uuid`. If it collides with an existing session id, the insert is refused by the primary key.

The table definitions are not in `database.py`. The keys and foreign keys above come from the
project's documented schema:

- a unique email;
- the UUID primary key of `sessions`;
- `sessions.student_id` references `students`;
- `messages.session_id` references `sessions`.

A violated key or foreign key makes the INSERT fail. The transaction then rolls back, so the model
returns `Err(...)` and leaves the state unchanged.

The project's documentation asks for an empty email to be rejected. The code does no validation, and
the model follows the code: any email is accepted.

## Model

| member | source | states |
|---|---|---|
| Decimal.ParseToDecimal | database.py:122 | the decimal text of n that the f-string writes reads back as n |
| Decimal.ToDecimal | database.py:122 | `str()` of a count, as in every `Session-{n}` f-string (also lines 235 and 293): a non-empty string of decimal digits, with a leading `0` exactly when the count is 0, and the single digit itself for a count below 10 |
| Decimal.SessionNameParses | database.py:122 | `Session-n` is the prefix `Session-` followed by digits that read back as n |
| Decimal.SessionNameInjective | database.py:122 | `Session-a` and `Session-b` are equal exactly when a = b |
| Decimal.SessionName | database.py:122 | the f-string `Session-{n}`: the prefix `Session-` followed only by decimal digits |
| Ordering.SortBy | database.py:181 | ORDER BY returns the rows in ascending key order, as a permutation of the input |
| Ordering.SortByMembers | database.py:181 | every sorted row is an input row and every input row is in the sorted result |
| Ordering.SortByOfStrictlyAscending | database.py:181 | rows already strictly ascending in the key come back unchanged |
| Ordering.SortByOfStrictlyDescending | database.py:223 | rows strictly descending in the key come back reversed |
| Queries.FindStudent | database.py:73-77 | the lookup by email returns the first row with that email; None exactly when no student has it |
| Queries.FindStudentFirst | database.py:73-77 | the first row with the email is the row the lookup returns |
| Queries.SessionsOfStudent | database.py:117-121 | the counted rows are exactly the student's sessions, never more than the table holds |
| Queries.OwnedSessions | database.py:218-221 | the join on email keeps exactly the sessions whose student has that email |
| Queries.CreationNumber | database.py:117-122 | the number in the name of the session stored at index k lies between 1 and k + 1 |
| Queries.SessionExists | database.py:255-260 | `session_exists` is true exactly when a session row with that id is stored; it is a query and changes nothing |
| Queries.MessagesOf | database.py:178-180 | the fetched messages are exactly the session's messages; the result is empty exactly when the session has none |
| Queries.MessagesOfAppend | database.py:155-161 | an inserted message extends its own session's message list by itself and leaves every other session's list unchanged |
| Queries.MaxSeqNo | database.py:149 | the maximum bounds every number of the session and is attained, or is 0 when the session has no messages |
| Queries.Entries | database.py:189-196 | entry i of the result carries row i's sender as role, its content, and its time |
| Queries.ConversationHistory | database.py:176-196 | one entry per message of the session; empty exactly when it has none; each entry comes from one of its messages |
| Queries.UserSessionRows | database.py:211-228 | one row per session of the email, newest first; each row comes from such a session with that session's message count; every such session appears, with count 0 when it has no messages |
| Queries.ToRow | database.py:213-222 | a listed row keeps the session's id, persona and creation time; its `COUNT(m.message_id)` from the left join is at most the table size, and 0 exactly when no message belongs to the session |
| Queries.NameSessions | database.py:231-240 | entry idx is named `Session-(len - idx)` and keeps its row's fields; names 1..N are each used exactly once, and no two entries share a name |
| Queries.NamedFromTheEnd | database.py:231-240 | naming entry idx `Session-(len - idx)` gives `Session-n` to the entry n places from the end, and no two entries the same name |
| Queries.GetUserSessions | database.py:211-240 | one summary per session of the email, in the query's order, entry idx named `Session-(len - idx)`, all names distinct |
| Queries.CountOwnedWithin | database.py:280-282 | the subquery counts at most the email's N sessions, and at least one when some session lies within the bound |
| Queries.FindOwnedSession | database.py:283-290 | the outer query finds the first session with that id owned by the email; None exactly when there is none |
| Queries.NameByCount | database.py:277-295 | a name exactly when the session belongs to a student with that email, and then `Session-n` with 1 <= n <= N |
| Queries.GetSessionNameAsWritten | database.py:277-295 | `get_session_name` as written: None unless the email owns the session, otherwise `Session-n` with 1 <= n <= N |
| Queries.GetSessionName | database.py:277-295 | the corrected lookup, counting at or before: the same None/Some contract |
| Integrity.ContiguousNumbering | database.py:148-152 | in well-numbered tables, the j-th message of every session has number j + 1 |
| Integrity.MaxSeqNoIsCount | database.py:149 | in well-numbered tables, the session's maximum number equals its message count |
| Integrity.HistoryInAppendOrder | database.py:176-196 | in well-numbered tables, the history lists the session's messages in append order |
| Integrity.HistoryAppend | database.py:155-161 | appending the next-numbered message keeps the tables well numbered and extends that session's history by exactly its entry |
| Store.UpsertStudent | database.py:73-97 | sessions and messages are unchanged, the clock ticks, and at most one student is inserted, only when the email is unknown; afterwards the lookup finds a row with the returned id and last_login = now |
| Store.UpsertTouches | database.py:79-85 | for a known email, the commit refreshes exactly that row's last_login to now, changes nothing else, and returns the stored id |
| Store.UpsertRegisters | database.py:87-97 | for an unknown email, the commit appends one student with the next serial id, created and logged in now, and returns that id |
| Store.TouchedConsistent | database.py:79-85 | refreshing a stored student's last_login keeps keys, foreign keys and clock bounds |
| Store.RegisteredConsistent | database.py:87-97 | inserting a student under an email no row has keeps keys unique, emails included |
| Store.UpsertStudentKeepsConsistent | database.py:73-97 | under sequential calls, keys stay unique (emails included) and foreign keys stay satisfied |
| Store.UpsertStudentTwice | database.py:73-85 | a second call with the same email returns the same id, inserts nothing, keeps the stored name, and moves last_login strictly forward |
| Store.InsertSession | database.py:114-133 | a taken id is refused with DuplicateSessionId and an unknown student with UnknownStudent, leaving nothing changed; otherwise exactly one 'active' session created now is appended, students and messages are unchanged, and the result is `(uuid, Session-(count + 1))` |
| Store.InsertSessionStored | database.py:114-133 | with a fresh id and a stored student, the commit appends exactly the 'active' session created now and returns `(uuid, Session-(count + 1))` |
| Store.InsertedConsistent | database.py:124-131 | appending a session of a stored student under a fresh id, created now, keeps the database consistent |
| Store.InsertSessionKeepsConsistent | database.py:124-131 | the insert keeps session ids unique, foreign keys satisfied and sessions in creation order |
| Store.AppendMessage | database.py:148-161 | for an unknown session, the result is UnknownSession and nothing changes; otherwise exactly one message is added and the clock ticks |
| Store.AppendMessageStored | database.py:148-161 | for a stored session, the commit appends exactly one message with the next serial id, number MAX + 1, the given sender and content, created now |
| Store.AppendedConsistent | database.py:148-161 | appending the next-numbered message of a stored session under the next serial id keeps the database consistent |
| Store.NextMessageAppended | database.py:148-161 | appending a message numbered one past its session's count keeps numbering contiguous, extends that session's messages and history by it, and leaves every other session's messages unchanged |
| Store.AppendMessageKeepsConsistent | database.py:148-161 | the append keeps message ids unique, the foreign key satisfied and every session numbered 1, 2, 3, … |
| Store.AppendMessageNumbering | database.py:148-161 | one append gives the session exactly one new message, numbered one past its count, with that sender and content; the history grows by that entry; other sessions are untouched |
| Store.AppendTurns | database.py:148-161 | `save_message` called once per turn on one session: students and sessions are unchanged; for a stored session the messages grow by one per turn and the clock ticks once per turn; for an unknown session every call is refused and nothing changes |
| Store.AppendTurnsNumbersOneToN | database.py:148-161 | from a session with no messages, n appends yield numbers exactly 1..n in append order, each with its turn's sender and content |
| Store.AppendTurnsLeavesOthers | database.py:148-161 | a conversation in one session leaves every other session's messages, and the sessions table, unchanged |
| Store.EntriesOfTurns | database.py:189-196 | messages carrying given turns read back as one history entry per turn with that turn's role and content |
| Store.AppendTurnsHistory | database.py:176-196 | after such a conversation, the history lists every turn in order, sender as role and content unchanged |
| Store.RowCountAfterAppend | database.py:213-222 | each `save_message` to a stored session raises that session's `COUNT(m.message_id)` in the listing by exactly one and leaves every other session's count unchanged |
| Store.RowCountAfterTurns | database.py:213-222 | a session that had no messages is listed, after n `save_message` calls on it, with `COUNT(m.message_id)` = n |
| Store.AppendTurnsKeepsConsistent | database.py:148-161 | every state reached by `save_message` calls on one session from a consistent state is consistent; interleaved calls on several sessions are covered call by call by Store.AppendMessageKeepsConsistent |
| Store.Database.GetOrCreateStudent | database.py:58-97 | the object's new state and result are those of `UpsertStudent`, and the invariant is kept |
| Store.Database.CreateSession | database.py:99-133 | the object's new state and result are those of `InsertSession`, and the invariant is kept |
| Store.Database.SaveMessage | database.py:135-161 | the object's new state and result are those of `AppendMessage`, and the invariant is kept |
| Naming.OwnedIsByStudentId | database.py:218-221 | with unique emails, the join on a student's email selects exactly that student's sessions |
| Naming.SessionsOfStudentAppend | database.py:117-121 | counting a student's sessions distributes over concatenation of the table |
| Naming.SessionsOfStudentInOrder | database.py:117-121 | a student's sessions, in table order, are in creation order |
| Naming.OwnedPosition | database.py:117-122 | the session created as `Session-c` is entry c of its owner's sessions in creation order |
| Naming.ListingAgreesWithCreation | database.py:223-235 | the session created as `Session-c` is the listing entry at index N - c, which the loop names `Session-c` |
| Naming.CountSplit | database.py:280-282 | the counting subquery distributes over concatenation of the table |
| Naming.CountAtOrBefore | database.py:280-282 | counting a student's sessions created at or before the target gives the target's creation number c |
| Naming.CountAtOrAfter | database.py:280-282 | counting a student's sessions created at or after the target gives N - c + 1 |
| Naming.FindOwnedSessionAt | database.py:283-290 | with unique session ids, the outer query finds the stored session |
| Naming.LookupAgreesWithCreation | database.py:277-293 | the corrected lookup returns the name `create_session` gave the session |
| Naming.CreationNumberStable | database.py:117-122 | rows stored later do not change a stored session's creation number |
| Naming.CreatedNameIsLookedUp | database.py:277-293 | on a consistent database, after a successful `create_session`, the corrected lookup of the new id under the student's email returns exactly the name `create_session` returned |
| Naming.LookupAsWrittenNumber | database.py:280-293 | the lookup as written returns `Session-k` where k = N + 1 - c, the creation number mirrored |
| Naming.NameByCountAt | database.py:277-293 | the lookup of a session owned by that email finds it and names it by the count of that student's sessions within the bound of its creation time |
| Naming.LookupAsWrittenAgreesOnlyAtMedian | database.py:280-293 | the lookup as written agrees with creation exactly when 2c = N + 1 |
| Naming.MedianByCount | database.py:280-293 | a name built from a count that mirrors the creation number c among N equals `Session-c` exactly when 2c = N + 1 |
| LookupCounterexample.TwoSessionsRun | database.py:99-133 | from an empty store, for any email, name, persona and two distinct ids, one sign-in and two `create_session` calls store exactly one student and two sessions and return `Session-1` and then `Session-2` |
| LookupCounterexample.LoginStep | database.py:73-97 | the first sign-in on an empty store registers the student with id 1 at time 1 |
| LookupCounterexample.FirstSessionStep | database.py:114-133 | that student's first `create_session` stores an 'active' session at time 2 and returns `Session-1` |
| LookupCounterexample.SecondSessionStep | database.py:114-133 | a second `create_session` under another id stores its session at time 3 and returns `Session-2` |
| LookupCounterexample.TwoSessionTables | database.py:277-293 | on one student's two sessions, created in order under distinct ids, the keys hold, the first is owned by the email, has creation number 1, and the email owns two sessions |
| LookupCounterexample.LookupOnTwoSessions | database.py:277-295 | on those tables, the lookup as written names the first session `Session-2`, and the corrected one names it `Session-1` |
| LookupCounterexample.NameLookupReversesCreation | database.py:280-282 | on that run, `get_session_name` as written disagrees with the name `create_session` returned |

## Left out

- Connection handling is not modelled: `get_db_connection`'s connect, commit, rollback and close (database.py:30-52). Each helper is one atomic step that either applies all its writes or none.
- `test_connection` (database.py:301-311) only opens a connection and prints; it has no state to model.
- Concurrency is not modelled. Calls are sequential, so the read-then-insert races in `get_or_create_student` and `save_message` do not arise.
- Loading the environment and building the database URL (database.py:13-24) is configuration.
- UUID generation (database.py:114) is randomness. `uuid` is a parameter of `InsertSession`; a collision is modelled as the primary-key error.
- `strftime` formatting of timestamps (database.py:193, 236) is left out. Times are logical clock values, returned unformatted.
- The clock ticks on every committed write, so no two writes share a timestamp. The real `CURRENT_TIMESTAMP` can repeat, and ties then change the counts in `get_session_name`; that case is not modelled.
- `app.py` and the Gradio front end are not part of this model. `app.py` is a stand-alone Groq chat demo. The Gradio front end calls an HTTP back end and keeps the current user and session in globals. Neither touches the tables.
- Store.UpsertStudent: the UPDATE targets the row the lookup found, while the SQL updates every row with that `student_id`. The two coincide because student ids are unique, which `Consistent` keeps.
- Queries.GetUserSessions: the `created_at` of each summary is the clock value, not the formatted string.

## Findings

| source | as written | input that shows it | evidently intended | confidence | as-written member | corrected member |
|---|---|---|---|---|---|---|
| database.py:280-282 | `get_session_name` numbers a session by counting the student's sessions created at or after it (`s2.created_at >= s.created_at`), so the newest is `Session-1` and the oldest `Session-N` | one student signs in on an empty store and creates two sessions with distinct ids id1 then id2: `create_session` returns `Session-1` for id1, but `get_session_name(id1, email)` returns `Session-2` | count the sessions created at or before it, so that the name matches the one `create_session` returned and the one `get_user_sessions` shows | not executed | Naming.LookupAsWrittenAgreesOnlyAtMedian, LookupCounterexample.NameLookupReversesCreation | Queries.GetSessionName, Naming.LookupAgreesWithCreation |
