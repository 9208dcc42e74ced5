/**
 * The write side: `get_or_create_student`, `create_session` and `save_message`, each one transaction
 * that either commits all its writes or (on a constraint violation) none. The state is the three tables,
 * the logical clock behind CURRENT_TIMESTAMP (one tick per committed write transaction) and the next
 * values of the two serial keys.
 */
module Store {
  import opened Schema
  import opened Decimal
  import opened Queries
  import opened Integrity

  datatype DbState = DbState(tables: Tables, clock: Time, nextStudentId: StudentId, nextMessageId: nat)

  /** The tables are well formed, the serial counters are ahead of every key, and no time lies in the future. */
  predicate Consistent(db: DbState)
  {
    && WellFormed(db.tables)
    && (forall st :: st in db.tables.students ==> st.id < db.nextStudentId && st.lastLogin <= db.clock)
    && (forall s :: s in db.tables.sessions ==> s.createdAt <= db.clock)
    && (forall m :: m in db.tables.messages ==> m.id < db.nextMessageId)
  }

  /** An empty database; serial keys start at 1. */
  const EmptyDb: DbState := DbState(Tables([], [], []), 0, 1, 1)

  // ---------------------------------------------------------------- get_or_create_student

  /**
   * `get_or_create_student(email, name)`: finds the student by email; if there is one, sets its
   * last_login to now and returns its id; otherwise inserts a new student (created_at = last_login = now).
   */
  function UpsertStudent(db: DbState, email: string, name: string): (r: (DbState, StudentId))
    ensures r.0.tables.sessions == db.tables.sessions && r.0.tables.messages == db.tables.messages
    ensures r.0.clock == db.clock + 1
    ensures |r.0.tables.students| == |db.tables.students| + (if FindStudent(db.tables.students, email).Some? then 0 else 1)
    ensures var k := FindStudent(r.0.tables.students, email);
            k.Some? && r.0.tables.students[k.value].id == r.1 && r.0.tables.students[k.value].lastLogin == r.0.clock
  {
    var now := db.clock + 1;
    var students := db.tables.students;
    match FindStudent(students, email)
    case Some(i) =>
      var st := students[i];
      var students' := students[i := st.(lastLogin := now)];
      FindStudentFirst(students', email, i);
      (db.(tables := db.tables.(students := students'), clock := now), st.id)
    case None =>
      var st := Student(db.nextStudentId, email, name, now, now);
      assert forall j :: 0 <= j < |students| ==> students[j] in students;
      FindStudentFirst(students + [st], email, |students|);
      (db.(tables := db.tables.(students := students + [st]), clock := now, nextStudentId := db.nextStudentId + 1), st.id)
  }

  /** The state after a returning student's login at index i. */
  function Touched(db: DbState, i: nat): DbState
    requires i < |db.tables.students|
  {
    var ss := db.tables.students;
    DbState(Tables(ss[i := ss[i].(lastLogin := db.clock + 1)], db.tables.sessions, db.tables.messages),
            db.clock + 1, db.nextStudentId, db.nextMessageId)
  }

  /** The state after registering a new student. */
  function Registered(db: DbState, email: string, name: string): DbState
  {
    var st := Student(db.nextStudentId, email, name, db.clock + 1, db.clock + 1);
    DbState(Tables(db.tables.students + [st], db.tables.sessions, db.tables.messages),
            db.clock + 1, db.nextStudentId + 1, db.nextMessageId)
  }

  /** The upsert of a known email commits `Touched` and returns the stored id. */
  lemma UpsertTouches(db: DbState, email: string, name: string, i: nat)
    requires FindStudent(db.tables.students, email) == Some(i)
    ensures UpsertStudent(db, email, name) == (Touched(db, i), db.tables.students[i].id)
  {
  }

  /** The upsert of an unknown email commits `Registered` and returns the next serial id. */
  lemma UpsertRegisters(db: DbState, email: string, name: string)
    requires FindStudent(db.tables.students, email).None?
    ensures UpsertStudent(db, email, name) == (Registered(db, email, name), db.nextStudentId)
  {
  }

  /** Refreshing a stored student's last_login keeps the database consistent. */
  lemma TouchedConsistent(db: DbState, i: nat)
    requires Consistent(db) && i < |db.tables.students|
    ensures Consistent(Touched(db, i))
  {
    var ss := db.tables.students;
    var st := ss[i].(lastLogin := db.clock + 1);
    StudentTouched(ss, db.tables.sessions, i, st);
    assert Touched(db, i).tables.students == ss[i := st];
    forall x | x in ss[i := st] ensures x.id < db.nextStudentId && x.lastLogin <= db.clock + 1 {
      var j :| 0 <= j < |ss| && ss[i := st][j] == x;
      assert ss[j] in ss;
    }
  }

  /** Registering a student under an email no row has keeps the database consistent. */
  lemma RegisteredConsistent(db: DbState, email: string, name: string)
    requires Consistent(db) && FindStudent(db.tables.students, email).None?
    ensures Consistent(Registered(db, email, name))
  {
    var st := Student(db.nextStudentId, email, name, db.clock + 1, db.clock + 1);
    StudentAdded(db.tables.students, db.tables.sessions, st);
    assert Registered(db, email, name).tables.students == db.tables.students + [st];
  }

  /** Under sequential calls emails stay unique: a row is inserted only for an email no student has. */
  lemma UpsertStudentKeepsConsistent(db: DbState, email: string, name: string)
    requires Consistent(db)
    ensures Consistent(UpsertStudent(db, email, name).0)
  {
    match FindStudent(db.tables.students, email)
    case Some(i) =>
      UpsertTouches(db, email, name, i);
      TouchedConsistent(db, i);
    case None =>
      UpsertRegisters(db, email, name);
      RegisteredConsistent(db, email, name);
  }

  /**
   * Calling `get_or_create_student` twice with one email returns the same id; the second call inserts
   * nothing, keeps the stored name, and moves last_login strictly forward.
   */
  lemma UpsertStudentTwice(db: DbState, email: string, name1: string, name2: string)
    ensures var (db1, id1) := UpsertStudent(db, email, name1);
            var (db2, id2) := UpsertStudent(db1, email, name2);
            var k := FindStudent(db1.tables.students, email).value;
            && id2 == id1
            && |db2.tables.students| == |db1.tables.students|
            && FindStudent(db2.tables.students, email) == Some(k)
            && db2.tables.students[k] == db1.tables.students[k].(lastLogin := db2.clock)
            && db1.tables.students[k].lastLogin < db2.tables.students[k].lastLogin
  {
    var (db1, id1) := UpsertStudent(db, email, name1);
    var k := FindStudent(db1.tables.students, email).value;
    var ss1 := db1.tables.students;
    var db2 := UpsertStudent(db1, email, name2).0;
    var ss2 := db2.tables.students;
    assert ss2 == ss1[k := ss1[k].(lastLogin := db2.clock)];
    assert forall j :: 0 <= j < k ==> ss2[j] == ss1[j];
    FindStudentFirst(ss2, email, k);
  }

  // ---------------------------------------------------------------- create_session

  /**
   * `create_session(student_id, ai_client_type)` with `uuid` standing for the generated id: counts the
   * student's stored sessions, inserts an 'active' session created now, and returns the id with the name
   * `Session-(count + 1)`. The insert is refused when the id is taken or the student unknown.
   */
  function InsertSession(db: DbState, studentId: StudentId, persona: string, uuid: SessionId): (r: (DbState, Result<(SessionId, string)>))
    ensures r.0.tables.students == db.tables.students && r.0.tables.messages == db.tables.messages
    ensures SessionExists(db.tables.sessions, uuid) ==> r == (db, Err(DuplicateSessionId))
    ensures !SessionExists(db.tables.sessions, uuid) && !StudentExists(db.tables.students, studentId) ==> r == (db, Err(UnknownStudent))
    ensures r.1.Ok? <==> !SessionExists(db.tables.sessions, uuid) && StudentExists(db.tables.students, studentId)
    ensures r.1.Ok? ==>
              var ss := r.0.tables.sessions;
              && |ss| == |db.tables.sessions| + 1
              && ss[..|ss| - 1] == db.tables.sessions
              && ss[|ss| - 1] == Session(uuid, studentId, persona, r.0.clock, ActiveStatus)
              && r.0.clock == db.clock + 1
              && r.1.value == (uuid, SessionName(CreationNumber(ss, |ss| - 1)))
              && |SessionsOfStudent(ss, studentId)| == |SessionsOfStudent(db.tables.sessions, studentId)| + 1
  {
    var count := |SessionsOfStudent(db.tables.sessions, studentId)|;
    if SessionExists(db.tables.sessions, uuid) then (db, Err(DuplicateSessionId))
    else if !StudentExists(db.tables.students, studentId) then (db, Err(UnknownStudent))
    else
      var now := db.clock + 1;
      var s := Session(uuid, studentId, persona, now, ActiveStatus);
      var ss := db.tables.sessions + [s];
      assert ss[..|ss| - 1] == db.tables.sessions;
      (db.(tables := db.tables.(sessions := ss), clock := now), Ok((uuid, SessionName(count + 1))))
  }

  /** The state after committing session s. */
  function Inserted(db: DbState, s: Session): DbState
  {
    DbState(Tables(db.tables.students, db.tables.sessions + [s], db.tables.messages), db.clock + 1, db.nextStudentId, db.nextMessageId)
  }

  /** The committed state of a session insert, spelled out. */
  lemma InsertSessionStored(db: DbState, studentId: StudentId, persona: string, uuid: SessionId)
    requires !SessionExists(db.tables.sessions, uuid) && StudentExists(db.tables.students, studentId)
    ensures InsertSession(db, studentId, persona, uuid)
         == (Inserted(db, Session(uuid, studentId, persona, db.clock + 1, ActiveStatus)),
             Ok((uuid, SessionName(|SessionsOfStudent(db.tables.sessions, studentId)| + 1))))
  {
  }

  /** Committing a new session of a stored student, created now under a fresh id, keeps the database consistent. */
  lemma InsertedConsistent(db: DbState, s: Session)
    requires Consistent(db) && !SessionExists(db.tables.sessions, s.id) && StudentExists(db.tables.students, s.studentId)
    requires s.createdAt == db.clock + 1
    ensures Consistent(Inserted(db, s))
  {
    SessionAdded(db.tables.students, db.tables.sessions, db.tables.messages, s);
    assert Inserted(db, s).tables.sessions == db.tables.sessions + [s];
  }

  lemma InsertSessionKeepsConsistent(db: DbState, studentId: StudentId, persona: string, uuid: SessionId)
    requires Consistent(db)
    ensures Consistent(InsertSession(db, studentId, persona, uuid).0)
  {
    var (db', r) := InsertSession(db, studentId, persona, uuid);
    if r.Ok? {
      var ss := db.tables.sessions;
      var s := db'.tables.sessions[|ss|];
      assert db'.tables.sessions == ss + [s];
      SessionAdded(db.tables.students, ss, db.tables.messages, s);
    }
  }

  // ---------------------------------------------------------------- save_message

  /**
   * `save_message(session_id, sender_type, content)`: appends a message numbered one past the session's
   * current maximum (0 when it has none); refused when no such session is stored.
   */
  function AppendMessage(db: DbState, sid: SessionId, sender: string, content: string): (r: (DbState, Result<()>))
    ensures r.0.tables.students == db.tables.students && r.0.tables.sessions == db.tables.sessions
    ensures !SessionExists(db.tables.sessions, sid) <==> r == (db, Err(UnknownSession))
    ensures r.1.Ok? ==> r.0.clock == db.clock + 1 && |r.0.tables.messages| == |db.tables.messages| + 1
  {
    var next := MaxSeqNo(db.tables.messages, sid) + 1;
    if !SessionExists(db.tables.sessions, sid) then (db, Err(UnknownSession))
    else (Appended(db, Message(db.nextMessageId, sid, sender, content, next, db.clock + 1)), Ok(()))
  }

  /** The committed state of an append, spelled out field by field. */
  lemma AppendMessageStored(db: DbState, sid: SessionId, sender: string, content: string)
    requires SessionExists(db.tables.sessions, sid)
    ensures AppendMessage(db, sid, sender, content)
         == (Appended(db, Message(db.nextMessageId, sid, sender, content, MaxSeqNo(db.tables.messages, sid) + 1, db.clock + 1)), Ok(()))
  {
  }

  /** The state after committing message m. */
  function Appended(db: DbState, m: Message): DbState
  {
    DbState(Tables(db.tables.students, db.tables.sessions, db.tables.messages + [m]), db.clock + 1, db.nextStudentId, db.nextMessageId + 1)
  }

  /** Committing the next message of a stored session keeps the database consistent. */
  lemma AppendedConsistent(db: DbState, m: Message)
    requires Consistent(db) && SessionExists(db.tables.sessions, m.sessionId)
    requires m.id == db.nextMessageId && m.seqNo == MaxSeqNo(db.tables.messages, m.sessionId) + 1
    ensures Consistent(Appended(db, m))
  {
    var ms := db.tables.messages;
    MaxSeqNoIsCount(ms, m.sessionId);
    MessageAdded(db.tables.sessions, ms, m);
    assert Appended(db, m).tables.messages == ms + [m];
  }

  lemma AppendMessageKeepsConsistent(db: DbState, sid: SessionId, sender: string, content: string)
    requires Consistent(db)
    ensures Consistent(AppendMessage(db, sid, sender, content).0)
  {
    var (db', r) := AppendMessage(db, sid, sender, content);
    if r.Ok? {
      var ms := db.tables.messages;
      var m := db'.tables.messages[|ms|];
      assert db'.tables.messages == ms + [m];
      MaxSeqNoIsCount(ms, sid);
      MessageAdded(db.tables.sessions, ms, m);
    }
  }

  /** Appending the next message of session m.sessionId to the table, seen per session. */
  lemma NextMessageAppended(ms: seq<Message>, m: Message)
    requires ContiguousSeqNos(ms) && m.seqNo == |MessagesOf(ms, m.sessionId)| + 1
    ensures && ContiguousSeqNos(ms + [m])
            && MessagesOf(ms + [m], m.sessionId) == MessagesOf(ms, m.sessionId) + [m]
            && ConversationHistory(ms + [m], m.sessionId) == ConversationHistory(ms, m.sessionId) + [HistoryEntry(m.sender, m.content, m.createdAt)]
            && forall other :: other != m.sessionId ==> MessagesOf(ms + [m], other) == MessagesOf(ms, other)
  {
    assert ContiguousSeqNos(ms + [m])
        && ConversationHistory(ms + [m], m.sessionId) == ConversationHistory(ms, m.sessionId) + [ToEntry(m)] by {
      HistoryAppend(ms, m);
    }
    assert MessagesOf(ms + [m], m.sessionId) == MessagesOf(ms, m.sessionId) + [m] by {
      MessagesOfAppend(ms, m, m.sessionId);
    }
    forall other | other != m.sessionId ensures MessagesOf(ms + [m], other) == MessagesOf(ms, other) {
      MessagesOfAppend(ms, m, other);
    }
  }

  /** One append, seen per session: the session gets exactly one new message numbered k + 1, the others nothing. */
  lemma AppendMessageNumbering(db: DbState, sid: SessionId, sender: string, content: string)
    requires ContiguousSeqNos(db.tables.messages) && SessionExists(db.tables.sessions, sid)
    ensures var ms' := AppendMessage(db, sid, sender, content).0.tables.messages;
            var before := MessagesOf(db.tables.messages, sid);
            && ContiguousSeqNos(ms')
            && MessagesOf(ms', sid) == before + [Message(db.nextMessageId, sid, sender, content, |before| + 1, db.clock + 1)]
            && ConversationHistory(ms', sid) == ConversationHistory(db.tables.messages, sid) + [HistoryEntry(sender, content, db.clock + 1)]
            && forall other :: other != sid ==> MessagesOf(ms', other) == MessagesOf(db.tables.messages, other)
  {
    var ms := db.tables.messages;
    var m := Message(db.nextMessageId, sid, sender, content, |MessagesOf(ms, sid)| + 1, db.clock + 1);
    assert AppendMessage(db, sid, sender, content).0.tables.messages == ms + [m] by {
      AppendMessageStored(db, sid, sender, content);
      MaxSeqNoIsCount(ms, sid);
    }
    NextMessageAppended(ms, m);
  }

  /** A conversation: `save_message` called once per (sender_type, content) pair, in order. */
  function AppendTurns(db: DbState, sid: SessionId, turns: seq<(string, string)>): (r: DbState)
    ensures r.tables.students == db.tables.students && r.tables.sessions == db.tables.sessions
    ensures SessionExists(db.tables.sessions, sid) ==>
              |r.tables.messages| == |db.tables.messages| + |turns| && r.clock == db.clock + |turns|
    ensures !SessionExists(db.tables.sessions, sid) ==> r == db
  {
    if turns == [] then db
    else
      var last := turns[|turns| - 1];
      AppendMessage(AppendTurns(db, sid, turns[..|turns| - 1]), sid, last.0, last.1).0
  }

  /** The (sender_type, content) pairs of some messages, in order. */
  function TurnsOf(ms: seq<Message>): (r: seq<(string, string)>)
    ensures |r| == |ms|
    ensures forall i :: 0 <= i < |ms| ==> r[i] == (ms[i].sender, ms[i].content)
  {
    if ms == [] then [] else TurnsOf(ms[..|ms| - 1]) + [(ms[|ms| - 1].sender, ms[|ms| - 1].content)]
  }

  /** The sequence numbers of some messages, in order. */
  function SeqNosOf(ms: seq<Message>): (r: seq<nat>)
    ensures |r| == |ms|
    ensures forall i :: 0 <= i < |ms| ==> r[i] == ms[i].seqNo
  {
    if ms == [] then [] else SeqNosOf(ms[..|ms| - 1]) + [ms[|ms| - 1].seqNo]
  }

  /** The numbers 1, 2, ..., n. */
  function OneTo(n: nat): (r: seq<nat>)
    ensures |r| == n
    ensures forall i :: 0 <= i < n ==> r[i] == i + 1
  {
    if n == 0 then [] else OneTo(n - 1) + [n]
  }

  lemma TurnsAndSeqNosAppend(ms: seq<Message>, m: Message)
    ensures TurnsOf(ms + [m]) == TurnsOf(ms) + [(m.sender, m.content)]
    ensures SeqNosOf(ms + [m]) == SeqNosOf(ms) + [m.seqNo]
  {
    assert (ms + [m])[..|ms|] == ms;
  }

  /**
   * Starting from a session with no messages, n appends yield sequence numbers exactly 1..n in append
   * order, each carrying its turn's sender and content.
   */
  lemma {:induction false} AppendTurnsNumbersOneToN(db: DbState, sid: SessionId, turns: seq<(string, string)>)
    requires ContiguousSeqNos(db.tables.messages) && SessionExists(db.tables.sessions, sid)
    requires MessagesOf(db.tables.messages, sid) == []
    ensures var db' := AppendTurns(db, sid, turns);
            && db'.tables.sessions == db.tables.sessions
            && ContiguousSeqNos(db'.tables.messages)
            && SeqNosOf(MessagesOf(db'.tables.messages, sid)) == OneTo(|turns|)
            && TurnsOf(MessagesOf(db'.tables.messages, sid)) == turns
  {
    if turns != [] {
      var init, last := turns[..|turns| - 1], turns[|turns| - 1];
      assert init + [last] == turns;
      AppendTurnsNumbersOneToN(db, sid, init);
      var db0 := AppendTurns(db, sid, init);
      var before := MessagesOf(db0.tables.messages, sid);
      AppendMessageNumbering(db0, sid, last.0, last.1);
      TurnsAndSeqNosAppend(before, Message(db0.nextMessageId, sid, last.0, last.1, |before| + 1, db0.clock + 1));
    }
  }

  /** A conversation in one session leaves every other session's messages as they were. */
  lemma {:induction false} AppendTurnsLeavesOthers(db: DbState, sid: SessionId, turns: seq<(string, string)>, other: SessionId)
    requires ContiguousSeqNos(db.tables.messages) && SessionExists(db.tables.sessions, sid) && other != sid
    ensures ContiguousSeqNos(AppendTurns(db, sid, turns).tables.messages)
    ensures AppendTurns(db, sid, turns).tables.sessions == db.tables.sessions
    ensures MessagesOf(AppendTurns(db, sid, turns).tables.messages, other) == MessagesOf(db.tables.messages, other)
  {
    if turns != [] {
      var init, last := turns[..|turns| - 1], turns[|turns| - 1];
      AppendTurnsLeavesOthers(db, sid, init, other);
      AppendMessageNumbering(AppendTurns(db, sid, init), sid, last.0, last.1);
    }
  }

  /** In the listing, a session's `COUNT(m.message_id)` grows by one for each message saved to it, and only for it. */
  lemma RowCountAfterAppend(db: DbState, sid: SessionId, sender: string, content: string, s: Session)
    requires ContiguousSeqNos(db.tables.messages) && SessionExists(db.tables.sessions, sid)
    ensures ToRow(AppendMessage(db, sid, sender, content).0.tables.messages, s).messageCount
         == ToRow(db.tables.messages, s).messageCount + (if s.id == sid then 1 else 0)
  {
    AppendMessageNumbering(db, sid, sender, content);
  }

  /** After a conversation in a session that had no messages, its listed message count is the number of turns. */
  lemma RowCountAfterTurns(db: DbState, s: Session, turns: seq<(string, string)>)
    requires ContiguousSeqNos(db.tables.messages) && s in db.tables.sessions
    requires MessagesOf(db.tables.messages, s.id) == []
    ensures ToRow(AppendTurns(db, s.id, turns).tables.messages, s).messageCount == |turns|
  {
    assert SessionExists(db.tables.sessions, s.id);
    AppendTurnsNumbersOneToN(db, s.id, turns);
  }

  /** Messages carrying the given turns read back as history entries with those roles and contents. */
  lemma EntriesOfTurns(ms: seq<Message>, turns: seq<(string, string)>)
    requires TurnsOf(ms) == turns
    ensures |Entries(ms)| == |turns|
    ensures forall i :: 0 <= i < |turns| ==> Entries(ms)[i].role == turns[i].0 && Entries(ms)[i].content == turns[i].1
  {
    forall i | 0 <= i < |turns| ensures Entries(ms)[i].role == turns[i].0 && Entries(ms)[i].content == turns[i].1 {
      assert TurnsOf(ms)[i] == (ms[i].sender, ms[i].content);
    }
  }

  /** The history read back after such a conversation lists every turn, in order, sender and content unchanged. */
  lemma AppendTurnsHistory(db: DbState, sid: SessionId, turns: seq<(string, string)>)
    requires ContiguousSeqNos(db.tables.messages) && SessionExists(db.tables.sessions, sid)
    requires MessagesOf(db.tables.messages, sid) == []
    ensures var h := ConversationHistory(AppendTurns(db, sid, turns).tables.messages, sid);
            && |h| == |turns|
            && forall i :: 0 <= i < |h| ==> h[i].role == turns[i].0 && h[i].content == turns[i].1
  {
    var ms' := AppendTurns(db, sid, turns).tables.messages;
    AppendTurnsNumbersOneToN(db, sid, turns);
    HistoryInAppendOrder(ms', sid);
    EntriesOfTurns(MessagesOf(ms', sid), turns);
  }

  /** Every state reachable by `save_message` calls on one session from a consistent state is consistent. */
  lemma {:induction false} AppendTurnsKeepsConsistent(db: DbState, sid: SessionId, turns: seq<(string, string)>)
    requires Consistent(db)
    ensures Consistent(AppendTurns(db, sid, turns))
  {
    if turns != [] {
      var init, last := turns[..|turns| - 1], turns[|turns| - 1];
      AppendTurnsKeepsConsistent(db, sid, init);
      AppendMessageKeepsConsistent(AppendTurns(db, sid, init), sid, last.0, last.1);
    }
  }

  // ---------------------------------------------------------------- the database object

  /** The database the helpers open connections to; each method is one committed (or rolled back) transaction. */
  class Database {
    var students: seq<Student>
    var sessions: seq<Session>
    var messages: seq<Message>
    var clock: Time
    var nextStudentId: StudentId
    var nextMessageId: nat

    function State(): DbState
      reads this
    {
      DbState(Tables(students, sessions, messages), clock, nextStudentId, nextMessageId)
    }

    ghost predicate Valid()
      reads this
    {
      Consistent(State())
    }

    constructor ()
      ensures Valid() && State() == EmptyDb
    {
      students, sessions, messages := [], [], [];
      clock, nextStudentId, nextMessageId := 0, 1, 1;
    }

    method GetOrCreateStudent(email: string, name: string) returns (id: StudentId)
      requires Valid()
      modifies this
      ensures Valid()
      ensures (State(), id) == UpsertStudent(old(State()), email, name)
    {
      ghost var before := State();
      var now := clock + 1;
      var found := FindStudent(students, email);
      match found {
        case Some(i) =>
          id := students[i].id;
          students, clock := students[i := students[i].(lastLogin := now)], now;
          assert State() == Touched(before, i);
          UpsertTouches(before, email, name, i);
          TouchedConsistent(before, i);
        case None =>
          id := nextStudentId;
          students, clock, nextStudentId := students + [Student(id, email, name, now, now)], now, nextStudentId + 1;
          assert State() == Registered(before, email, name);
          UpsertRegisters(before, email, name);
          RegisteredConsistent(before, email, name);
      }
    }

    method CreateSession(studentId: StudentId, persona: string, uuid: SessionId) returns (r: Result<(SessionId, string)>)
      requires Valid()
      modifies this
      ensures Valid()
      ensures (State(), r) == InsertSession(old(State()), studentId, persona, uuid)
    {
      ghost var before := State();
      var count := |SessionsOfStudent(sessions, studentId)|;
      var name := SessionName(count + 1);
      if SessionExists(sessions, uuid) {
        r := Err(DuplicateSessionId);
      } else if !StudentExists(students, studentId) {
        r := Err(UnknownStudent);
      } else {
        var s := Session(uuid, studentId, persona, clock + 1, ActiveStatus);
        assert s == Session(uuid, studentId, persona, before.clock + 1, ActiveStatus);
        clock, sessions := clock + 1, sessions + [s];
        r := Ok((uuid, name));
        assert State() == Inserted(before, s);
        InsertSessionStored(before, studentId, persona, uuid);
        InsertedConsistent(before, s);
      }
    }

    method SaveMessage(sid: SessionId, sender: string, content: string) returns (r: Result<()>)
      requires Valid()
      modifies this
      ensures Valid()
      ensures (State(), r) == AppendMessage(old(State()), sid, sender, content)
    {
      ghost var before := State();
      var next := MaxSeqNo(messages, sid) + 1;
      if !SessionExists(sessions, sid) {
        r := Err(UnknownSession);
      } else {
        var m := Message(nextMessageId, sid, sender, content, next, clock + 1);
        assert m == Message(before.nextMessageId, sid, sender, content, MaxSeqNo(before.tables.messages, sid) + 1, before.clock + 1);
        clock, messages, nextMessageId := clock + 1, messages + [m], nextMessageId + 1;
        r := Ok(());
        assert State() == Appended(before, m);
        AppendMessageStored(before, sid, sender, content);
        AppendedConsistent(before, m);
      }
    }
  }
}
