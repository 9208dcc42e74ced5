/**
 * The read side of the persistence layer: each SQL statement of the helpers as a function over the
 * tables (a lookup by key, a filter in table order, a count, a maximum, an ORDER BY), and the
 * `get_user_sessions` loop that names the listed sessions.
 */
module Queries {
  import opened Schema
  import opened Ordering
  import opened Decimal

  // ---------------------------------------------------------------- students

  /** `SELECT student_id FROM students WHERE email = %s`, fetchone: the first row with that email. */
  function FindStudent(students: seq<Student>, email: string): (r: Option<nat>)
    ensures r.Some? ==> r.value < |students| && students[r.value].email == email
    ensures r.Some? ==> forall j :: 0 <= j < r.value ==> students[j].email != email
    ensures r.None? <==> forall st :: st in students ==> st.email != email
  {
    if students == [] then None
    else if students[0].email == email then Some(0)
    else
      assert students == [students[0]] + students[1..];
      match FindStudent(students[1..], email)
      case None => None
      case Some(i) => Some(i + 1)
  }

  /** The lookup finds a row when it is the first with that email. */
  lemma FindStudentFirst(students: seq<Student>, email: string, i: nat)
    requires i < |students| && students[i].email == email
    requires forall j :: 0 <= j < i ==> students[j].email != email
    ensures FindStudent(students, email) == Some(i)
  {
    assert students[i] in students;
  }

  predicate StudentExists(students: seq<Student>, id: StudentId)
  {
    exists st :: st in students && st.id == id
  }

  /** The join `sessions s JOIN students st ON s.student_id = st.student_id WHERE st.email = %s`. */
  predicate OwnedBy(students: seq<Student>, s: Session, email: string)
  {
    exists st :: st in students && st.id == s.studentId && st.email == email
  }

  // ---------------------------------------------------------------- sessions

  /** `SELECT ... FROM sessions WHERE student_id = %s`, in table order. */
  function SessionsOfStudent(sessions: seq<Session>, id: StudentId): (r: seq<Session>)
    ensures |r| <= |sessions|
    ensures forall s :: s in r <==> s in sessions && s.studentId == id
  {
    if sessions == [] then []
    else
      var init, last := sessions[..|sessions| - 1], sessions[|sessions| - 1];
      assert sessions == init + [last];
      SessionsOfStudent(init, id) + (if last.studentId == id then [last] else [])
  }

  /** The sessions of the students with that email, in table order. */
  function OwnedSessions(students: seq<Student>, sessions: seq<Session>, email: string): (r: seq<Session>)
    ensures |r| <= |sessions|
    ensures forall s :: s in r <==> s in sessions && OwnedBy(students, s, email)
  {
    if sessions == [] then []
    else
      var init, last := sessions[..|sessions| - 1], sessions[|sessions| - 1];
      assert sessions == init + [last];
      OwnedSessions(students, init, email) + (if OwnedBy(students, last, email) then [last] else [])
  }

  /**
   * The number `create_session` puts in the name of the session stored at index `k`: one more than the
   * count of that student's sessions already stored when it was inserted (the table only grows).
   */
  function CreationNumber(sessions: seq<Session>, k: nat): (n: nat)
    requires k < |sessions|
    ensures 1 <= n <= k + 1
  {
    |SessionsOfStudent(sessions[..k], sessions[k].studentId)| + 1
  }

  /** `SELECT 1 FROM sessions WHERE session_id = %s`, then `fetchone() is not None`. */
  function SessionExists(sessions: seq<Session>, sid: SessionId): (r: bool)
    ensures r <==> exists s :: s in sessions && s.id == sid
  {
    if sessions == [] then false
    else
      assert sessions == [sessions[0]] + sessions[1..];
      sessions[0].id == sid || SessionExists(sessions[1..], sid)
  }

  // ---------------------------------------------------------------- messages

  /** `SELECT ... FROM messages WHERE session_id = %s`, in table order. */
  function MessagesOf(messages: seq<Message>, sid: SessionId): (r: seq<Message>)
    ensures |r| <= |messages|
    ensures forall m :: m in r <==> m in messages && m.sessionId == sid
    ensures r == [] <==> forall m :: m in messages ==> m.sessionId != sid
  {
    if messages == [] then []
    else
      var init, last := messages[..|messages| - 1], messages[|messages| - 1];
      assert messages == init + [last];
      MessagesOf(init, sid) + (if last.sessionId == sid then [last] else [])
  }

  lemma MessagesOfAppend(messages: seq<Message>, m: Message, sid: SessionId)
    ensures MessagesOf(messages + [m], sid) == MessagesOf(messages, sid) + (if m.sessionId == sid then [m] else [])
  {
    assert (messages + [m])[..|messages|] == messages;
  }

  /** `SELECT COALESCE(MAX(sequence_number), 0) FROM messages WHERE session_id = %s`. */
  function MaxSeqNo(messages: seq<Message>, sid: SessionId): (r: nat)
    ensures forall m :: m in messages && m.sessionId == sid ==> m.seqNo <= r
    ensures r == 0 || exists m :: m in messages && m.sessionId == sid && m.seqNo == r
  {
    if messages == [] then 0
    else
      var init, last := messages[..|messages| - 1], messages[|messages| - 1];
      assert messages == init + [last];
      var prev := MaxSeqNo(init, sid);
      if last.sessionId == sid && last.seqNo > prev then last.seqNo else prev
  }

  function SeqNoKey(m: Message): int
  {
    m.seqNo
  }

  function ToEntry(m: Message): HistoryEntry
  {
    HistoryEntry(m.sender, m.content, m.createdAt)
  }

  /** The list comprehension of `get_conversation_history`, one entry per fetched row, in order. */
  function Entries(ms: seq<Message>): (r: seq<HistoryEntry>)
    ensures |r| == |ms|
    ensures forall i :: 0 <= i < |ms| ==> r[i] == ToEntry(ms[i])
  {
    if ms == [] then [] else Entries(ms[..|ms| - 1]) + [ToEntry(ms[|ms| - 1])]
  }

  /**
   * `get_conversation_history`: the session's messages `ORDER BY sequence_number ASC`, each turned into
   * role = sender_type, the content unchanged, and its creation time; empty for a session with no messages.
   */
  function ConversationHistory(messages: seq<Message>, sid: SessionId): (r: seq<HistoryEntry>)
    ensures |r| == |MessagesOf(messages, sid)|
    ensures r == [] <==> forall m :: m in messages ==> m.sessionId != sid
    ensures forall i :: 0 <= i < |r| ==>
              exists m :: m in messages && m.sessionId == sid && r[i] == HistoryEntry(m.sender, m.content, m.createdAt)
  {
    var sorted := SortBy(MessagesOf(messages, sid), SeqNoKey);
    SortByMembers(MessagesOf(messages, sid), SeqNoKey);
    Entries(sorted)
  }

  // ---------------------------------------------------------------- listing

  /** The sort key of `ORDER BY s.created_at DESC`. */
  function NegCreatedAt(s: Session): int
  {
    0 - s.createdAt as int
  }

  /** A session with its `COUNT(m.message_id)` over the left join with `messages`. */
  function ToRow(messages: seq<Message>, s: Session): (r: SessionRow)
    ensures r.sessionId == s.id && r.persona == s.persona && r.createdAt == s.createdAt
    ensures r.messageCount <= |messages|
    ensures r.messageCount == 0 <==> forall m :: m in messages ==> m.sessionId != s.id
  {
    var own := MessagesOf(messages, s.id);
    assert own != [] ==> own[0] in own;
    SessionRow(s.id, s.persona, s.createdAt, |own|)
  }

  /** The rows fetched for a list of sessions, in that order. */
  function RowsOf(messages: seq<Message>, ss: seq<Session>): (rows: seq<SessionRow>)
    ensures |rows| == |ss|
    ensures forall i :: 0 <= i < |ss| ==> rows[i] == ToRow(messages, ss[i])
    ensures forall s :: s in ss ==> ToRow(messages, s) in rows
  {
    if ss == [] then []
    else
      assert ss == [ss[0]] + ss[1..];
      [ToRow(messages, ss[0])] + RowsOf(messages, ss[1..])
  }

  /**
   * The query of `get_user_sessions`: every session of the students with that email, each exactly once,
   * with its message count (zero when it has none), newest first.
   */
  function UserSessionRows(t: Tables, email: string): (rows: seq<SessionRow>)
    ensures |rows| == |OwnedSessions(t.students, t.sessions, email)|
    ensures forall i, j :: 0 <= i < j < |rows| ==> rows[i].createdAt >= rows[j].createdAt
    ensures forall i :: 0 <= i < |rows| ==>
              exists s :: s in t.sessions && OwnedBy(t.students, s, email) && rows[i] == ToRow(t.messages, s)
    ensures forall s :: s in t.sessions && OwnedBy(t.students, s, email) ==> ToRow(t.messages, s) in rows
    ensures forall s :: s in t.sessions && OwnedBy(t.students, s, email) && (forall m :: m in t.messages ==> m.sessionId != s.id) ==>
              SessionRow(s.id, s.persona, s.createdAt, 0) in rows
  {
    var owned := OwnedSessions(t.students, t.sessions, email);
    var sorted := SortBy(owned, NegCreatedAt);
    SortByMembers(owned, NegCreatedAt);
    RowsOf(t.messages, sorted)
  }

  /**
   * The loop of `get_user_sessions`: entry `idx` of the fetched rows is named `Session-(len - idx)`, so
   * the names run from `Session-N` down to `Session-1`, each used once.
   */
  method NameSessions(rows: seq<SessionRow>) returns (list: seq<SessionSummary>)
    ensures |list| == |rows|
    ensures forall idx :: 0 <= idx < |list| ==>
              list[idx] == SessionSummary(rows[idx].sessionId, SessionName(|rows| - idx), rows[idx].createdAt, rows[idx].messageCount)
    ensures forall n :: 1 <= n <= |list| ==> list[|list| - n].sessionName == SessionName(n)
    ensures forall i, j :: 0 <= i < j < |list| ==> list[i].sessionName != list[j].sessionName
  {
    list := [];
    var idx := 0;
    while idx < |rows|
      invariant 0 <= idx <= |rows|
      invariant |list| == idx
      invariant forall i :: 0 <= i < idx ==>
                  list[i] == SessionSummary(rows[i].sessionId, SessionName(|rows| - i), rows[i].createdAt, rows[i].messageCount)
    {
      list := list + [SessionSummary(rows[idx].sessionId, SessionName(|rows| - idx), rows[idx].createdAt, rows[idx].messageCount)];
      idx := idx + 1;
    }
    NamedFromTheEnd(rows, list);
  }

  /** Rows named `Session-(len - idx)` carry every name 1..len exactly once, the last row `Session-1`. */
  lemma NamedFromTheEnd(rows: seq<SessionRow>, list: seq<SessionSummary>)
    requires |list| == |rows|
    requires forall idx :: 0 <= idx < |list| ==> list[idx].sessionName == SessionName(|rows| - idx)
    ensures forall n :: 1 <= n <= |list| ==> list[|list| - n].sessionName == SessionName(n)
    ensures forall i, j :: 0 <= i < j < |list| ==> list[i].sessionName != list[j].sessionName
  {
    forall i, j | 0 <= i < j < |list| ensures list[i].sessionName != list[j].sessionName {
      SessionNameInjective(|rows| - i, |rows| - j);
    }
  }

  /** `get_user_sessions`: the join-and-group query, then the naming loop over its rows. */
  method GetUserSessions(t: Tables, email: string) returns (list: seq<SessionSummary>)
    ensures |list| == |OwnedSessions(t.students, t.sessions, email)|
    ensures forall idx :: 0 <= idx < |list| ==>
              var row := UserSessionRows(t, email)[idx];
              list[idx] == SessionSummary(row.sessionId, SessionName(|list| - idx), row.createdAt, row.messageCount)
    ensures forall i, j :: 0 <= i < j < |list| ==> list[i].sessionName != list[j].sessionName
  {
    var rows := UserSessionRows(t, email);
    list := NameSessions(rows);
  }

  // ---------------------------------------------------------------- single-session name

  /** The comparison of the counting subquery: `>=` in the source, `<=` in the corrected lookup. */
  datatype Bound = AtOrAfter | AtOrBefore

  predicate InBound(time: Time, target: Time, bound: Bound)
  {
    match bound
    case AtOrAfter => time >= target
    case AtOrBefore => time <= target
  }

  /** `SELECT COUNT(*) FROM sessions s2 JOIN students st2 ... WHERE st2.email = %s AND s2.created_at <cmp> target`. */
  function CountOwnedWithin(students: seq<Student>, sessions: seq<Session>, email: string, target: Time, bound: Bound): (r: nat)
    ensures r <= |OwnedSessions(students, sessions, email)|
    ensures (exists s :: s in sessions && OwnedBy(students, s, email) && InBound(s.createdAt, target, bound)) ==> r >= 1
  {
    if sessions == [] then 0
    else
      var init, last := sessions[..|sessions| - 1], sessions[|sessions| - 1];
      assert sessions == init + [last];
      CountOwnedWithin(students, init, email, target, bound)
        + (if OwnedBy(students, last, email) && InBound(last.createdAt, target, bound) then 1 else 0)
  }

  /** The outer query of `get_session_name`: the first session with that id owned by a student with that email. */
  function FindOwnedSession(students: seq<Student>, sessions: seq<Session>, sid: SessionId, email: string): (r: Option<nat>)
    ensures r.Some? ==> r.value < |sessions| && sessions[r.value].id == sid && OwnedBy(students, sessions[r.value], email)
    ensures r.Some? ==> forall j :: 0 <= j < r.value ==> !(sessions[j].id == sid && OwnedBy(students, sessions[j], email))
    ensures r.None? <==> forall s :: s in sessions ==> !(s.id == sid && OwnedBy(students, s, email))
  {
    if sessions == [] then None
    else if sessions[0].id == sid && OwnedBy(students, sessions[0], email) then Some(0)
    else
      assert sessions == [sessions[0]] + sessions[1..];
      match FindOwnedSession(students, sessions[1..], sid, email)
      case None => None
      case Some(i) => Some(i + 1)
  }

  /** The display name of a session found by `FindOwnedSession`, counting that student's sessions within the bound. */
  function NameByCount(t: Tables, sid: SessionId, email: string, bound: Bound): (r: Option<string>)
    ensures r.Some? <==> exists s :: s in t.sessions && s.id == sid && OwnedBy(t.students, s, email)
    ensures r.Some? ==> exists n: nat :: 1 <= n <= |OwnedSessions(t.students, t.sessions, email)| && r.value == SessionName(n)
  {
    match FindOwnedSession(t.students, t.sessions, sid, email)
    case None => None
    case Some(k) =>
      var s := t.sessions[k];
      assert InBound(s.createdAt, s.createdAt, bound);
      Some(SessionName(CountOwnedWithin(t.students, t.sessions, email, s.createdAt, bound)))
  }

  /**
   * `get_session_name` as written: None unless the session belongs to a student with that email,
   * otherwise `Session-k` with k the number of that student's sessions created at or AFTER it.
   */
  function GetSessionNameAsWritten(t: Tables, sid: SessionId, email: string): (r: Option<string>)
    ensures r.Some? <==> exists s :: s in t.sessions && s.id == sid && OwnedBy(t.students, s, email)
    ensures r.Some? ==> exists n: nat :: 1 <= n <= |OwnedSessions(t.students, t.sessions, email)| && r.value == SessionName(n)
  {
    NameByCount(t, sid, email, AtOrAfter)
  }

  /** `get_session_name` corrected: k counts that student's sessions created at or BEFORE it. */
  function GetSessionName(t: Tables, sid: SessionId, email: string): (r: Option<string>)
    ensures r.Some? <==> exists s :: s in t.sessions && s.id == sid && OwnedBy(t.students, s, email)
    ensures r.Some? ==> exists n: nat :: 1 <= n <= |OwnedSessions(t.students, t.sessions, email)| && r.value == SessionName(n)
  {
    NameByCount(t, sid, email, AtOrBefore)
  }
}
