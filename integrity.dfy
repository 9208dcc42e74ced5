/**
 * What holds of the tables: the schema's keys and foreign keys, plus two facts the write helpers
 * establish (sessions are stored in creation-time order; sequence numbers run 1, 2, ... per session).
 */
module Integrity {
  import opened Schema
  import opened Ordering
  import opened Queries

  /** Primary key `students.student_id`. */
  predicate UniqueStudentIds(students: seq<Student>)
  {
    forall i, j :: 0 <= i < j < |students| ==> students[i].id != students[j].id
  }

  /** `students.email` is unique. */
  predicate UniqueEmails(students: seq<Student>)
  {
    forall i, j :: 0 <= i < j < |students| ==> students[i].email != students[j].email
  }

  /** Primary key `sessions.session_id`. */
  predicate UniqueSessionIds(sessions: seq<Session>)
  {
    forall i, j :: 0 <= i < j < |sessions| ==> sessions[i].id != sessions[j].id
  }

  /** Primary key `messages.message_id`. */
  predicate UniqueMessageIds(messages: seq<Message>)
  {
    forall i, j :: 0 <= i < j < |messages| ==> messages[i].id != messages[j].id
  }

  /** Foreign key `sessions.student_id`. */
  predicate SessionsHaveStudents(students: seq<Student>, sessions: seq<Session>)
  {
    forall s :: s in sessions ==> StudentExists(students, s.studentId)
  }

  /** Foreign key `messages.session_id`. */
  predicate MessagesHaveSessions(sessions: seq<Session>, messages: seq<Message>)
  {
    forall m :: m in messages ==> SessionExists(sessions, m.sessionId)
  }

  /** Every session was inserted with a clock value later than all sessions before it. */
  predicate SessionsInCreationOrder(sessions: seq<Session>)
  {
    forall i, j :: 0 <= i < j < |sessions| ==> sessions[i].createdAt < sessions[j].createdAt
  }

  /** Each message's number is one more than the count of earlier messages of its session. */
  predicate ContiguousSeqNos(messages: seq<Message>)
  {
    messages == [] ||
      var init, last := messages[..|messages| - 1], messages[|messages| - 1];
      ContiguousSeqNos(init) && last.seqNo == |MessagesOf(init, last.sessionId)| + 1
  }

  predicate WellFormed(t: Tables)
  {
    && UniqueStudentIds(t.students)
    && UniqueEmails(t.students)
    && UniqueSessionIds(t.sessions)
    && UniqueMessageIds(t.messages)
    && SessionsHaveStudents(t.students, t.sessions)
    && MessagesHaveSessions(t.sessions, t.messages)
    && SessionsInCreationOrder(t.sessions)
    && ContiguousSeqNos(t.messages)
  }

  /** Replacing a student row by one with the same id and email keeps the student keys and the sessions' foreign key. */
  lemma StudentTouched(students: seq<Student>, sessions: seq<Session>, i: nat, st: Student)
    requires i < |students| && st.id == students[i].id && st.email == students[i].email
    requires UniqueStudentIds(students) && UniqueEmails(students) && SessionsHaveStudents(students, sessions)
    ensures var ss := students[i := st];
            UniqueStudentIds(ss) && UniqueEmails(ss) && SessionsHaveStudents(ss, sessions)
  {
    var ss := students[i := st];
    forall s | s in sessions ensures StudentExists(ss, s.studentId) {
      var x :| x in students && x.id == s.studentId;
      var j :| 0 <= j < |students| && students[j] == x;
      assert ss[j] in ss;
    }
  }

  /** Appending a student whose id and email are new keeps the student keys and the sessions' foreign key. */
  lemma StudentAdded(students: seq<Student>, sessions: seq<Session>, st: Student)
    requires UniqueStudentIds(students) && UniqueEmails(students) && SessionsHaveStudents(students, sessions)
    requires forall x :: x in students ==> x.id != st.id && x.email != st.email
    ensures var ss := students + [st];
            UniqueStudentIds(ss) && UniqueEmails(ss) && SessionsHaveStudents(ss, sessions)
  {
    var ss := students + [st];
    forall i | 0 <= i < |students| ensures ss[i].id != st.id && ss[i].email != st.email {
      assert students[i] in students;
    }
    forall s | s in sessions ensures StudentExists(ss, s.studentId) {
      var x :| x in students && x.id == s.studentId;
      assert x in ss;
    }
  }

  /** Appending a session with a new id, a known student and the latest creation time keeps the session invariants. */
  lemma SessionAdded(students: seq<Student>, sessions: seq<Session>, messages: seq<Message>, s: Session)
    requires UniqueSessionIds(sessions) && SessionsHaveStudents(students, sessions)
    requires MessagesHaveSessions(sessions, messages) && SessionsInCreationOrder(sessions)
    requires !SessionExists(sessions, s.id) && StudentExists(students, s.studentId)
    requires forall x :: x in sessions ==> x.createdAt < s.createdAt
    ensures var ss := sessions + [s];
            && UniqueSessionIds(ss) && SessionsHaveStudents(students, ss)
            && MessagesHaveSessions(ss, messages) && SessionsInCreationOrder(ss)
  {
    var ss := sessions + [s];
    forall i | 0 <= i < |sessions| ensures ss[i].id != s.id && ss[i].createdAt < s.createdAt {
      assert sessions[i] in sessions;
    }
    forall m | m in messages ensures SessionExists(ss, m.sessionId) {
      var x :| x in sessions && x.id == m.sessionId;
      assert x in ss;
    }
  }

  /** Appending a message of a stored session, with a new id and the next number, keeps the message invariants. */
  lemma MessageAdded(sessions: seq<Session>, messages: seq<Message>, m: Message)
    requires UniqueMessageIds(messages) && MessagesHaveSessions(sessions, messages) && ContiguousSeqNos(messages)
    requires SessionExists(sessions, m.sessionId)
    requires forall x :: x in messages ==> x.id != m.id
    requires m.seqNo == |MessagesOf(messages, m.sessionId)| + 1
    ensures var ms := messages + [m];
            UniqueMessageIds(ms) && MessagesHaveSessions(sessions, ms) && ContiguousSeqNos(ms)
  {
    var ms := messages + [m];
    forall i | 0 <= i < |messages| ensures ms[i].id != m.id {
      assert messages[i] in messages;
    }
    assert ms[..|ms| - 1] == messages;
  }

  /** A session's messages, in table (append) order, carry the numbers 1, 2, ..., k. */
  lemma {:induction false} ContiguousNumbering(messages: seq<Message>, sid: SessionId)
    requires ContiguousSeqNos(messages)
    ensures forall j :: 0 <= j < |MessagesOf(messages, sid)| ==> MessagesOf(messages, sid)[j].seqNo == j + 1
  {
    if messages != [] {
      ContiguousNumbering(messages[..|messages| - 1], sid);
    }
  }

  /** `COALESCE(MAX(sequence_number), 0)` is the number of messages the session has. */
  lemma {:induction false} MaxSeqNoIsCount(messages: seq<Message>, sid: SessionId)
    requires ContiguousSeqNos(messages)
    ensures MaxSeqNo(messages, sid) == |MessagesOf(messages, sid)|
  {
    if messages != [] {
      MaxSeqNoIsCount(messages[..|messages| - 1], sid);
    }
  }

  /**
   * On well-numbered tables, `get_conversation_history` returns the session's messages in the order
   * they were appended (sorting by sequence number changes nothing), sender as role, content unchanged.
   */
  lemma HistoryInAppendOrder(messages: seq<Message>, sid: SessionId)
    requires ContiguousSeqNos(messages)
    ensures ConversationHistory(messages, sid) == Entries(MessagesOf(messages, sid))
  {
    var ms := MessagesOf(messages, sid);
    ContiguousNumbering(messages, sid);
    assert StrictlyAscending(ms, SeqNoKey);
    SortByOfStrictlyAscending(ms, SeqNoKey);
  }

  /** Appending the next message of a session extends that session's history by exactly its entry. */
  lemma HistoryAppend(messages: seq<Message>, m: Message)
    requires ContiguousSeqNos(messages)
    requires m.seqNo == |MessagesOf(messages, m.sessionId)| + 1
    ensures ContiguousSeqNos(messages + [m])
    ensures ConversationHistory(messages + [m], m.sessionId) == ConversationHistory(messages, m.sessionId) + [ToEntry(m)]
  {
    var ms := messages + [m];
    var sid := m.sessionId;
    assert ms[..|ms| - 1] == messages;
    MessagesOfAppend(messages, m, sid);
    HistoryInAppendOrder(messages, sid);
    HistoryInAppendOrder(ms, sid);
    var before := MessagesOf(messages, sid);
    assert (before + [m])[..|before|] == before;
  }
}
