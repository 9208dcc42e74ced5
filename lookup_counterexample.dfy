/**
 * A run of the write operations that shows the numbering of `get_session_name` running opposite to
 * `create_session`: one student creates two sessions; the first is created as `Session-1`, the lookup
 * as written names it `Session-2`, and the corrected lookup names it `Session-1`.
 */
module LookupCounterexample {
  import opened Schema
  import opened Decimal
  import opened Queries
  import opened Integrity
  import opened Store
  import opened Naming

  /** `get_or_create_student` and two `create_session` calls (ids `id1`, then `id2`) on an empty database. */
  function TwoSessions(email: string, name: string, persona: string, id1: SessionId, id2: SessionId)
    : (DbState, Result<(SessionId, string)>, Result<(SessionId, string)>)
  {
    var login := UpsertStudent(EmptyDb, email, name);
    var first := InsertSession(login.0, login.1, persona, id1);
    var second := InsertSession(first.0, login.1, persona, id2);
    (second.0, first.1, second.1)
  }

  /** The first sign-in on an empty database registers the student with id 1 at time 1. */
  lemma LoginStep(email: string, name: string)
    ensures UpsertStudent(EmptyDb, email, name)
         == (DbState(Tables([Student(1, email, name, 1, 1)], [], []), 1, 2, 1), 1)
  {
    UpsertRegisters(EmptyDb, email, name);
    assert [] + [Student(1, email, name, 1, 1)] == [Student(1, email, name, 1, 1)];
  }

  /** That student's first session is created at time 2 and named Session-1. */
  lemma FirstSessionStep(st: Student, persona: string, id1: SessionId)
    requires st.id == 1
    ensures var s1 := Session(id1, 1, persona, 2, ActiveStatus);
            InsertSession(DbState(Tables([st], [], []), 1, 2, 1), 1, persona, id1)
              == (DbState(Tables([st], [s1], []), 2, 2, 1), Ok((id1, SessionName(1))))
  {
    var db := DbState(Tables([st], [], []), 1, 2, 1);
    assert st in db.tables.students;
    InsertSessionStored(db, 1, persona, id1);
    assert [] + [Session(id1, 1, persona, 2, ActiveStatus)] == [Session(id1, 1, persona, 2, ActiveStatus)];
  }

  /** Its second session, under another id, is created at time 3 and named Session-2. */
  lemma SecondSessionStep(st: Student, s1: Session, persona: string, id2: SessionId)
    requires st.id == 1 && s1.studentId == 1 && s1.id != id2
    ensures var s2 := Session(id2, 1, persona, 3, ActiveStatus);
            InsertSession(DbState(Tables([st], [s1], []), 2, 2, 1), 1, persona, id2)
              == (DbState(Tables([st], [s1, s2], []), 3, 2, 1), Ok((id2, SessionName(2))))
  {
    var db := DbState(Tables([st], [s1], []), 2, 2, 1);
    var s2 := Session(id2, 1, persona, 3, ActiveStatus);
    assert st in db.tables.students;
    InsertSessionStored(db, 1, persona, id2);
    assert SessionsOfStudent([s1], 1) == [s1] by {
      assert [s1][..0] == [];
    }
    assert [s1] + [s2] == [s1, s2];
  }

  /** The run stores one student and two sessions and returns the names Session-1 and Session-2. */
  lemma TwoSessionsRun(email: string, name: string, persona: string, id1: SessionId, id2: SessionId)
    requires id1 != id2
    ensures var st := Student(1, email, name, 1, 1);
            var s1, s2 := Session(id1, 1, persona, 2, ActiveStatus), Session(id2, 1, persona, 3, ActiveStatus);
            TwoSessions(email, name, persona, id1, id2)
              == (DbState(Tables([st], [s1, s2], []), 3, 2, 1), Ok((id1, SessionName(1))), Ok((id2, SessionName(2))))
  {
    var st := Student(1, email, name, 1, 1);
    LoginStep(email, name);
    FirstSessionStep(st, persona, id1);
    SecondSessionStep(st, Session(id1, 1, persona, 2, ActiveStatus), persona, id2);
  }

  /** The facts about one student's two sessions that the lookups need: keys, order, ownership and counts. */
  lemma TwoSessionTables(st: Student, s1: Session, s2: Session)
    requires s1.studentId == st.id && s2.studentId == st.id && s1.id != s2.id && s1.createdAt < s2.createdAt
    ensures var t := Tables([st], [s1, s2], []);
            && UniqueSessionIds(t.sessions) && UniqueEmails(t.students) && SessionsInCreationOrder(t.sessions)
            && OwnedBy(t.students, s1, st.email)
            && CreationNumber(t.sessions, 0) == 1
            && |OwnedSessions(t.students, t.sessions, st.email)| == 2
  {
    var t := Tables([st], [s1, s2], []);
    assert OwnedBy(t.students, s1, st.email) by {
      assert st in t.students;
    }
    assert [s1, s2][..1] == [s1];
    assert SessionsOfStudent([s1], st.id) == [s1] by {
      assert [s1][..0] == [];
    }
    assert CreationNumber(t.sessions, 0) == 1;
    assert |OwnedSessions(t.students, t.sessions, st.email)| == 2 by {
      OwnedIsByStudentId(t.students, t.sessions, st);
    }
  }

  /** On those tables the lookup as written names the first session Session-2, the corrected one Session-1. */
  lemma LookupOnTwoSessions(st: Student, s1: Session, s2: Session)
    requires s1.studentId == st.id && s2.studentId == st.id && s1.id != s2.id && s1.createdAt < s2.createdAt
    ensures var t := Tables([st], [s1, s2], []);
            && GetSessionNameAsWritten(t, s1.id, st.email) == Some(SessionName(2))
            && GetSessionName(t, s1.id, st.email) == Some(SessionName(1))
  {
    var t := Tables([st], [s1, s2], []);
    TwoSessionTables(st, s1, s2);
    LookupAsWrittenNumber(t, st.email, 0);
    LookupAgreesWithCreation(t, st.email, 0);
  }

  /** `create_session` returned Session-1 for the first session, yet `get_session_name` as written reports Session-2. */
  lemma NameLookupReversesCreation(email: string, name: string, persona: string, id1: SessionId, id2: SessionId)
    requires id1 != id2
    ensures var (db, first, _) := TwoSessions(email, name, persona, id1, id2);
            && first == Ok((id1, SessionName(1)))
            && GetSessionNameAsWritten(db.tables, id1, email) == Some(SessionName(2))
            && GetSessionNameAsWritten(db.tables, id1, email) != Some(first.value.1)
            && GetSessionName(db.tables, id1, email) == Some(first.value.1)
  {
    TwoSessionsRun(email, name, persona, id1, id2);
    LookupOnTwoSessions(Student(1, email, name, 1, 1), Session(id1, 1, persona, 2, ActiveStatus), Session(id2, 1, persona, 3, ActiveStatus));
    SessionNameInjective(1, 2);
  }
}
