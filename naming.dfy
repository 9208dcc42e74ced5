/**
 * How the three places that name a session agree. `create_session` numbers a student's sessions
 * 1, 2, ... in creation order. `get_user_sessions` lists them newest first and names entry idx
 * `Session-(N - idx)`, so each session is listed under its creation name. `get_session_name` counts
 * the student's sessions created at or AFTER the one asked for, which numbers them the other way round;
 * the corrected lookup counts those created at or before it and agrees with creation.
 */
module Naming {
  import opened Schema
  import opened Ordering
  import opened Decimal
  import opened Queries
  import opened Integrity
  import opened Store

  // ---------------------------------------------------------------- the join on email

  /** With unique emails, two students with the same email are the same row. */
  lemma SameEmailSameStudent(students: seq<Student>, a: Student, b: Student)
    requires UniqueEmails(students) && a in students && b in students && a.email == b.email
    ensures a == b
  {
    var i :| 0 <= i < |students| && students[i] == a;
    var j :| 0 <= j < |students| && students[j] == b;
    assert !(i < j) && !(j < i);
  }

  /** With unique emails, the sessions joined to a student's email are exactly that student's sessions. */
  lemma {:induction false} OwnedIsByStudentId(students: seq<Student>, ss: seq<Session>, st: Student)
    requires UniqueEmails(students) && st in students
    ensures OwnedSessions(students, ss, st.email) == SessionsOfStudent(ss, st.id)
  {
    if ss != [] {
      var init, last := ss[..|ss| - 1], ss[|ss| - 1];
      OwnedIsByStudentId(students, init, st);
      assert OwnedBy(students, last, st.email) <==> last.studentId == st.id by {
        if OwnedBy(students, last, st.email) {
          var other :| other in students && other.id == last.studentId && other.email == st.email;
          SameEmailSameStudent(students, st, other);
        }
      }
    }
  }

  /** Filtering by student distributes over concatenation of the table. */
  lemma {:induction false} SessionsOfStudentAppend(a: seq<Session>, b: seq<Session>, id: StudentId)
    ensures SessionsOfStudent(a + b, id) == SessionsOfStudent(a, id) + SessionsOfStudent(b, id)
  {
    if b != [] {
      var init, last := b[..|b| - 1], b[|b| - 1];
      assert (a + b)[..|a + b| - 1] == a + init && (a + b)[|a + b| - 1] == last;
      SessionsOfStudentAppend(a, init, id);
      var x := if last.studentId == id then [last] else [];
      assert SessionsOfStudent(a, id) + SessionsOfStudent(init, id) + x == SessionsOfStudent(a, id) + (SessionsOfStudent(init, id) + x);
    } else {
      assert a + b == a;
    }
  }

  /** A student's sessions, in table order, are in creation order. */
  lemma {:induction false} SessionsOfStudentInOrder(ss: seq<Session>, id: StudentId)
    requires SessionsInCreationOrder(ss)
    ensures SessionsInCreationOrder(SessionsOfStudent(ss, id))
  {
    if ss != [] {
      var init, last := ss[..|ss| - 1], ss[|ss| - 1];
      assert SessionsInCreationOrder(init);
      SessionsOfStudentInOrder(init, id);
      var prev := SessionsOfStudent(init, id);
      forall x | x in prev ensures x.createdAt < last.createdAt {
        var p :| 0 <= p < |init| && init[p] == x;
      }
    }
  }

  /** The session at index k is entry `CreationNumber - 1` of its owner's sessions in table order. */
  lemma OwnedPosition(t: Tables, email: string, k: nat, st: Student)
    requires UniqueEmails(t.students)
    requires k < |t.sessions| && st in t.students && st.id == t.sessions[k].studentId && st.email == email
    ensures var owned := OwnedSessions(t.students, t.sessions, email);
            var c := CreationNumber(t.sessions, k);
            && owned == SessionsOfStudent(t.sessions[..k], st.id) + [t.sessions[k]] + SessionsOfStudent(t.sessions[k + 1..], st.id)
            && c - 1 == |SessionsOfStudent(t.sessions[..k], st.id)|
            && c <= |owned| && owned[c - 1] == t.sessions[k]
  {
    var ss, s := t.sessions, t.sessions[k];
    OwnedIsByStudentId(t.students, ss, st);
    assert ss == ss[..k] + [s] + ss[k + 1..];
    SessionsOfStudentAppend(ss[..k] + [s], ss[k + 1..], st.id);
    SessionsOfStudentAppend(ss[..k], [s], st.id);
    assert [s][..0] == [];
  }

  // ---------------------------------------------------------------- get_user_sessions

  /**
   * In the listing, the session created as `Session-c` is the entry at index N - c, which the naming
   * loop names `Session-c`: the listing shows every session under the name `create_session` returned.
   */
  lemma ListingAgreesWithCreation(t: Tables, email: string, k: nat)
    requires UniqueEmails(t.students) && SessionsInCreationOrder(t.sessions)
    requires k < |t.sessions| && OwnedBy(t.students, t.sessions[k], email)
    ensures var rows := UserSessionRows(t, email);
            var c := CreationNumber(t.sessions, k);
            c <= |rows| && rows[|rows| - c] == ToRow(t.messages, t.sessions[k])
  {
    var st :| st in t.students && st.id == t.sessions[k].studentId && st.email == email;
    OwnedPosition(t, email, k, st);
    var owned := OwnedSessions(t.students, t.sessions, email);
    OwnedIsByStudentId(t.students, t.sessions, st);
    SessionsOfStudentInOrder(t.sessions, st.id);
    assert StrictlyDescending(owned, NegCreatedAt);
    SortByOfStrictlyDescending(owned, NegCreatedAt);
  }

  // ---------------------------------------------------------------- get_session_name

  /** The counting subquery distributes over concatenation of the table. */
  lemma {:induction false} CountSplit(students: seq<Student>, a: seq<Session>, b: seq<Session>, email: string, target: Time, bound: Bound)
    ensures CountOwnedWithin(students, a + b, email, target, bound)
         == CountOwnedWithin(students, a, email, target, bound) + CountOwnedWithin(students, b, email, target, bound)
  {
    if b != [] {
      var init, last := b[..|b| - 1], b[|b| - 1];
      assert (a + b)[..|a + b| - 1] == a + init && (a + b)[|a + b| - 1] == last;
      CountSplit(students, a, init, email, target, bound);
    } else {
      assert a + b == a;
    }
  }

  /** When every session of the email lies within the bound, the subquery counts them all. */
  lemma {:induction false} CountAll(students: seq<Student>, ss: seq<Session>, email: string, target: Time, bound: Bound)
    requires forall i :: 0 <= i < |ss| ==> InBound(ss[i].createdAt, target, bound)
    ensures CountOwnedWithin(students, ss, email, target, bound) == |OwnedSessions(students, ss, email)|
  {
    if ss != [] {
      CountAll(students, ss[..|ss| - 1], email, target, bound);
    }
  }

  /** When no session lies within the bound, the subquery counts nothing. */
  lemma {:induction false} CountNone(students: seq<Student>, ss: seq<Session>, email: string, target: Time, bound: Bound)
    requires forall i :: 0 <= i < |ss| ==> !InBound(ss[i].createdAt, target, bound)
    ensures CountOwnedWithin(students, ss, email, target, bound) == 0
  {
    if ss != [] {
      CountNone(students, ss[..|ss| - 1], email, target, bound);
    }
  }

  /** With unique session ids, the outer query of `get_session_name` finds the stored session. */
  lemma FindOwnedSessionAt(t: Tables, email: string, k: nat)
    requires UniqueSessionIds(t.sessions)
    requires k < |t.sessions| && OwnedBy(t.students, t.sessions[k], email)
    ensures FindOwnedSession(t.students, t.sessions, t.sessions[k].id, email) == Some(k)
  {
    var r := FindOwnedSession(t.students, t.sessions, t.sessions[k].id, email);
    assert t.sessions[k] in t.sessions;
    assert !(r.value < k) && !(k < r.value);
  }

  /** Splitting the table around the session at index k: the session itself falls within either bound. */
  lemma CountAround(t: Tables, email: string, k: nat, bound: Bound)
    requires k < |t.sessions| && OwnedBy(t.students, t.sessions[k], email)
    ensures var ss, target := t.sessions, t.sessions[k].createdAt;
            CountOwnedWithin(t.students, ss, email, target, bound)
              == CountOwnedWithin(t.students, ss[..k], email, target, bound) + 1
                 + CountOwnedWithin(t.students, ss[k + 1..], email, target, bound)
  {
    var ss, s := t.sessions, t.sessions[k];
    assert ss == ss[..k] + [s] + ss[k + 1..];
    CountSplit(t.students, ss[..k] + [s], ss[k + 1..], email, s.createdAt, bound);
    CountSplit(t.students, ss[..k], [s], email, s.createdAt, bound);
    assert [s][..0] == [];
    assert InBound(s.createdAt, s.createdAt, bound) by {
      match bound
      case AtOrAfter =>
      case AtOrBefore =>
    }
  }

  /** Counting the student's sessions created at or before the k-th gives its creation number. */
  lemma CountAtOrBefore(t: Tables, email: string, k: nat, st: Student)
    requires UniqueEmails(t.students) && SessionsInCreationOrder(t.sessions)
    requires k < |t.sessions| && st in t.students && st.id == t.sessions[k].studentId && st.email == email
    ensures CountOwnedWithin(t.students, t.sessions, email, t.sessions[k].createdAt, AtOrBefore) == CreationNumber(t.sessions, k)
  {
    var ss, target := t.sessions, t.sessions[k].createdAt;
    CountAround(t, email, k, AtOrBefore);
    OwnedPosition(t, email, k, st);
    OwnedIsByStudentId(t.students, ss[..k], st);
    CountAll(t.students, ss[..k], email, target, AtOrBefore);
    var b := ss[k + 1..];
    forall i | 0 <= i < |b| ensures !InBound(b[i].createdAt, target, AtOrBefore) {
      assert b[i] == ss[k + 1 + i];
    }
    CountNone(t.students, b, email, target, AtOrBefore);
  }

  /** Counting the student's sessions created at or after the k-th gives N - c + 1. */
  lemma CountAtOrAfter(t: Tables, email: string, k: nat, st: Student)
    requires UniqueEmails(t.students) && SessionsInCreationOrder(t.sessions)
    requires k < |t.sessions| && st in t.students && st.id == t.sessions[k].studentId && st.email == email
    ensures var c, n := CreationNumber(t.sessions, k), |OwnedSessions(t.students, t.sessions, email)|;
            c <= n && CountOwnedWithin(t.students, t.sessions, email, t.sessions[k].createdAt, AtOrAfter) == n - c + 1
  {
    var ss, target := t.sessions, t.sessions[k].createdAt;
    CountAround(t, email, k, AtOrAfter);
    OwnedPosition(t, email, k, st);
    var b := ss[k + 1..];
    OwnedIsByStudentId(t.students, b, st);
    forall i | 0 <= i < |b| ensures InBound(b[i].createdAt, target, AtOrAfter) {
      assert b[i] == ss[k + 1 + i];
    }
    CountAll(t.students, b, email, target, AtOrAfter);
    CountNone(t.students, ss[..k], email, target, AtOrAfter);
  }

  /** With unique session ids, the lookup of the k-th session names it by the count relative to its own creation time. */
  lemma NameByCountAt(t: Tables, email: string, k: nat, bound: Bound)
    requires UniqueSessionIds(t.sessions)
    requires k < |t.sessions| && OwnedBy(t.students, t.sessions[k], email)
    ensures NameByCount(t, t.sessions[k].id, email, bound)
         == Some(SessionName(CountOwnedWithin(t.students, t.sessions, email, t.sessions[k].createdAt, bound)))
  {
    FindOwnedSessionAt(t, email, k);
  }

  /** The corrected `get_session_name` returns the name `create_session` gave the session. */
  lemma LookupAgreesWithCreation(t: Tables, email: string, k: nat)
    requires UniqueEmails(t.students) && UniqueSessionIds(t.sessions) && SessionsInCreationOrder(t.sessions)
    requires k < |t.sessions| && OwnedBy(t.students, t.sessions[k], email)
    ensures GetSessionName(t, t.sessions[k].id, email) == Some(SessionName(CreationNumber(t.sessions, k)))
  {
    var st :| st in t.students && st.id == t.sessions[k].studentId && st.email == email;
    CountAtOrBefore(t, email, k, st);
    NameByCountAt(t, email, k, AtOrBefore);
  }

  /** Rows stored later do not change the number a stored session was created with. */
  lemma CreationNumberStable(sessions: seq<Session>, more: seq<Session>, k: nat)
    requires k < |sessions|
    ensures CreationNumber(sessions + more, k) == CreationNumber(sessions, k)
  {
    assert (sessions + more)[..k] == sessions[..k];
    assert (sessions + more)[k] == sessions[k];
  }

  /** On a consistent database, the corrected lookup of a session just created returns the name `create_session` returned. */
  lemma CreatedNameIsLookedUp(db: DbState, st: Student, persona: string, uuid: SessionId)
    requires Consistent(db) && st in db.tables.students && InsertSession(db, st.id, persona, uuid).1.Ok?
    ensures var (db', r) := InsertSession(db, st.id, persona, uuid);
            GetSessionName(db'.tables, uuid, st.email) == Some(r.value.1)
  {
    var (db', r) := InsertSession(db, st.id, persona, uuid);
    InsertSessionKeepsConsistent(db, st.id, persona, uuid);
    var k := |db'.tables.sessions| - 1;
    assert OwnedBy(db'.tables.students, db'.tables.sessions[k], st.email);
    LookupAgreesWithCreation(db'.tables, st.email, k);
  }

  /** `get_session_name` as written returns the creation number mirrored: `Session-(N - c + 1)`. */
  lemma LookupAsWrittenNumber(t: Tables, email: string, k: nat)
    requires UniqueEmails(t.students) && UniqueSessionIds(t.sessions) && SessionsInCreationOrder(t.sessions)
    requires k < |t.sessions| && OwnedBy(t.students, t.sessions[k], email)
    ensures var count := CountOwnedWithin(t.students, t.sessions, email, t.sessions[k].createdAt, AtOrAfter);
            count + CreationNumber(t.sessions, k) == |OwnedSessions(t.students, t.sessions, email)| + 1
            && GetSessionNameAsWritten(t, t.sessions[k].id, email) == Some(SessionName(count))
  {
    var st :| st in t.students && st.id == t.sessions[k].studentId && st.email == email;
    CountAtOrAfter(t, email, k, st);
    NameByCountAt(t, email, k, AtOrAfter);
  }

  /** As written, the lookup agrees with the creation name exactly for the middle session (2c = N + 1). */
  lemma LookupAsWrittenAgreesOnlyAtMedian(t: Tables, email: string, k: nat)
    requires UniqueEmails(t.students) && UniqueSessionIds(t.sessions) && SessionsInCreationOrder(t.sessions)
    requires k < |t.sessions| && OwnedBy(t.students, t.sessions[k], email)
    ensures var c, n := CreationNumber(t.sessions, k), |OwnedSessions(t.students, t.sessions, email)|;
            GetSessionNameAsWritten(t, t.sessions[k].id, email) == Some(SessionName(c)) <==> 2 * c == n + 1
  {
    LookupAsWrittenNumber(t, email, k);
    MedianByCount(GetSessionNameAsWritten(t, t.sessions[k].id, email),
      CountOwnedWithin(t.students, t.sessions, email, t.sessions[k].createdAt, AtOrAfter),
      CreationNumber(t.sessions, k), |OwnedSessions(t.students, t.sessions, email)|);
  }

  /** A name counted as N + 1 - c is the creation name `Session-c` exactly when 2c = N + 1. */
  lemma MedianByCount(name: Option<string>, count: nat, c: nat, n: nat)
    requires count + c == n + 1 && name == Some(SessionName(count))
    ensures name == Some(SessionName(c)) <==> 2 * c == n + 1
  {
    SessionNameInjective(count, c);
  }
}
