/** Rows of the three tables the persistence layer works on, and the values its helpers return. */
module Schema {

  type StudentId = nat
  type SessionId = string
  /** A value of the logical clock that stands for CURRENT_TIMESTAMP. */
  type Time = nat

  datatype Student = Student(id: StudentId, email: string, name: string, createdAt: Time, lastLogin: Time)

  /** A row of `sessions`; `persona` is the `ai_client_type` column. */
  datatype Session = Session(id: SessionId, studentId: StudentId, persona: string, createdAt: Time, status: string)

  /** A row of `messages`; `sender` is the `sender_type` column, `seqNo` the `sequence_number` column. */
  datatype Message = Message(id: nat, sessionId: SessionId, sender: string, content: string, seqNo: nat, createdAt: Time)

  datatype Tables = Tables(students: seq<Student>, sessions: seq<Session>, messages: seq<Message>)

  /** One dict of `get_conversation_history`'s result (the timestamp is left unformatted). */
  datatype HistoryEntry = HistoryEntry(role: string, content: string, timestamp: Time)

  /** One row fetched by the join-and-group query of `get_user_sessions`. */
  datatype SessionRow = SessionRow(sessionId: SessionId, persona: string, createdAt: Time, messageCount: nat)

  /** One dict of `get_user_sessions`'s result. */
  datatype SessionSummary = SessionSummary(sessionId: SessionId, sessionName: string, createdAt: Time, messageCount: nat)

  /** Constraint violations that make an INSERT fail and its transaction roll back. */
  datatype DbError =
    | DuplicateSessionId   // primary key of `sessions`
    | UnknownStudent       // foreign key sessions.student_id -> students
    | UnknownSession       // foreign key messages.session_id -> sessions

  datatype Option<T> = None | Some(value: T)

  datatype Result<T> = Ok(value: T) | Err(error: DbError)

  /** The only status `create_session` writes. */
  const ActiveStatus: string := "active"
}
