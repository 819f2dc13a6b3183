/**
 * The server's relational store: the four tables created at start-up (users, quizzes,
 * questions, quiz_results) as in-memory sequences of rows, the constraints the schema
 * declares on them (primary keys, the UNIQUE username and email, the foreign keys), the
 * request-body values the handlers receive, and the reply a handler sends.
 */
module ServerTables {
  import opened Common

  // ---------------------------------------------------------------------------
  // Request bodies and replies
  // ---------------------------------------------------------------------------

  /** A request-body property as JavaScript sees it: absent, `null`, or a value. */
  datatype Field<T> = Undefined | Null | Val(v: T)

  /** Truthiness of a string property: absent, null and "" are falsy. */
  predicate TruthyString(f: Field<string>) {
    f.Val? && f.v != ""
  }

  /** Truthiness of a number property: absent, null and 0 are falsy. */
  predicate TruthyInt(f: Field<int>) {
    f.Val? && f.v != 0
  }

  /** Truthiness of a boolean property. */
  predicate TruthyBool(f: Field<bool>) {
    f.Val? && f.v
  }

  /** The value a string property binds to in a query: absent and null both become SQL NULL. */
  function SqlValue<T>(f: Field<T>): Option<T> {
    if f.Val? then Some(f.v) else None
  }

  /** A handler's reply: a status with the JSON value it sends, or a status with `{ message }`. */
  datatype Reply<T> = Success(status: int, value: T) | Failure(status: int, message: string)

  /** What a handler leaves behind: its reply and the tables after it. */
  datatype Outcome<T> = Outcome(reply: Reply<T>, tables: Tables)

  const ServerError: string := "Server error"

  // ---------------------------------------------------------------------------
  // Rows and tables
  // ---------------------------------------------------------------------------

  /** A users row; `password` holds the bcrypt hash. */
  datatype UserRow = UserRow(id: string, username: string, email: string, password: string, createdAt: int)

  /** A quizzes row; `description` is a nullable TEXT column. */
  datatype QuizRow = QuizRow(id: string, title: string, description: Option<string>, createdBy: string,
                             isPublic: bool, createdAt: int)

  /** A questions row; `options` is the JSON column, which holds JSON `null` when the body sent null. */
  datatype QuestionRow = QuestionRow(id: string, quizId: string, text: string, options: Option<seq<string>>,
                                     correctAnswer: int)

  /** A quiz_results row. */
  datatype ResultRow = ResultRow(id: string, quizId: string, userId: string, score: int, totalQuestions: int,
                                 dateTaken: int)

  datatype Tables = Tables(users: seq<UserRow>, quizzes: seq<QuizRow>, questions: seq<QuestionRow>,
                           results: seq<ResultRow>)

  function UserKey(): UserRow -> string { (u: UserRow) => u.id }
  function UsernameKey(): UserRow -> string { (u: UserRow) => u.username }
  function EmailKey(): UserRow -> string { (u: UserRow) => u.email }
  function QuizKey(): QuizRow -> string { (q: QuizRow) => q.id }
  function QuestionKey(): QuestionRow -> string { (r: QuestionRow) => r.id }
  function ResultKey(): ResultRow -> string { (r: ResultRow) => r.id }

  predicate UserExists(t: Tables, id: string) {
    HasKey(t.users, UserKey(), id)
  }

  predicate QuizExists(t: Tables, id: string) {
    HasKey(t.quizzes, QuizKey(), id)
  }

  /** The schema's constraints: every primary key unique, username and email unique, and
      every foreign key (quiz creator, question's quiz, result's quiz and user) pointing at a row. */
  predicate WellFormed(t: Tables) {
    && UniqueKeys(t.users, UserKey())
    && UniqueKeys(t.users, UsernameKey())
    && UniqueKeys(t.users, EmailKey())
    && UniqueKeys(t.quizzes, QuizKey())
    && UniqueKeys(t.questions, QuestionKey())
    && UniqueKeys(t.results, ResultKey())
    && (forall i :: 0 <= i < |t.quizzes| ==> UserExists(t, t.quizzes[i].createdBy))
    && (forall i :: 0 <= i < |t.questions| ==> QuizExists(t, t.questions[i].quizId))
    && (forall i :: 0 <= i < |t.results| ==> QuizExists(t, t.results[i].quizId) && UserExists(t, t.results[i].userId))
  }

  /** A key present before an append is present after it, and the appended row's key is present. */
  lemma HasKeyAppend<T, K>(s: seq<T>, key: T -> K, x: T, k: K)
    ensures HasKey(s + [x], key, k) <==> HasKey(s, key, k) || key(x) == k
  {
    var t := s + [x];
    if HasKey(s, key, k) {
      var j :| 0 <= j < |s| && key(s[j]) == k;
      assert t[j] == s[j];
    }
    if key(x) == k {
      assert t[|s|] == x;
    }
    if HasKey(t, key, k) {
      var j :| 0 <= j < |t| && key(t[j]) == k;
      if j < |s| {
        assert t[j] == s[j];
      }
    }
  }

  /** The empty store satisfies every constraint. */
  lemma EmptyWellFormed()
    ensures WellFormed(Tables([], [], [], []))
  {
  }

  /** Inserting a user whose id, username and email are all new keeps the constraints. */
  lemma InsertUserKeepsWellFormed(t: Tables, u: UserRow)
    requires WellFormed(t)
    requires !HasKey(t.users, UserKey(), u.id)
    requires !HasKey(t.users, UsernameKey(), u.username)
    requires !HasKey(t.users, EmailKey(), u.email)
    ensures WellFormed(t.(users := t.users + [u]))
  {
    var t' := t.(users := t.users + [u]);
    UniqueAppend(t.users, UserKey(), u);
    UniqueAppend(t.users, UsernameKey(), u);
    UniqueAppend(t.users, EmailKey(), u);
    forall id | UserExists(t, id) ensures UserExists(t', id) {
      HasKeyAppend(t.users, UserKey(), u, id);
    }
  }

  /** Inserting a quiz with a new id whose creator exists keeps the constraints. */
  lemma InsertQuizKeepsWellFormed(t: Tables, q: QuizRow)
    requires WellFormed(t)
    requires !QuizExists(t, q.id) && UserExists(t, q.createdBy)
    ensures WellFormed(t.(quizzes := t.quizzes + [q]))
  {
    var t' := t.(quizzes := t.quizzes + [q]);
    UniqueAppend(t.quizzes, QuizKey(), q);
    forall id | QuizExists(t, id) ensures QuizExists(t', id) {
      HasKeyAppend(t.quizzes, QuizKey(), q, id);
    }
    forall i | 0 <= i < |t'.quizzes| ensures UserExists(t', t'.quizzes[i].createdBy) {
      if i < |t.quizzes| {
        assert t'.quizzes[i] == t.quizzes[i];
      }
    }
  }

  /** Inserting a question with a new id whose quiz exists keeps the constraints. */
  lemma InsertQuestionKeepsWellFormed(t: Tables, r: QuestionRow)
    requires WellFormed(t)
    requires !HasKey(t.questions, QuestionKey(), r.id) && QuizExists(t, r.quizId)
    ensures WellFormed(t.(questions := t.questions + [r]))
  {
    var t' := t.(questions := t.questions + [r]);
    UniqueAppend(t.questions, QuestionKey(), r);
    forall i | 0 <= i < |t'.questions| ensures QuizExists(t', t'.questions[i].quizId) {
      if i < |t.questions| {
        assert t'.questions[i] == t.questions[i];
      }
    }
  }

  /** Inserting a result with a new id whose quiz and user exist keeps the constraints. */
  lemma InsertResultKeepsWellFormed(t: Tables, r: ResultRow)
    requires WellFormed(t)
    requires !HasKey(t.results, ResultKey(), r.id) && QuizExists(t, r.quizId) && UserExists(t, r.userId)
    ensures WellFormed(t.(results := t.results + [r]))
  {
    var t' := t.(results := t.results + [r]);
    UniqueAppend(t.results, ResultKey(), r);
    forall i | 0 <= i < |t'.results| ensures QuizExists(t', t'.results[i].quizId) && UserExists(t', t'.results[i].userId) {
      if i < |t.results| {
        assert t'.results[i] == t.results[i];
      }
    }
  }

  // ---------------------------------------------------------------------------
  // Reading questions back
  // ---------------------------------------------------------------------------

  /** A question as the getters send it (`options` parsed back from its JSON column). */
  datatype QuestionView = QuestionView(id: string, text: string, options: Option<seq<string>>, correctAnswer: int)

  function FormatQuestion(r: QuestionRow): QuestionView {
    QuestionView(r.id, r.text, r.options, r.correctAnswer)
  }

  function FormatQuestions(rows: seq<QuestionRow>): (r: seq<QuestionView>)
    ensures |r| == |rows|
    ensures forall i :: 0 <= i < |rows| ==> r[i] == FormatQuestion(rows[i])
  {
    seq(|rows|, i requires 0 <= i < |rows| => FormatQuestion(rows[i]))
  }

  function OfQuiz(quizId: string): QuestionRow -> bool {
    (r: QuestionRow) => r.quizId == quizId
  }

  /** `SELECT id, text, options, correct_answer FROM questions WHERE quiz_id = ?`, formatted.
      The query has no ORDER BY: only the multiset of questions is meaningful. */
  function QuestionsOf(t: Tables, quizId: string): seq<QuestionView> {
    FormatQuestions(Filter(t.questions, OfQuiz(quizId)))
  }

  // ---------------------------------------------------------------------------
  // The connection pool's view of the tables
  // ---------------------------------------------------------------------------

  /** The database the handlers share. Each handler is one atomic step on it. */
  class Database {
    var users: seq<UserRow>
    var quizzes: seq<QuizRow>
    var questions: seq<QuestionRow>
    var results: seq<ResultRow>

    function Snapshot(): Tables
      reads this
    {
      Tables(users, quizzes, questions, results)
    }

    constructor (t: Tables)
      ensures Snapshot() == t
    {
      users := t.users;
      quizzes := t.quizzes;
      questions := t.questions;
      results := t.results;
    }

    /** A transaction's rollback: every table is put back as it was at BEGIN. */
    method Restore(t: Tables)
      modifies this
      ensures Snapshot() == t
    {
      users := t.users;
      quizzes := t.quizzes;
      questions := t.questions;
      results := t.results;
    }
  }
}
