/**
 * The quiz handlers of the API server. Creating and updating validate the body, then
 * write inside a transaction that inserts one question row per submitted question and
 * is rolled back as a whole when an insert violates a constraint. Updating and deleting
 * first check that the quiz exists and belongs to the caller. The getters join each quiz
 * with its creator and attach its questions. The caller's id comes from the verified
 * token; fresh ids and the clock are parameters.
 */
module QuizController {
  import opened Common
  import opened ServerTables

  /** One element of the body's `questions` array. */
  datatype QuestionBody = QuestionBody(text: Field<string>, options: Field<seq<string>>, correctAnswer: Field<int>)

  /** `{ title, description, isPublic, questions }`; `questions` is None when the property is
      absent, null or not an array, which all fail the same check. */
  datatype QuizBody = QuizBody(title: Field<string>, description: Field<string>, isPublic: Field<bool>,
                               questions: Option<seq<QuestionBody>>)

  const BodyInvalid: string := "Title and at least one question are required"
  const NotFoundOrUnauthorized: string := "Quiz not found or unauthorized"
  const QuizNotFound: string := "Quiz not found"
  const QuizDeleted: string := "Quiz deleted successfully"

  /** `title` truthy and `questions` a non-empty array. */
  predicate BodyValid(body: QuizBody) {
    TruthyString(body.title) && body.questions.Some? && |body.questions.value| > 0
  }

  // ---------------------------------------------------------------------------
  // Inserting question rows
  // ---------------------------------------------------------------------------

  /** The row `INSERT INTO questions` writes for one submitted question, or None when the
      insert violates NOT NULL: an absent or null text or correct answer binds as NULL, and
      so do absent options (JSON.stringify(undefined)), while null options are stored as JSON null. */
  function QuestionRowOf(id: string, quizId: string, q: QuestionBody): Option<QuestionRow> {
    if q.text.Val? && q.correctAnswer.Val? && !q.options.Undefined? then
      Some(QuestionRow(id, quizId, q.text.v, SqlValue(q.options), q.correctAnswer.v))
    else
      None
  }

  /** The primary key and the foreign key of the questions table accept the row. */
  predicate CanInsertQuestion(t: Tables, r: QuestionRow) {
    !HasKey(t.questions, QuestionKey(), r.id) && QuizExists(t, r.quizId)
  }

  /** The insert loop: question `i` gets id `ids[i]`; the first failing insert aborts. */
  function InsertQuestions(t: Tables, quizId: string, qs: seq<QuestionBody>, ids: seq<string>): Option<Tables>
    requires |ids| == |qs|
    decreases |qs|
  {
    if qs == [] then Some(t)
    else
      var row := QuestionRowOf(ids[0], quizId, qs[0]);
      if row.None? || !CanInsertQuestion(t, row.value) then None
      else InsertQuestions(t.(questions := t.questions + [row.value]), quizId, qs[1..], ids[1..])
  }

  /** Every submitted question has the columns NOT NULL demands. */
  predicate RowsComplete(quizId: string, qs: seq<QuestionBody>, ids: seq<string>)
    requires |ids| == |qs|
  {
    forall i :: 0 <= i < |qs| ==> QuestionRowOf(ids[i], quizId, qs[i]).Some?
  }

  function Rows(quizId: string, qs: seq<QuestionBody>, ids: seq<string>): (r: seq<QuestionRow>)
    requires |ids| == |qs| && RowsComplete(quizId, qs, ids)
    ensures |r| == |qs|
    ensures forall i :: 0 <= i < |qs| ==> r[i] == QuestionRowOf(ids[i], quizId, qs[i]).value
  {
    seq(|qs|, i requires 0 <= i < |qs| && RowsComplete(quizId, qs, ids) => QuestionRowOf(ids[i], quizId, qs[i]).value)
  }

  /** The new ids are pairwise distinct and absent from the existing rows. */
  predicate IdsFresh(existing: seq<QuestionRow>, ids: seq<string>) {
    && (forall i, j :: 0 <= i < j < |ids| ==> ids[i] != ids[j])
    && (forall i :: 0 <= i < |ids| ==> !HasKey(existing, QuestionKey(), ids[i]))
  }

  lemma IdsFreshStep(existing: seq<QuestionRow>, r: QuestionRow, ids: seq<string>)
    requires ids != [] && r.id == ids[0]
    ensures IdsFresh(existing, ids) <==>
      !HasKey(existing, QuestionKey(), ids[0]) && IdsFresh(existing + [r], ids[1..])
  {
    forall k | 0 <= k < |ids| {
      HasKeyAppend(existing, QuestionKey(), r, ids[k]);
    }
    if !HasKey(existing, QuestionKey(), ids[0]) && IdsFresh(existing + [r], ids[1..]) {
      forall i, j | 0 <= i < j < |ids| ensures ids[i] != ids[j] {
        if i > 0 {
          assert ids[i] == ids[1..][i - 1] && ids[j] == ids[1..][j - 1];
        } else {
          assert ids[j] == ids[1..][j - 1];
        }
      }
    }
  }

  lemma RowsCompleteStep(quizId: string, qs: seq<QuestionBody>, ids: seq<string>)
    requires |ids| == |qs| && qs != []
    ensures RowsComplete(quizId, qs, ids) <==>
      QuestionRowOf(ids[0], quizId, qs[0]).Some? && RowsComplete(quizId, qs[1..], ids[1..])
    ensures RowsComplete(quizId, qs, ids) ==>
      Rows(quizId, qs, ids) == [QuestionRowOf(ids[0], quizId, qs[0]).value] + Rows(quizId, qs[1..], ids[1..])
  {
    forall i | 0 < i < |qs| ensures qs[1..][i - 1] == qs[i] && ids[1..][i - 1] == ids[i] {
    }
  }

  /** The insert loop succeeds exactly when the quiz row is there (or nothing is to be
      inserted), every question is complete and every id is fresh; it then appends one row
      per question, in order, and changes no other table. */
  lemma {:induction false} InsertQuestionsEffect(t: Tables, quizId: string, qs: seq<QuestionBody>, ids: seq<string>)
    requires |ids| == |qs|
    decreases |qs|
    ensures InsertQuestions(t, quizId, qs, ids).Some? <==>
      (qs == [] || QuizExists(t, quizId)) && RowsComplete(quizId, qs, ids) && IdsFresh(t.questions, ids)
    ensures InsertQuestions(t, quizId, qs, ids).Some? ==>
      RowsComplete(quizId, qs, ids) &&
      InsertQuestions(t, quizId, qs, ids).value == t.(questions := t.questions + Rows(quizId, qs, ids))
  {
    if qs == [] {
      assert t.questions + Rows(quizId, qs, ids) == t.questions;
    } else {
      RowsCompleteStep(quizId, qs, ids);
      var row := QuestionRowOf(ids[0], quizId, qs[0]);
      if row.Some? {
        InsertQuestionsStep(t, quizId, qs, ids, row.value);
      }
    }
  }

  /** One turn of the insert loop, given that the first question makes a row. */
  lemma {:induction false} InsertQuestionsStep(t: Tables, quizId: string, qs: seq<QuestionBody>, ids: seq<string>,
                                               row: QuestionRow)
    requires |ids| == |qs| && qs != [] && QuestionRowOf(ids[0], quizId, qs[0]) == Some(row)
    requires RowsComplete(quizId, qs, ids) <==> RowsComplete(quizId, qs[1..], ids[1..])
    requires RowsComplete(quizId, qs, ids) ==>
      Rows(quizId, qs, ids) == [row] + Rows(quizId, qs[1..], ids[1..])
    decreases |qs|, 0
    ensures InsertQuestions(t, quizId, qs, ids).Some? <==>
      QuizExists(t, quizId) && RowsComplete(quizId, qs, ids) && IdsFresh(t.questions, ids)
    ensures InsertQuestions(t, quizId, qs, ids).Some? ==>
      RowsComplete(quizId, qs, ids) &&
      InsertQuestions(t, quizId, qs, ids).value == t.(questions := t.questions + Rows(quizId, qs, ids))
  {
    IdsFreshStep(t.questions, row, ids);
    if CanInsertQuestion(t, row) {
      var t1 := t.(questions := t.questions + [row]);
      InsertQuestionsUnfold(t, quizId, qs, ids, row);
      InsertQuestionsEffect(t1, quizId, qs[1..], ids[1..]);
      var inserted := InsertQuestions(t1, quizId, qs[1..], ids[1..]);
      if inserted.Some? {
        AppendRowsStep(t, row, Rows(quizId, qs[1..], ids[1..]), Rows(quizId, qs, ids));
      }
    } else {
      InsertQuestionsRejected(t, quizId, qs, ids, row);
    }
  }

  /** Appending a row and then the rest is appending the row followed by the rest. */
  lemma AppendRowsStep(t: Tables, row: QuestionRow, rest: seq<QuestionRow>, all: seq<QuestionRow>)
    requires all == [row] + rest
    ensures t.(questions := t.questions + [row]).(questions := t.questions + [row] + rest)
         == t.(questions := t.questions + all)
  {
    assert t.questions + [row] + rest == t.questions + all;
  }

  /** The insert loop after an accepted first row goes on from the tables holding it. */
  lemma InsertQuestionsUnfold(t: Tables, quizId: string, qs: seq<QuestionBody>, ids: seq<string>, row: QuestionRow)
    requires |ids| == |qs| && qs != [] && QuestionRowOf(ids[0], quizId, qs[0]) == Some(row)
    requires CanInsertQuestion(t, row)
    ensures QuizExists(t, quizId) && !HasKey(t.questions, QuestionKey(), ids[0])
    ensures InsertQuestions(t, quizId, qs, ids)
         == InsertQuestions(t.(questions := t.questions + [row]), quizId, qs[1..], ids[1..])
  {
  }

  /** A first row that the keys refuse aborts the loop, and then a key check fails. */
  lemma InsertQuestionsRejected(t: Tables, quizId: string, qs: seq<QuestionBody>, ids: seq<string>, row: QuestionRow)
    requires |ids| == |qs| && qs != [] && QuestionRowOf(ids[0], quizId, qs[0]) == Some(row)
    requires !CanInsertQuestion(t, row)
    ensures InsertQuestions(t, quizId, qs, ids).None?
    ensures !QuizExists(t, quizId) || HasKey(t.questions, QuestionKey(), ids[0])
  {
  }

  lemma {:induction false} InsertQuestionsKeepsWellFormed(t: Tables, quizId: string, qs: seq<QuestionBody>, ids: seq<string>)
    requires |ids| == |qs| && WellFormed(t) && InsertQuestions(t, quizId, qs, ids).Some?
    decreases |qs|
    ensures WellFormed(InsertQuestions(t, quizId, qs, ids).value)
  {
    if qs != [] {
      var row := QuestionRowOf(ids[0], quizId, qs[0]).value;
      InsertQuestionKeepsWellFormed(t, row);
      InsertQuestionsKeepsWellFormed(t.(questions := t.questions + [row]), quizId, qs[1..], ids[1..]);
    }
  }

  // ---------------------------------------------------------------------------
  // createQuiz
  // ---------------------------------------------------------------------------

  /** The quizzes row createQuiz inserts: `description` NULL when absent, `is_public` the
      truthiness of `isPublic`, `created_at` the current time. */
  function NewQuizRow(body: QuizBody, quizId: string, userId: string, now: int): QuizRow
    requires TruthyString(body.title)
  {
    QuizRow(quizId, body.title.v, SqlValue(body.description), userId, TruthyBool(body.isPublic), now)
  }

  /** The primary key and the creator's foreign key accept the row. */
  predicate CanInsertQuiz(t: Tables, q: QuizRow) {
    !QuizExists(t, q.id) && UserExists(t, q.createdBy)
  }

  /** The JSON the create and update handlers send back: the submitted fields as received
      (their freshly generated question ids are not modelled). */
  datatype SavedQuiz = SavedQuiz(id: string, title: string, description: Field<string>, isPublic: Field<bool>,
                                 createdBy: string, createdAt: Option<int>, questions: seq<QuestionBody>)

  /** createQuiz as one atomic step. The row's `created_at` is the column default, the time
      `now`; the reply's `createdAt` is a separate clock reading, `replyTime`. */
  function CreateQuizSpec(t: Tables, userId: string, body: QuizBody, quizId: string, questionIds: seq<string>,
                          now: int, replyTime: int)
    : Outcome<SavedQuiz>
    requires BodyValid(body) ==> |questionIds| == |body.questions.value|
  {
    if !BodyValid(body) then Outcome(Failure(400, BodyInvalid), t)
    else
      var row := NewQuizRow(body, quizId, userId, now);
      if !CanInsertQuiz(t, row) then Outcome(Failure(500, ServerError), t)
      else
        var inserted := InsertQuestions(t.(quizzes := t.quizzes + [row]), quizId, body.questions.value, questionIds);
        if inserted.None? then Outcome(Failure(500, ServerError), t)
        else
          Outcome(Success(201, SavedQuiz(quizId, body.title.v, body.description, body.isPublic, userId, Some(replyTime),
                                         body.questions.value)),
                  inserted.value)
  }

  /** What createQuiz leaves behind. An invalid body gets the 400 and writes nothing. It
      succeeds exactly when the body is valid and every insert is accepted, and then it has
      written one quiz row owned by the caller and one question row per submitted question,
      all carrying the new quiz id, and nothing else. Any failure leaves every table as it
      was. The schema's constraints are kept. */
  lemma CreateQuizOutcome(t: Tables, userId: string, body: QuizBody, quizId: string, questionIds: seq<string>,
                          now: int, replyTime: int)
    requires BodyValid(body) ==> |questionIds| == |body.questions.value|
    ensures var o := CreateQuizSpec(t, userId, body, quizId, questionIds, now, replyTime);
      && (o.reply == Failure(400, BodyInvalid) <==> !BodyValid(body))
      && (o.reply.Failure? ==> o.tables == t)
      && (o.reply.Success? <==>
            BodyValid(body) && CanInsertQuiz(t, NewQuizRow(body, quizId, userId, now)) &&
            RowsComplete(quizId, body.questions.value, questionIds) && IdsFresh(t.questions, questionIds))
      && (o.reply.Success? ==>
            o.reply.status == 201 && RowsComplete(quizId, body.questions.value, questionIds) &&
            o.reply.value == SavedQuiz(quizId, body.title.v, body.description, body.isPublic, userId, Some(replyTime),
                                       body.questions.value) &&
            o.tables == Tables(t.users, t.quizzes + [NewQuizRow(body, quizId, userId, now)],
                               t.questions + Rows(quizId, body.questions.value, questionIds), t.results))
      && (WellFormed(t) ==> WellFormed(o.tables))
  {
    if BodyValid(body) {
      var row := NewQuizRow(body, quizId, userId, now);
      if CanInsertQuiz(t, row) {
        var t1 := t.(quizzes := t.quizzes + [row]);
        HasKeyAppend(t.quizzes, QuizKey(), row, quizId);
        InsertQuestionsEffect(t1, quizId, body.questions.value, questionIds);
        if WellFormed(t) {
          InsertQuizKeepsWellFormed(t, row);
          if InsertQuestions(t1, quizId, body.questions.value, questionIds).Some? {
            InsertQuestionsKeepsWellFormed(t1, quizId, body.questions.value, questionIds);
          }
        }
      }
    }
  }

  // ---------------------------------------------------------------------------
  // The getters
  // ---------------------------------------------------------------------------

  /** A quiz as the getters send it; `creatorName` is present only where the query joins users. */
  datatype QuizView = QuizView(id: string, title: string, description: Option<string>, createdBy: string,
                               creatorName: Option<string>, isPublic: bool, createdAt: int,
                               questions: seq<QuestionView>)

  /** `u.username as creator_name` from `JOIN users u ON q.created_by = u.id`. */
  function CreatorName(t: Tables, userId: string): Option<string> {
    var u := Find(t.users, KeyIs(UserKey(), userId));
    if u.Some? then Some(u.value.username) else None
  }

  /** A quiz row formatted with its questions (`!!quiz.is_public` is already a boolean here). */
  function View(t: Tables, q: QuizRow, withCreator: bool): QuizView {
    QuizView(q.id, q.title, q.description, q.createdBy, if withCreator then CreatorName(t, q.createdBy) else None,
             q.isPublic, q.createdAt, QuestionsOf(t, q.id))
  }

  function Views(t: Tables, rows: seq<QuizRow>, withCreator: bool): (r: seq<QuizView>)
    ensures |r| == |rows|
    ensures forall i :: 0 <= i < |rows| ==> r[i] == View(t, rows[i], withCreator)
  {
    seq(|rows|, i requires 0 <= i < |rows| => View(t, rows[i], withCreator))
  }

  function QuizCreatedAt(): QuizRow -> int {
    (q: QuizRow) => q.createdAt
  }

  /** The rows of `s` that pass `p`, newest first (`ORDER BY created_at DESC`), formatted. */
  function Listing(t: Tables, s: seq<QuizRow>, p: QuizRow -> bool, withCreator: bool): seq<QuizView> {
    Views(t, SortDesc(Filter(s, p), QuizCreatedAt()), withCreator)
  }

  /** A listing is newest first. */
  lemma ListingOrder(t: Tables, s: seq<QuizRow>, p: QuizRow -> bool, withCreator: bool)
    ensures var r := Listing(t, s, p, withCreator);
      forall i, j :: 0 <= i < j < |r| ==> r[i].createdAt >= r[j].createdAt
  {
    var rows := SortDesc(Filter(s, p), QuizCreatedAt());
    assert forall i, j :: 0 <= i < j < |rows| ==> QuizCreatedAt()(rows[i]) >= QuizCreatedAt()(rows[j]);
  }

  /** Every view in a listing is the view of a row of `s` that passes `p`. */
  lemma ListingSound(t: Tables, s: seq<QuizRow>, p: QuizRow -> bool, withCreator: bool)
    ensures var r := Listing(t, s, p, withCreator);
      forall i :: 0 <= i < |r| ==> exists q :: q in s && p(q) && r[i] == View(t, q, withCreator)
  {
    var rows := SortDesc(Filter(s, p), QuizCreatedAt());
    var r := Views(t, rows, withCreator);
    forall i | 0 <= i < |r| ensures exists q :: q in s && p(q) && r[i] == View(t, q, withCreator) {
      SortedFilterMembers(s, p, QuizCreatedAt(), rows[i]);
    }
  }

  /** A row's view is in a listing exactly when the row is in `s` and passes `p`. */
  lemma ListingComplete(t: Tables, s: seq<QuizRow>, p: QuizRow -> bool, withCreator: bool, q: QuizRow)
    ensures View(t, q, withCreator) in Listing(t, s, p, withCreator) <==> q in s && p(q)
  {
    var rows := SortDesc(Filter(s, p), QuizCreatedAt());
    var r := Views(t, rows, withCreator);
    SortedFilterMembers(s, p, QuizCreatedAt(), q);
    if View(t, q, withCreator) in r {
      var i :| 0 <= i < |r| && r[i] == View(t, q, withCreator);
      assert rows[i] == q;
    }
    if q in rows {
      var i :| 0 <= i < |rows| && rows[i] == q;
      assert r[i] == View(t, q, withCreator);
    }
  }

  function PublicJoined(t: Tables): QuizRow -> bool {
    (q: QuizRow) => q.isPublic && UserExists(t, q.createdBy)
  }

  /** getQuizzes: the public quizzes that join with their creator, newest first (status 200). */
  function GetQuizzes(t: Tables): seq<QuizView> {
    Listing(t, t.quizzes, PublicJoined(t), true)
  }

  /** getQuizzes lists only public quizzes, newest first, and lists every stored public
      quiz whose creator exists (with the schema's constraints, every public quiz). */
  lemma GetQuizzesListing(t: Tables)
    ensures var r := GetQuizzes(t);
      && (forall i :: 0 <= i < |r| ==> r[i].isPublic)
      && (forall i, j :: 0 <= i < j < |r| ==> r[i].createdAt >= r[j].createdAt)
      && (forall q :: View(t, q, true) in r <==> q in t.quizzes && q.isPublic && UserExists(t, q.createdBy))
      && (WellFormed(t) ==> forall q :: q in t.quizzes && q.isPublic ==> View(t, q, true) in r)
  {
    ListingOrder(t, t.quizzes, PublicJoined(t), true);
    ListingSound(t, t.quizzes, PublicJoined(t), true);
    forall q ensures View(t, q, true) in GetQuizzes(t) <==> q in t.quizzes && q.isPublic && UserExists(t, q.createdBy) {
      ListingComplete(t, t.quizzes, PublicJoined(t), true, q);
    }
    if WellFormed(t) {
      forall q | q in t.quizzes && q.isPublic ensures View(t, q, true) in GetQuizzes(t) {
        ListingComplete(t, t.quizzes, PublicJoined(t), true, q);
      }
    }
  }

  function CreatedBy(userId: string): QuizRow -> bool {
    (q: QuizRow) => q.createdBy == userId
  }

  /** getUserQuizzes: the caller's quizzes, newest first, without a creator name (status 200). */
  function GetUserQuizzes(t: Tables, userId: string): seq<QuizView> {
    Listing(t, t.quizzes, CreatedBy(userId), false)
  }

  /** getUserQuizzes lists exactly the caller's quizzes, newest first. */
  lemma GetUserQuizzesListing(t: Tables, userId: string)
    ensures var r := GetUserQuizzes(t, userId);
      && (forall i :: 0 <= i < |r| ==> r[i].createdBy == userId)
      && (forall i, j :: 0 <= i < j < |r| ==> r[i].createdAt >= r[j].createdAt)
      && (forall q :: View(t, q, false) in r <==> q in t.quizzes && q.createdBy == userId)
  {
    ListingOrder(t, t.quizzes, CreatedBy(userId), false);
    ListingSound(t, t.quizzes, CreatedBy(userId), false);
    forall q ensures View(t, q, false) in GetUserQuizzes(t, userId) <==> q in t.quizzes && q.createdBy == userId {
      ListingComplete(t, t.quizzes, CreatedBy(userId), false, q);
    }
  }

  function JoinedWithId(t: Tables, quizId: string): QuizRow -> bool {
    (q: QuizRow) => q.id == quizId && UserExists(t, q.createdBy)
  }

  /** getQuizById: the quiz with that id joined with its creator, or 404. */
  function GetQuizById(t: Tables, quizId: string): Reply<QuizView> {
    var q := Find(t.quizzes, JoinedWithId(t, quizId));
    if q.None? then Failure(404, QuizNotFound) else Success(200, View(t, q.value, true))
  }

  /** With the schema's constraints, getQuizById answers 404 exactly when no quiz has the
      id, and otherwise the view of that quiz, with its creator's name. */
  lemma GetQuizByIdResult(t: Tables, quizId: string)
    requires WellFormed(t)
    ensures GetQuizById(t, quizId).Failure? <==> !QuizExists(t, quizId)
    ensures GetQuizById(t, quizId).Failure? ==> GetQuizById(t, quizId) == Failure(404, QuizNotFound)
    ensures forall i :: 0 <= i < |t.quizzes| && t.quizzes[i].id == quizId ==>
      GetQuizById(t, quizId) == Success(200, View(t, t.quizzes[i], true)) &&
      View(t, t.quizzes[i], true).creatorName.Some?
  {
    var p := JoinedWithId(t, quizId);
    if QuizExists(t, quizId) {
      var i :| 0 <= i < |t.quizzes| && QuizKey()(t.quizzes[i]) == quizId;
      assert p(t.quizzes[i]);
    } else {
      forall i | 0 <= i < |t.quizzes| ensures !p(t.quizzes[i]) {
        assert QuizKey()(t.quizzes[i]) != quizId;
      }
    }
    forall i | 0 <= i < |t.quizzes| && t.quizzes[i].id == quizId
      ensures GetQuizById(t, quizId) == Success(200, View(t, t.quizzes[i], true))
      ensures View(t, t.quizzes[i], true).creatorName.Some?
    {
      assert p(t.quizzes[i]);
      var found := Find(t.quizzes, p).value;
      var j :| 0 <= j < |t.quizzes| && t.quizzes[j] == found;
      assert QuizKey()(t.quizzes[j]) == QuizKey()(t.quizzes[i]);
      UniqueKeyIndex(t.quizzes, QuizKey(), i, j);
      var u :| 0 <= u < |t.users| && UserKey()(t.users[u]) == t.quizzes[i].createdBy;
      assert KeyIs(UserKey(), t.quizzes[i].createdBy)(t.users[u]);
    }
  }

  /** A quiz just created is found by getQuizById with the submitted title, description and
      visibility, the caller as creator, the creation time, and exactly the submitted
      questions (as a multiset: the query does not order them). */
  lemma CreateThenGet(t: Tables, userId: string, body: QuizBody, quizId: string, questionIds: seq<string>,
                      now: int, replyTime: int)
    requires WellFormed(t)
    requires BodyValid(body) ==> |questionIds| == |body.questions.value|
    requires CreateQuizSpec(t, userId, body, quizId, questionIds, now, replyTime).reply.Success?
    ensures BodyValid(body) && RowsComplete(quizId, body.questions.value, questionIds)
    ensures var t' := CreateQuizSpec(t, userId, body, quizId, questionIds, now, replyTime).tables;
      var r := GetQuizById(t', quizId);
      && r.Success? && r.status == 200
      && r.value.id == quizId && r.value.title == body.title.v && r.value.description == SqlValue(body.description)
      && r.value.createdBy == userId && r.value.isPublic == TruthyBool(body.isPublic) && r.value.createdAt == now
      && multiset(r.value.questions) == multiset(FormatQuestions(Rows(quizId, body.questions.value, questionIds)))
  {
    CreatedTables(t, userId, body, quizId, questionIds, now, replyTime);
    var row := NewQuizRow(body, quizId, userId, now);
    var rows := Rows(quizId, body.questions.value, questionIds);
    var t' := CreateQuizSpec(t, userId, body, quizId, questionIds, now, replyTime).tables;
    assert t'.quizzes[|t.quizzes|] == row;
    GetQuizByIdResult(t', quizId);
    NewQuizQuestions(t, rows, quizId);
    assert QuestionsOf(t', quizId) == FormatQuestions(rows);
  }

  /** The tables a successful create leaves: the new quiz row, whose id was free, and its
      question rows appended to well-formed tables. */
  lemma CreatedTables(t: Tables, userId: string, body: QuizBody, quizId: string, questionIds: seq<string>,
                      now: int, replyTime: int)
    requires WellFormed(t)
    requires BodyValid(body) ==> |questionIds| == |body.questions.value|
    requires CreateQuizSpec(t, userId, body, quizId, questionIds, now, replyTime).reply.Success?
    ensures BodyValid(body) && RowsComplete(quizId, body.questions.value, questionIds) && !QuizExists(t, quizId)
    ensures var rows := Rows(quizId, body.questions.value, questionIds);
      (forall i :: 0 <= i < |rows| ==> rows[i].quizId == quizId) &&
      CreateQuizSpec(t, userId, body, quizId, questionIds, now, replyTime).tables
        == Tables(t.users, t.quizzes + [NewQuizRow(body, quizId, userId, now)], t.questions + rows, t.results)
    ensures WellFormed(CreateQuizSpec(t, userId, body, quizId, questionIds, now, replyTime).tables)
  {
    CreateQuizOutcome(t, userId, body, quizId, questionIds, now, replyTime);
  }

  /** A quiz id that no row has yet owns no question rows, so after appending rows for it,
      its questions are exactly those rows. */
  lemma NewQuizQuestions(t: Tables, rows: seq<QuestionRow>, quizId: string)
    requires WellFormed(t) && !QuizExists(t, quizId)
    requires forall i :: 0 <= i < |rows| ==> rows[i].quizId == quizId
    ensures Filter(t.questions + rows, OfQuiz(quizId)) == rows
  {
    FilterAppend(t.questions, rows, OfQuiz(quizId));
    forall i | 0 <= i < |t.questions| ensures !OfQuiz(quizId)(t.questions[i]) {
      assert QuizExists(t, t.questions[i].quizId);
    }
    FilterNone(t.questions, OfQuiz(quizId));
    FilterAll(rows, OfQuiz(quizId));
  }

  // ---------------------------------------------------------------------------
  // updateQuiz and deleteQuiz
  // ---------------------------------------------------------------------------

  /** `SELECT * FROM quizzes WHERE id = ? AND created_by = ?` returns a row. */
  predicate OwnedBy(t: Tables, quizId: string, userId: string) {
    exists i :: 0 <= i < |t.quizzes| && t.quizzes[i].id == quizId && t.quizzes[i].createdBy == userId
  }

  /** `UPDATE quizzes SET title = ?, description = ?, is_public = ? WHERE id = ?` */
  function RewriteQuiz(quizzes: seq<QuizRow>, quizId: string, title: string, description: Option<string>,
                       isPublic: bool): (r: seq<QuizRow>)
    ensures |r| == |quizzes|
    ensures forall i :: 0 <= i < |quizzes| ==>
      r[i] == if quizzes[i].id == quizId then quizzes[i].(title := title, description := description, isPublic := isPublic)
              else quizzes[i]
  {
    seq(|quizzes|, i requires 0 <= i < |quizzes| =>
      if quizzes[i].id == quizId then quizzes[i].(title := title, description := description, isPublic := isPublic)
      else quizzes[i])
  }

  function NotOfQuiz(quizId: string): QuestionRow -> bool {
    (r: QuestionRow) => r.quizId != quizId
  }

  /** The tables after the UPDATE and the `DELETE FROM questions WHERE quiz_id = ?`. */
  function Cleared(t: Tables, quizId: string, body: QuizBody): Tables
    requires TruthyString(body.title)
  {
    t.(quizzes := RewriteQuiz(t.quizzes, quizId, body.title.v, SqlValue(body.description), TruthyBool(body.isPublic)),
       questions := Filter(t.questions, NotOfQuiz(quizId)))
  }

  /** updateQuiz as one atomic step: body first, then ownership, then the transaction. */
  function UpdateQuizSpec(t: Tables, userId: string, quizId: string, body: QuizBody, questionIds: seq<string>)
    : Outcome<SavedQuiz>
    requires BodyValid(body) ==> |questionIds| == |body.questions.value|
  {
    if !BodyValid(body) then Outcome(Failure(400, BodyInvalid), t)
    else if !OwnedBy(t, quizId, userId) then Outcome(Failure(404, NotFoundOrUnauthorized), t)
    else
      var inserted := InsertQuestions(Cleared(t, quizId, body), quizId, body.questions.value, questionIds);
      if inserted.None? then Outcome(Failure(500, ServerError), t)
      else
        Outcome(Success(200, SavedQuiz(quizId, body.title.v, body.description, body.isPublic, userId, None,
                                       body.questions.value)),
                inserted.value)
  }

  /** The rewrite keeps every row's id, so it keeps the set of quiz ids and their uniqueness. */
  lemma RewriteKeepsIds(t: Tables, quizId: string, body: QuizBody)
    requires TruthyString(body.title)
    ensures forall id :: QuizExists(Cleared(t, quizId, body), id) <==> QuizExists(t, id)
    ensures UniqueKeys(t.quizzes, QuizKey()) ==> UniqueKeys(Cleared(t, quizId, body).quizzes, QuizKey())
  {
    var c := Cleared(t, quizId, body);
    forall id ensures QuizExists(c, id) <==> QuizExists(t, id) {
      if QuizExists(c, id) {
        var i :| 0 <= i < |c.quizzes| && QuizKey()(c.quizzes[i]) == id;
        assert QuizKey()(t.quizzes[i]) == id;
      }
      if QuizExists(t, id) {
        var i :| 0 <= i < |t.quizzes| && QuizKey()(t.quizzes[i]) == id;
        assert QuizKey()(c.quizzes[i]) == id;
      }
    }
  }

  lemma ClearedKeepsWellFormed(t: Tables, quizId: string, body: QuizBody)
    requires TruthyString(body.title) && WellFormed(t)
    ensures WellFormed(Cleared(t, quizId, body))
  {
    var c := Cleared(t, quizId, body);
    RewriteKeepsIds(t, quizId, body);
    UniqueFilter(t.questions, QuestionKey(), NotOfQuiz(quizId));
    forall i | 0 <= i < |c.quizzes| ensures UserExists(c, c.quizzes[i].createdBy) {
      assert c.quizzes[i].createdBy == t.quizzes[i].createdBy;
    }
    forall i | 0 <= i < |c.questions| ensures QuizExists(c, c.questions[i].quizId) {
      var j :| 0 <= j < |t.questions| && t.questions[j] == c.questions[i];
    }
  }

  /** What updateQuiz leaves behind. An invalid body gets the 400 whoever owns the quiz; a
      valid body for a quiz that is absent or not the caller's gets the 404; neither writes.
      It succeeds exactly when, besides, every new question row is accepted; the quiz row
      then carries the new title, description and visibility with its owner and creation
      time kept, the quiz's old question rows are gone and the new ones appended, and
      nothing else changes. Any failure leaves every table as it was. */
  lemma UpdateQuizOutcome(t: Tables, userId: string, quizId: string, body: QuizBody, questionIds: seq<string>)
    requires BodyValid(body) ==> |questionIds| == |body.questions.value|
    ensures var o := UpdateQuizSpec(t, userId, quizId, body, questionIds);
      && (!BodyValid(body) ==> o.reply == Failure(400, BodyInvalid))
      && (BodyValid(body) && !OwnedBy(t, quizId, userId) ==> o.reply == Failure(404, NotFoundOrUnauthorized))
      && (o.reply.Failure? ==> o.tables == t)
      && (o.reply.Success? <==>
            BodyValid(body) && OwnedBy(t, quizId, userId) && RowsComplete(quizId, body.questions.value, questionIds) &&
            IdsFresh(Filter(t.questions, NotOfQuiz(quizId)), questionIds))
      && (o.reply.Success? ==>
            o.reply.status == 200 && RowsComplete(quizId, body.questions.value, questionIds) &&
            o.tables.users == t.users && o.tables.results == t.results &&
            o.tables.questions == Filter(t.questions, NotOfQuiz(quizId)) + Rows(quizId, body.questions.value, questionIds) &&
            |o.tables.quizzes| == |t.quizzes| &&
            forall i :: 0 <= i < |t.quizzes| ==>
              o.tables.quizzes[i] == if t.quizzes[i].id == quizId
                then t.quizzes[i].(title := body.title.v, description := SqlValue(body.description),
                                   isPublic := TruthyBool(body.isPublic))
                else t.quizzes[i])
      && (WellFormed(t) ==> WellFormed(o.tables))
  {
    if BodyValid(body) && OwnedBy(t, quizId, userId) {
      UpdateQuizInserts(t, userId, quizId, body, questionIds);
    }
    if WellFormed(t) {
      UpdateQuizKeepsWellFormed(t, userId, quizId, body, questionIds);
    }
  }

  /** For a valid body on the caller's quiz, the update is the insert loop run on the
      rewritten and cleared tables, whose quiz row is there. */
  lemma UpdateQuizInserts(t: Tables, userId: string, quizId: string, body: QuizBody, questionIds: seq<string>)
    requires BodyValid(body) && |questionIds| == |body.questions.value| && OwnedBy(t, quizId, userId)
    ensures var c := Cleared(t, quizId, body);
      var o := UpdateQuizSpec(t, userId, quizId, body, questionIds);
      && (o.reply.Success? <==>
            RowsComplete(quizId, body.questions.value, questionIds) &&
            IdsFresh(Filter(t.questions, NotOfQuiz(quizId)), questionIds))
      && (o.reply.Failure? ==> o == Outcome(Failure(500, ServerError), t))
      && (o.reply.Success? ==>
            RowsComplete(quizId, body.questions.value, questionIds) &&
            o.reply.status == 200 &&
            o.tables == c.(questions := c.questions + Rows(quizId, body.questions.value, questionIds)))
  {
    var c := Cleared(t, quizId, body);
    RewriteKeepsIds(t, quizId, body);
    var i :| 0 <= i < |t.quizzes| && t.quizzes[i].id == quizId && t.quizzes[i].createdBy == userId;
    assert QuizKey()(t.quizzes[i]) == quizId;
    InsertQuestionsEffect(c, quizId, body.questions.value, questionIds);
  }

  lemma UpdateQuizKeepsWellFormed(t: Tables, userId: string, quizId: string, body: QuizBody, questionIds: seq<string>)
    requires BodyValid(body) ==> |questionIds| == |body.questions.value|
    requires WellFormed(t)
    ensures WellFormed(UpdateQuizSpec(t, userId, quizId, body, questionIds).tables)
  {
    if BodyValid(body) && OwnedBy(t, quizId, userId) {
      var c := Cleared(t, quizId, body);
      ClearedKeepsWellFormed(t, quizId, body);
      if InsertQuestions(c, quizId, body.questions.value, questionIds).Some? {
        InsertQuestionsKeepsWellFormed(c, quizId, body.questions.value, questionIds);
      }
    }
  }

  /** After a successful update the quiz's questions are exactly the submitted ones (as a
      multiset), and every other quiz's questions are untouched. */
  lemma UpdateReplacesQuestions(t: Tables, userId: string, quizId: string, body: QuizBody, questionIds: seq<string>,
                                other: string)
    requires BodyValid(body) ==> |questionIds| == |body.questions.value|
    requires UpdateQuizSpec(t, userId, quizId, body, questionIds).reply.Success?
    ensures BodyValid(body) && RowsComplete(quizId, body.questions.value, questionIds)
    ensures var t' := UpdateQuizSpec(t, userId, quizId, body, questionIds).tables;
      && multiset(QuestionsOf(t', quizId)) == multiset(FormatQuestions(Rows(quizId, body.questions.value, questionIds)))
      && (other != quizId ==> QuestionsOf(t', other) == QuestionsOf(t, other))
  {
    UpdateQuizOutcome(t, userId, quizId, body, questionIds);
    var rows := Rows(quizId, body.questions.value, questionIds);
    ReplacedOwnQuestions(t.questions, rows, quizId);
    if other != quizId {
      ReplacedOtherQuestions(t.questions, rows, quizId, other);
    }
  }

  /** Dropping a quiz's question rows and appending new ones for it leaves exactly the new ones. */
  lemma ReplacedOwnQuestions(s: seq<QuestionRow>, rows: seq<QuestionRow>, quizId: string)
    requires forall i :: 0 <= i < |rows| ==> rows[i].quizId == quizId
    ensures Filter(Filter(s, NotOfQuiz(quizId)) + rows, OfQuiz(quizId)) == rows
  {
    var kept := Filter(s, NotOfQuiz(quizId));
    FilterAppend(kept, rows, OfQuiz(quizId));
    FilterNone(kept, OfQuiz(quizId));
    FilterAll(rows, OfQuiz(quizId));
  }

  /** ... and leaves another quiz's question rows as they were. */
  lemma ReplacedOtherQuestions(s: seq<QuestionRow>, rows: seq<QuestionRow>, quizId: string, other: string)
    requires forall i :: 0 <= i < |rows| ==> rows[i].quizId == quizId
    requires other != quizId
    ensures Filter(Filter(s, NotOfQuiz(quizId)) + rows, OfQuiz(other)) == Filter(s, OfQuiz(other))
  {
    var kept := Filter(s, NotOfQuiz(quizId));
    FilterAppend(kept, rows, OfQuiz(other));
    FilterNone(rows, OfQuiz(other));
    FilterFilter(s, NotOfQuiz(quizId), OfQuiz(other));
  }

  function NotQuizId(quizId: string): QuizRow -> bool {
    (q: QuizRow) => q.id != quizId
  }

  function ResultNotOfQuiz(quizId: string): ResultRow -> bool {
    (r: ResultRow) => r.quizId != quizId
  }

  /** `DELETE FROM quizzes WHERE id = ?` with the schema's ON DELETE CASCADE on the
      questions' and the results' quiz_id. */
  function Cascade(t: Tables, quizId: string): Tables {
    Tables(t.users, Filter(t.quizzes, NotQuizId(quizId)), Filter(t.questions, NotOfQuiz(quizId)),
           Filter(t.results, ResultNotOfQuiz(quizId)))
  }

  /** deleteQuiz as one atomic step. */
  function DeleteQuizSpec(t: Tables, userId: string, quizId: string): Outcome<string> {
    if !OwnedBy(t, quizId, userId) then Outcome(Failure(404, NotFoundOrUnauthorized), t)
    else Outcome(Success(200, QuizDeleted), Cascade(t, quizId))
  }

  lemma CascadeKeepsWellFormed(t: Tables, quizId: string)
    requires WellFormed(t)
    ensures WellFormed(Cascade(t, quizId))
  {
    var c := Cascade(t, quizId);
    UniqueFilter(t.quizzes, QuizKey(), NotQuizId(quizId));
    UniqueFilter(t.questions, QuestionKey(), NotOfQuiz(quizId));
    UniqueFilter(t.results, ResultKey(), ResultNotOfQuiz(quizId));
    forall i | 0 <= i < |c.quizzes| ensures UserExists(c, c.quizzes[i].createdBy) {
      var j :| 0 <= j < |t.quizzes| && t.quizzes[j] == c.quizzes[i];
    }
    CascadeKeepsOtherQuizzes(t, quizId);
    CascadeQuestionsOwned(t, quizId);
    CascadeResultsOwned(t, quizId);
  }

  /** Every quiz other than the deleted one survives the delete. */
  lemma CascadeKeepsOtherQuizzes(t: Tables, quizId: string)
    ensures forall id :: id != quizId && QuizExists(t, id) ==> QuizExists(Cascade(t, quizId), id)
  {
    var c := Cascade(t, quizId);
    forall id | id != quizId && QuizExists(t, id) ensures QuizExists(c, id) {
      var j :| 0 <= j < |t.quizzes| && QuizKey()(t.quizzes[j]) == id;
      assert NotQuizId(quizId)(t.quizzes[j]);
      var k :| 0 <= k < |c.quizzes| && c.quizzes[k] == t.quizzes[j];
      assert QuizKey()(c.quizzes[k]) == id;
    }
  }

  /** The question rows left by the delete all belong to a surviving quiz. */
  lemma CascadeQuestionsOwned(t: Tables, quizId: string)
    requires WellFormed(t)
    ensures var c := Cascade(t, quizId);
      forall i :: 0 <= i < |c.questions| ==> QuizExists(c, c.questions[i].quizId)
  {
    var c := Cascade(t, quizId);
    CascadeKeepsOtherQuizzes(t, quizId);
    forall i | 0 <= i < |c.questions| ensures QuizExists(c, c.questions[i].quizId) {
      var j :| 0 <= j < |t.questions| && t.questions[j] == c.questions[i];
      assert NotOfQuiz(quizId)(c.questions[i]);
    }
  }

  /** The result rows left by the delete all belong to a surviving quiz and an existing user. */
  lemma CascadeResultsOwned(t: Tables, quizId: string)
    requires WellFormed(t)
    ensures var c := Cascade(t, quizId);
      forall i :: 0 <= i < |c.results| ==> QuizExists(c, c.results[i].quizId) && UserExists(c, c.results[i].userId)
  {
    var c := Cascade(t, quizId);
    CascadeKeepsOtherQuizzes(t, quizId);
    forall i | 0 <= i < |c.results| ensures QuizExists(c, c.results[i].quizId) && UserExists(c, c.results[i].userId) {
      var j :| 0 <= j < |t.results| && t.results[j] == c.results[i];
      assert ResultNotOfQuiz(quizId)(c.results[i]);
    }
  }

  /** What deleteQuiz leaves behind. A quiz that is absent or not the caller's gets the 404
      and nothing is written. Otherwise the quiz row is gone together with all its question
      and result rows, every other row of every table stays, and the constraints are kept. */
  lemma DeleteQuizOutcome(t: Tables, userId: string, quizId: string)
    ensures var o := DeleteQuizSpec(t, userId, quizId);
      && (o.reply.Failure? <==> !OwnedBy(t, quizId, userId))
      && (o.reply.Failure? ==> o.reply == Failure(404, NotFoundOrUnauthorized) && o.tables == t)
      && (o.reply.Success? ==>
            && o.reply == Success(200, QuizDeleted)
            && !QuizExists(o.tables, quizId)
            && (forall i :: 0 <= i < |o.tables.questions| ==> o.tables.questions[i].quizId != quizId)
            && (forall i :: 0 <= i < |o.tables.results| ==> o.tables.results[i].quizId != quizId)
            && o.tables.users == t.users
            && (forall i :: 0 <= i < |t.quizzes| && t.quizzes[i].id != quizId ==> t.quizzes[i] in o.tables.quizzes)
            && (forall i :: 0 <= i < |t.questions| && t.questions[i].quizId != quizId ==> t.questions[i] in o.tables.questions)
            && (forall i :: 0 <= i < |t.results| && t.results[i].quizId != quizId ==> t.results[i] in o.tables.results))
      && (WellFormed(t) ==> WellFormed(o.tables))
  {
    var o := DeleteQuizSpec(t, userId, quizId);
    if OwnedBy(t, quizId, userId) {
      forall i | 0 <= i < |o.tables.quizzes| ensures QuizKey()(o.tables.quizzes[i]) != quizId {
        assert NotQuizId(quizId)(o.tables.quizzes[i]);
      }
      forall i | 0 <= i < |t.quizzes| && t.quizzes[i].id != quizId ensures t.quizzes[i] in o.tables.quizzes {
        assert NotQuizId(quizId)(t.quizzes[i]);
      }
      forall i | 0 <= i < |t.questions| && t.questions[i].quizId != quizId
        ensures t.questions[i] in o.tables.questions
      {
        assert NotOfQuiz(quizId)(t.questions[i]);
      }
      forall i | 0 <= i < |t.results| && t.results[i].quizId != quizId ensures t.results[i] in o.tables.results {
        assert ResultNotOfQuiz(quizId)(t.results[i]);
      }
      if WellFormed(t) {
        CascadeKeepsWellFormed(t, quizId);
      }
    }
  }

  /** Update and delete answer a quiz that does not exist exactly as one that belongs to
      someone else: the same 404, and nothing written. */
  lemma AbsentAndForeignAlike(t: Tables, userId: string, quizId: string, body: QuizBody, questionIds: seq<string>)
    requires BodyValid(body) ==> |questionIds| == |body.questions.value|
    requires BodyValid(body)
    requires forall i :: 0 <= i < |t.quizzes| && t.quizzes[i].id == quizId ==> t.quizzes[i].createdBy != userId
    ensures UpdateQuizSpec(t, userId, quizId, body, questionIds) == Outcome(Failure(404, NotFoundOrUnauthorized), t)
    ensures DeleteQuizSpec(t, userId, quizId) == Outcome(Failure(404, NotFoundOrUnauthorized), t)
  {
  }

  // ---------------------------------------------------------------------------
  // The handlers as steps on the shared database
  // ---------------------------------------------------------------------------

  /** createQuiz: validate, BEGIN, insert the quiz row, insert the questions one by one,
      COMMIT; on a failing insert, ROLLBACK and answer 500. */
  method CreateQuiz(db: Database, userId: string, body: QuizBody, quizId: string, questionIds: seq<string>,
                    now: int, replyTime: int)
    returns (reply: Reply<SavedQuiz>)
    requires BodyValid(body) ==> |questionIds| == |body.questions.value|
    modifies db
    ensures Outcome(reply, db.Snapshot()) == CreateQuizSpec(old(db.Snapshot()), userId, body, quizId, questionIds, now, replyTime)
  {
    if !BodyValid(body) {
      return Failure(400, BodyInvalid);
    }
    var before := db.Snapshot();
    var row := NewQuizRow(body, quizId, userId, now);
    if !CanInsertQuiz(before, row) {
      return Failure(500, ServerError);
    }
    db.quizzes := db.quizzes + [row];
    var withQuiz := db.Snapshot();
    var qs := body.questions.value;
    var i := 0;
    while i < |qs|
      invariant 0 <= i <= |qs|
      invariant InsertQuestions(db.Snapshot(), quizId, qs[i..], questionIds[i..]) ==
                InsertQuestions(withQuiz, quizId, qs, questionIds)
    {
      assert qs[i..][1..] == qs[i + 1..] && questionIds[i..][1..] == questionIds[i + 1..];
      var question := QuestionRowOf(questionIds[i], quizId, qs[i]);
      if question.None? || !CanInsertQuestion(db.Snapshot(), question.value) {
        db.Restore(before);
        return Failure(500, ServerError);
      }
      db.questions := db.questions + [question.value];
      i := i + 1;
    }
    reply := Success(201, SavedQuiz(quizId, body.title.v, body.description, body.isPublic, userId, Some(replyTime), qs));
  }

  /** updateQuiz: validate, check ownership, BEGIN, rewrite the quiz row, delete its
      questions, insert the new ones one by one, COMMIT; on a failing insert, ROLLBACK and
      answer 500. */
  method UpdateQuiz(db: Database, userId: string, quizId: string, body: QuizBody, questionIds: seq<string>)
    returns (reply: Reply<SavedQuiz>)
    requires BodyValid(body) ==> |questionIds| == |body.questions.value|
    modifies db
    ensures Outcome(reply, db.Snapshot()) == UpdateQuizSpec(old(db.Snapshot()), userId, quizId, body, questionIds)
  {
    if !BodyValid(body) {
      return Failure(400, BodyInvalid);
    }
    var before := db.Snapshot();
    if !OwnedBy(before, quizId, userId) {
      return Failure(404, NotFoundOrUnauthorized);
    }
    db.quizzes := RewriteQuiz(db.quizzes, quizId, body.title.v, SqlValue(body.description), TruthyBool(body.isPublic));
    db.questions := Filter(db.questions, NotOfQuiz(quizId));
    assert db.Snapshot() == Cleared(before, quizId, body);
    var qs := body.questions.value;
    var i := 0;
    while i < |qs|
      invariant 0 <= i <= |qs|
      invariant InsertQuestions(db.Snapshot(), quizId, qs[i..], questionIds[i..]) ==
                InsertQuestions(Cleared(before, quizId, body), quizId, qs, questionIds)
    {
      assert qs[i..][1..] == qs[i + 1..] && questionIds[i..][1..] == questionIds[i + 1..];
      var question := QuestionRowOf(questionIds[i], quizId, qs[i]);
      if question.None? || !CanInsertQuestion(db.Snapshot(), question.value) {
        db.Restore(before);
        return Failure(500, ServerError);
      }
      db.questions := db.questions + [question.value];
      i := i + 1;
    }
    reply := Success(200, SavedQuiz(quizId, body.title.v, body.description, body.isPublic, userId, None, qs));
  }

  /** deleteQuiz: check ownership, then delete the quiz row; the cascade removes its
      question and result rows. */
  method DeleteQuiz(db: Database, userId: string, quizId: string) returns (reply: Reply<string>)
    modifies db
    ensures Outcome(reply, db.Snapshot()) == DeleteQuizSpec(old(db.Snapshot()), userId, quizId)
  {
    if !OwnedBy(db.Snapshot(), quizId, userId) {
      return Failure(404, NotFoundOrUnauthorized);
    }
    db.quizzes := Filter(db.quizzes, NotQuizId(quizId));
    db.questions := Filter(db.questions, NotOfQuiz(quizId));
    db.results := Filter(db.results, ResultNotOfQuiz(quizId));
    reply := Success(200, QuizDeleted);
  }
}
