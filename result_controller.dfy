/**
 * The result handlers of the API server: recording a played quiz's result for the caller,
 * and listing the caller's results with their quizzes' titles, newest first.
 */
module ResultController {
  import opened Common
  import opened ServerTables

  /** `{ quizId, score, totalQuestions }` of the body. */
  datatype ResultBody = ResultBody(quizId: Field<string>, score: Field<int>, totalQuestions: Field<int>)

  const FieldsRequired: string := "Quiz ID, score, and total questions are required"
  const QuizNotFound: string := "Quiz not found"

  /** `!quizId || score === undefined || !totalQuestions` fails: only an absent score is
      refused, so 0 and null pass, while an absent, null or zero question count does not. */
  predicate ResultBodyValid(body: ResultBody) {
    TruthyString(body.quizId) && !body.score.Undefined? && TruthyInt(body.totalQuestions)
  }

  /** The JSON sent back after a save. */
  datatype SavedResult = SavedResult(id: string, quizId: string, userId: string, score: int, totalQuestions: int,
                                     dateTaken: int)

  /** The primary key and both foreign keys of quiz_results accept the row. */
  predicate CanInsertResult(t: Tables, r: ResultRow) {
    !HasKey(t.results, ResultKey(), r.id) && QuizExists(t, r.quizId) && UserExists(t, r.userId)
  }

  /** saveQuizResult as one atomic step: validate, look the quiz up, insert. A null score
      passes validation but violates NOT NULL at the insert, which answers 500. The row's
      `date_taken` is the column default, the time `now`; the reply's `dateTaken` is a
      separate clock reading, `replyTime`. */
  function SaveQuizResultSpec(t: Tables, userId: string, body: ResultBody, resultId: string, now: int,
                              replyTime: int)
    : Outcome<SavedResult>
  {
    if !ResultBodyValid(body) then Outcome(Failure(400, FieldsRequired), t)
    else if !QuizExists(t, body.quizId.v) then Outcome(Failure(404, QuizNotFound), t)
    else if body.score.Null? then Outcome(Failure(500, ServerError), t)
    else
      var row := ResultRow(resultId, body.quizId.v, userId, body.score.v, body.totalQuestions.v, now);
      if !CanInsertResult(t, row) then Outcome(Failure(500, ServerError), t)
      else
        Outcome(Success(201, SavedResult(resultId, body.quizId.v, userId, body.score.v, body.totalQuestions.v, replyTime)),
                t.(results := t.results + [row]))
  }

  /** What saveQuizResult leaves behind. It answers 400 exactly when the quiz id is absent or
      empty, the score absent, or the question count absent, null or zero; 404 exactly when
      the body passes but no quiz has the id. Nothing is written unless it succeeds, and it
      succeeds exactly when, besides, the score is a number and the insert is accepted; then
      one row is appended carrying the caller's id and the submitted quiz id, score and
      question count unchanged. The constraints are kept. */
  lemma SaveQuizResultOutcome(t: Tables, userId: string, body: ResultBody, resultId: string, now: int,
                              replyTime: int)
    ensures var o := SaveQuizResultSpec(t, userId, body, resultId, now, replyTime);
      && (o.reply == Failure(400, FieldsRequired) <==>
            !TruthyString(body.quizId) || body.score.Undefined? || !TruthyInt(body.totalQuestions))
      && (o.reply == Failure(404, QuizNotFound) <==> ResultBodyValid(body) && !QuizExists(t, body.quizId.v))
      && (o.reply.Failure? ==> o.tables == t)
      && (o.reply.Success? <==>
            ResultBodyValid(body) && body.score.Val? &&
            CanInsertResult(t, ResultRow(resultId, body.quizId.v, userId, body.score.v, body.totalQuestions.v, now)))
      && (o.reply.Success? ==>
            o.reply.status == 201 &&
            o.reply.value == SavedResult(resultId, body.quizId.v, userId, body.score.v, body.totalQuestions.v,
                                         replyTime) &&
            o.tables == t.(results := t.results + [ResultRow(resultId, body.quizId.v, userId, body.score.v,
                                                             body.totalQuestions.v, now)]))
      && (WellFormed(t) ==> WellFormed(o.tables))
  {
    var o := SaveQuizResultSpec(t, userId, body, resultId, now, replyTime);
    if o.reply.Success? && WellFormed(t) {
      InsertResultKeepsWellFormed(t, ResultRow(resultId, body.quizId.v, userId, body.score.v, body.totalQuestions.v, now));
    }
  }

  /** The score is never range-checked: with a quiz id and a non-zero question count, any
      numeric score passes validation, 0 and scores above the question count included. */
  lemma AnyScoreAccepted(quizId: Field<string>, score: int, totalQuestions: Field<int>)
    ensures ResultBodyValid(ResultBody(quizId, Val(score), totalQuestions)) <==>
      TruthyString(quizId) && TruthyInt(totalQuestions)
    ensures TruthyString(quizId) && TruthyInt(totalQuestions) ==> ResultBodyValid(ResultBody(quizId, Val(0), totalQuestions))
  {
  }

  /** A result as getUserResults sends it, with its quiz's title. */
  datatype ResultView = ResultView(id: string, quizId: string, quizTitle: string, score: int, totalQuestions: int,
                                   dateTaken: int)

  /** `q.title as quiz_title` from `JOIN quizzes q ON r.quiz_id = q.id`. */
  function QuizTitle(t: Tables, quizId: string): string {
    var q := Find(t.quizzes, KeyIs(QuizKey(), quizId));
    if q.Some? then q.value.title else ""
  }

  function FormatResult(t: Tables, r: ResultRow): ResultView {
    ResultView(r.id, r.quizId, QuizTitle(t, r.quizId), r.score, r.totalQuestions, r.dateTaken)
  }

  /** `WHERE r.user_id = ?`, restricted to the rows the inner join keeps. */
  function CallersJoined(t: Tables, userId: string): ResultRow -> bool {
    (r: ResultRow) => r.userId == userId && QuizExists(t, r.quizId)
  }

  function ResultDateTaken(): ResultRow -> int {
    (r: ResultRow) => r.dateTaken
  }

  /** The rows getUserResults selects, newest first (`ORDER BY r.date_taken DESC`). */
  function ResultRows(t: Tables, userId: string): seq<ResultRow> {
    SortDesc(Filter(t.results, CallersJoined(t, userId)), ResultDateTaken())
  }

  function FormatResults(t: Tables, rows: seq<ResultRow>): (r: seq<ResultView>)
    ensures |r| == |rows|
    ensures forall i :: 0 <= i < |rows| ==> r[i] == FormatResult(t, rows[i])
  {
    seq(|rows|, i requires 0 <= i < |rows| => FormatResult(t, rows[i]))
  }

  /** getUserResults: the caller's results whose quiz still exists, newest first (status 200). */
  function GetUserResults(t: Tables, userId: string): seq<ResultView> {
    FormatResults(t, ResultRows(t, userId))
  }

  /** getUserResults is newest first. */
  lemma GetUserResultsOrder(t: Tables, userId: string)
    ensures var r := GetUserResults(t, userId);
      forall i, j :: 0 <= i < j < |r| ==> r[i].dateTaken >= r[j].dateTaken
  {
    var rows := ResultRows(t, userId);
    assert forall i, j :: 0 <= i < j < |rows| ==> ResultDateTaken()(rows[i]) >= ResultDateTaken()(rows[j]);
  }

  /** Every entry of getUserResults is one of the caller's results whose quiz exists. */
  lemma GetUserResultsSound(t: Tables, userId: string)
    ensures var r := GetUserResults(t, userId);
      forall i :: 0 <= i < |r| ==>
        QuizExists(t, r[i].quizId) &&
        exists x :: x in t.results && x.userId == userId && QuizExists(t, x.quizId) && r[i] == FormatResult(t, x)
  {
    var p := CallersJoined(t, userId);
    var rows := ResultRows(t, userId);
    var r := GetUserResults(t, userId);
    forall i | 0 <= i < |r|
      ensures QuizExists(t, r[i].quizId)
      ensures exists x :: x in t.results && x.userId == userId && QuizExists(t, x.quizId) && r[i] == FormatResult(t, x)
    {
      SortedFilterMembers(t.results, p, ResultDateTaken(), rows[i]);
      assert p(rows[i]);
    }
  }

  /** Each of the caller's results is listed exactly when its quiz still exists: the inner
      join drops a result whose quiz is gone. */
  lemma GetUserResultsComplete(t: Tables, userId: string, x: ResultRow)
    requires x in t.results && x.userId == userId
    ensures QuizExists(t, x.quizId) ==> FormatResult(t, x) in GetUserResults(t, userId)
    ensures !QuizExists(t, x.quizId) ==> forall i :: 0 <= i < |GetUserResults(t, userId)| ==>
      GetUserResults(t, userId)[i].quizId != x.quizId
  {
    var p := CallersJoined(t, userId);
    var rows := ResultRows(t, userId);
    var r := GetUserResults(t, userId);
    if QuizExists(t, x.quizId) {
      SortedFilterMembers(t.results, p, ResultDateTaken(), x);
      var i :| 0 <= i < |rows| && rows[i] == x;
      assert r[i] == FormatResult(t, x);
    }
    GetUserResultsSound(t, userId);
  }

  /** With the schema's constraints each entry of getUserResults carries its quiz's title. */
  lemma GetUserResultsTitles(t: Tables, userId: string)
    requires WellFormed(t)
    ensures var r := GetUserResults(t, userId);
      forall i, k :: 0 <= i < |r| && 0 <= k < |t.quizzes| && t.quizzes[k].id == r[i].quizId ==>
        r[i].quizTitle == t.quizzes[k].title
  {
    var r := GetUserResults(t, userId);
    forall i, k | 0 <= i < |r| && 0 <= k < |t.quizzes| && t.quizzes[k].id == r[i].quizId
      ensures r[i].quizTitle == t.quizzes[k].title
    {
      FindByKey(t.quizzes, QuizKey(), r[i].quizId, k);
    }
  }

  /** saveQuizResult: validate, look the quiz up, insert the row. */
  method SaveQuizResult(db: Database, userId: string, body: ResultBody, resultId: string, now: int,
                        replyTime: int)
    returns (reply: Reply<SavedResult>)
    modifies db
    ensures Outcome(reply, db.Snapshot()) == SaveQuizResultSpec(old(db.Snapshot()), userId, body, resultId, now, replyTime)
  {
    if !ResultBodyValid(body) {
      return Failure(400, FieldsRequired);
    }
    if !QuizExists(db.Snapshot(), body.quizId.v) {
      return Failure(404, QuizNotFound);
    }
    if body.score.Null? {
      return Failure(500, ServerError);
    }
    var row := ResultRow(resultId, body.quizId.v, userId, body.score.v, body.totalQuestions.v, now);
    if !CanInsertResult(db.Snapshot(), row) {
      return Failure(500, ServerError);
    }
    db.results := db.results + [row];
    reply := Success(201, SavedResult(resultId, body.quizId.v, userId, body.score.v, body.totalQuestions.v, replyTime));
  }
}
