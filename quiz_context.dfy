/**
 * The client-side quiz store (the React context provider): two in-memory lists,
 * the quizzes and the recorded results, changed by create, update, delete and
 * save, and read through a lookup and two per-user views. The signed-in user
 * comes from the authentication context and is a parameter here; generated ids
 * and the current time are parameters as well.
 */
module QuizContext {
  import opened Common
  import opened Types

  // ---------------------------------------------------------------------------
  // Lookups and views
  // ---------------------------------------------------------------------------

  /** The test `quiz => quiz.id === quizId`. */
  function HasId(quizId: string): Quiz -> bool {
    (q: Quiz) => q.id == quizId
  }

  /** Position `i` holds the first quiz with id `quizId`. */
  predicate IsFirstWithId(quizzes: seq<Quiz>, quizId: string, i: int) {
    IsFirst(quizzes, HasId(quizId), i)
  }

  /** `quizzes.find(quiz => quiz.id === quizId)`: the first quiz with that id, if any. */
  function GetQuiz(quizzes: seq<Quiz>, quizId: string): (r: Option<Quiz>)
    ensures r.None? <==> forall i :: 0 <= i < |quizzes| ==> quizzes[i].id != quizId
    ensures r.Some? ==> exists i :: IsFirstWithId(quizzes, quizId, i) && quizzes[i] == r.value
  {
    Find(quizzes, HasId(quizId))
  }

  /** One step of the lookup: the head if it has the id, else the lookup in the tail. */
  lemma GetQuizUnfold(quizzes: seq<Quiz>, quizId: string)
    requires quizzes != []
    ensures GetQuiz(quizzes, quizId) ==
      if quizzes[0].id == quizId then Some(quizzes[0]) else GetQuiz(quizzes[1..], quizId)
  {
    assert HasId(quizId)(quizzes[0]) <==> quizzes[0].id == quizId;
  }

  /** The filter behind `userQuizzes`: a signed-in user's own quizzes. */
  function OwnedBy(user: Option<User>): Quiz -> bool {
    (q: Quiz) => user.Some? && q.createdBy == user.value.id
  }

  /** `userQuizzes`: the quizzes whose creator is the signed-in user, in store order. */
  function UserQuizzes(quizzes: seq<Quiz>, user: Option<User>): (r: seq<Quiz>)
    ensures user.None? ==> r == []
    ensures forall i :: 0 <= i < |r| ==> r[i] in quizzes && r[i].createdBy == user.value.id
    ensures forall i :: 0 <= i < |quizzes| && user.Some? && quizzes[i].createdBy == user.value.id ==> quizzes[i] in r
  {
    if user.None? then
      FilterNone(quizzes, OwnedBy(user));
      Filter(quizzes, OwnedBy(user))
    else
      Filter(quizzes, OwnedBy(user))
  }

  /** JavaScript truthiness of an optional string: absent and "" are both false. */
  predicate Truthy(s: Option<string>) {
    s.Some? && s.value != ""
  }

  /** The filter behind `userResults`: the result carries the user's id, or it is a
      legacy result without a user id whose quiz id starts with the user's id. */
  predicate BelongsTo(r: QuizResult, userId: string) {
    r.userId == Some(userId) || (r.quizId != "" && !Truthy(r.userId) && StartsWith(r.quizId, userId))
  }

  function ResultOf(user: Option<User>): QuizResult -> bool {
    (r: QuizResult) => user.Some? && BelongsTo(r, user.value.id)
  }

  /** `userResults`: the signed-in user's results, in store order. */
  function UserResults(results: seq<QuizResult>, user: Option<User>): (r: seq<QuizResult>)
    ensures user.None? ==> r == []
    ensures forall i :: 0 <= i < |r| ==> r[i] in results && BelongsTo(r[i], user.value.id)
    ensures forall i :: 0 <= i < |results| && user.Some? && BelongsTo(results[i], user.value.id) ==> results[i] in r
  {
    if user.None? then
      FilterNone(results, ResultOf(user));
      Filter(results, ResultOf(user))
    else
      Filter(results, ResultOf(user))
  }

  /** A result is listed for a user through its own user id, or, only when it has none,
      through the prefix rule; a result carrying another user's id is never listed. */
  lemma LegacyResultRule(results: seq<QuizResult>, u: User, i: int)
    requires 0 <= i < |results|
    ensures Truthy(results[i].userId) ==>
      (results[i] in UserResults(results, Some(u)) <==> results[i].userId == Some(u.id))
    ensures results[i].userId.None? && results[i].quizId != "" ==>
      (results[i] in UserResults(results, Some(u)) <==> StartsWith(results[i].quizId, u.id))
  {
    var r := UserResults(results, Some(u));
    if results[i] in r {
      var k :| 0 <= k < |r| && r[k] == results[i];
      assert BelongsTo(r[k], u.id);
    }
  }

  /** `userQuizzes` keeps the store's order: it commutes with splitting the list anywhere,
      and a single quiz is kept exactly when the user created it. */
  lemma UserQuizzesKeepsOrder(a: seq<Quiz>, b: seq<Quiz>, user: Option<User>)
    ensures UserQuizzes(a + b, user) == UserQuizzes(a, user) + UserQuizzes(b, user)
    ensures forall q :: UserQuizzes([q], user) == if user.Some? && q.createdBy == user.value.id then [q] else []
  {
    FilterAppend(a, b, OwnedBy(user));
  }

  /** `userQuizzes` neither drops nor repeats a quiz: each of the user's quizzes occurs as
      often as in the store, every other quiz never. */
  lemma UserQuizzesCount(quizzes: seq<Quiz>, user: Option<User>, q: Quiz)
    ensures multiset(UserQuizzes(quizzes, user))[q] ==
      if user.Some? && q.createdBy == user.value.id then multiset(quizzes)[q] else 0
  {
    FilterCount(quizzes, OwnedBy(user), q);
  }

  /** `userResults` keeps the store's order, and a single result is kept exactly when it
      belongs to the user. */
  lemma UserResultsKeepsOrder(a: seq<QuizResult>, b: seq<QuizResult>, user: Option<User>)
    ensures UserResults(a + b, user) == UserResults(a, user) + UserResults(b, user)
    ensures forall r :: UserResults([r], user) == if user.Some? && BelongsTo(r, user.value.id) then [r] else []
  {
    FilterAppend(a, b, ResultOf(user));
  }

  /** `userResults` neither drops nor repeats a result. */
  lemma UserResultsCount(results: seq<QuizResult>, user: Option<User>, r: QuizResult)
    ensures multiset(UserResults(results, user))[r] ==
      if user.Some? && BelongsTo(r, user.value.id) then multiset(results)[r] else 0
  {
    FilterCount(results, ResultOf(user), r);
  }

  // ---------------------------------------------------------------------------
  // The list transformations behind the mutations
  // ---------------------------------------------------------------------------

  /** The quiz createQuiz builds: the form's data with a fresh id, the creator and the time. */
  function NewQuiz(data: QuizData, id: string, createdBy: string, createdAt: string): Quiz {
    Quiz(id, data.title, data.description, data.questions, createdBy, data.isPublic, createdAt)
  }

  /** `prev.map(quiz => quiz.id === updated.id ? updated : quiz)` */
  function ReplaceById(quizzes: seq<Quiz>, updated: Quiz): (r: seq<Quiz>)
    ensures |r| == |quizzes|
    ensures forall i :: 0 <= i < |r| ==> r[i] == if quizzes[i].id == updated.id then updated else quizzes[i]
  {
    seq(|quizzes|, i requires 0 <= i < |quizzes| => if quizzes[i].id == updated.id then updated else quizzes[i])
  }

  function WithoutId(quizId: string): Quiz -> bool {
    (q: Quiz) => q.id != quizId
  }

  /** `prev.filter(quiz => quiz.id !== quizId)` */
  function RemoveById(quizzes: seq<Quiz>, quizId: string): (r: seq<Quiz>)
    ensures forall i :: 0 <= i < |r| ==> r[i].id != quizId
  {
    Filter(quizzes, WithoutId(quizId))
  }

  /** An update whose id matches no stored quiz leaves the list as it was. */
  lemma ReplaceByIdNoMatch(quizzes: seq<Quiz>, updated: Quiz)
    requires forall i :: 0 <= i < |quizzes| ==> quizzes[i].id != updated.id
    ensures ReplaceById(quizzes, updated) == quizzes
  {
  }

  /** After an update, looking up the updated id finds the new quiz exactly when the id was
      stored before, and every other id finds what it found before. */
  lemma {:induction false} GetQuizAfterUpdate(quizzes: seq<Quiz>, updated: Quiz, quizId: string)
    ensures GetQuiz(ReplaceById(quizzes, updated), quizId) ==
      if quizId != updated.id then GetQuiz(quizzes, quizId)
      else if GetQuiz(quizzes, quizId).Some? then Some(updated)
      else None
  {
    if quizzes != [] {
      var r := ReplaceById(quizzes, updated);
      assert r[1..] == ReplaceById(quizzes[1..], updated);
      GetQuizAfterUpdate(quizzes[1..], updated, quizId);
      GetQuizUnfold(quizzes, quizId);
      GetQuizUnfold(r, quizId);
    }
  }

  /** After a delete the id is gone, and every other id finds what it found before. */
  lemma {:induction false} GetQuizAfterDelete(quizzes: seq<Quiz>, removed: string, quizId: string)
    ensures GetQuiz(RemoveById(quizzes, removed), quizId) ==
      if quizId == removed then None else GetQuiz(quizzes, quizId)
  {
    if quizzes != [] {
      GetQuizAfterDelete(quizzes[1..], removed, quizId);
      var rest := RemoveById(quizzes[1..], removed);
      if quizzes[0].id == removed {
        assert RemoveById(quizzes, removed) == rest;
      } else {
        var r := [quizzes[0]] + rest;
        assert RemoveById(quizzes, removed) == r;
        assert r[1..] == rest;
      }
    }
  }

  /** After appending a quiz with a new id, that id finds it, and every other id finds
      what it found before. */
  lemma {:induction false} GetQuizAfterAppend(quizzes: seq<Quiz>, added: Quiz, quizId: string)
    requires forall i :: 0 <= i < |quizzes| ==> quizzes[i].id != added.id
    ensures GetQuiz(quizzes + [added], quizId) ==
      if quizId == added.id then Some(added) else GetQuiz(quizzes, quizId)
  {
    if quizzes == [] {
      assert quizzes + [added] == [added];
    } else {
      assert (quizzes + [added])[1..] == quizzes[1..] + [added];
      GetQuizAfterAppend(quizzes[1..], added, quizId);
    }
  }

  /** Deleting keeps the other quizzes in their original order: it commutes with
      splitting the list anywhere. */
  lemma RemoveByIdKeepsOrder(a: seq<Quiz>, b: seq<Quiz>, quizId: string)
    ensures RemoveById(a + b, quizId) == RemoveById(a, quizId) + RemoveById(b, quizId)
  {
    FilterAppend(a, b, WithoutId(quizId));
  }

  // ---------------------------------------------------------------------------
  // The provider's state
  // ---------------------------------------------------------------------------

  class QuizStore {
    var quizzes: seq<Quiz>
    var results: seq<QuizResult>

    /** The provider starts with both lists empty (loading from browser storage is not modelled). */
    constructor ()
      ensures quizzes == [] && results == []
    {
      quizzes := [];
      results := [];
    }

    /** createQuiz: without a signed-in user nothing happens; otherwise the quiz is
        appended, owned by the user, with a fresh id and the current time. */
    method CreateQuiz(user: Option<User>, data: QuizData, freshId: string, now: string)
      modifies this
      ensures results == old(results)
      ensures user.None? ==> quizzes == old(quizzes)
      ensures user.Some? ==> quizzes == old(quizzes) + [NewQuiz(data, freshId, user.value.id, now)]
    {
      if user.None? {
        return;
      }
      var newQuiz := NewQuiz(data, freshId, user.value.id, now);
      quizzes := quizzes + [newQuiz];
    }

    /** updateQuiz: every stored quiz with the updated quiz's id is replaced by it. */
    method UpdateQuiz(updated: Quiz)
      modifies this
      ensures results == old(results)
      ensures quizzes == ReplaceById(old(quizzes), updated)
    {
      quizzes := ReplaceById(quizzes, updated);
    }

    /** deleteQuiz: every quiz with the id is dropped; results are not touched. */
    method DeleteQuiz(quizId: string)
      modifies this
      ensures results == old(results)
      ensures quizzes == RemoveById(old(quizzes), quizId)
    {
      quizzes := RemoveById(quizzes, quizId);
    }

    /** saveQuizResult: without a signed-in user nothing happens; otherwise the result is
        appended with the user's id and the current time. */
    method SaveQuizResult(user: Option<User>, data: ResultData, now: string)
      modifies this
      ensures quizzes == old(quizzes)
      ensures user.None? ==> results == old(results)
      ensures user.Some? ==>
        results == old(results) + [QuizResult(data.quizId, data.score, data.totalQuestions, now, Some(user.value.id))]
    {
      if user.None? {
        return;
      }
      var newResult := QuizResult(data.quizId, data.score, data.totalQuestions, now, Some(user.value.id));
      results := results + [newResult];
    }
  }

  /** A saved result is listed among its user's results. */
  lemma SavedResultIsListed(results: seq<QuizResult>, u: User, data: ResultData, now: string)
    ensures QuizResult(data.quizId, data.score, data.totalQuestions, now, Some(u.id))
      in UserResults(results + [QuizResult(data.quizId, data.score, data.totalQuestions, now, Some(u.id))], Some(u))
  {
    var s := results + [QuizResult(data.quizId, data.score, data.totalQuestions, now, Some(u.id))];
    assert BelongsTo(s[|s| - 1], u.id);
  }
}
