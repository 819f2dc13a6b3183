/**
 * The create page: a fresh form with one blank question, whose submit hands the
 * form's contents to the client store only when the validator accepts them.
 */
module CreateQuiz {
  import opened Common
  import opened Types
  import opened QuizContext
  import opened QuizForm

  /** What the page hands to `createQuiz`: the form's fields, the drafts cast to questions. */
  function FormData(title: string, description: string, isPublic: bool, qs: seq<DraftQuestion>): QuizData
    requires Convertible(qs)
  {
    QuizData(title, description, isPublic, ToQuestions(qs))
  }

  /** handleSubmit: clear the message, validate, and only on success create the quiz with
      the form's title, description, visibility and questions. */
  method HandleSubmit(form: Form, store: QuizStore, user: Option<User>, freshId: string, now: string)
    modifies form`error, store
    ensures FirstError(form.title, form.description, form.questions).Some? ==>
      form.error == Message(FirstError(form.title, form.description, form.questions).value) &&
      store.quizzes == old(store.quizzes) && store.results == old(store.results)
    ensures FirstError(form.title, form.description, form.questions).None? ==>
      form.error == "" && store.results == old(store.results) && Convertible(form.questions) &&
      store.quizzes == if user.None? then old(store.quizzes)
                       else old(store.quizzes) + [NewQuiz(FormData(form.title, form.description, form.isPublic, form.questions), freshId, user.value.id, now)]
  {
    form.error := "";
    var ok := form.ValidateForm();
    if !ok {
      return;
    }
    AcceptedIsConvertible(form.title, form.description, form.questions);
    store.CreateQuiz(user, FormData(form.title, form.description, form.isPublic, form.questions), freshId, now);
  }

  /** A quiz created from an accepted form is found under its fresh id with the form's
      contents and the user as its owner. */
  lemma CreatedQuizIsFound(quizzes: seq<Quiz>, u: User, title: string, description: string, isPublic: bool,
                           qs: seq<DraftQuestion>, freshId: string, now: string)
    requires FirstError(title, description, qs).None?
    requires forall i :: 0 <= i < |quizzes| ==> quizzes[i].id != freshId
    ensures Convertible(qs)
    ensures var found := GetQuiz(quizzes + [NewQuiz(FormData(title, description, isPublic, qs), freshId, u.id, now)], freshId);
      found.Some? && found.value.createdBy == u.id && found.value.title == title &&
      found.value.description == description && found.value.isPublic == isPublic &&
      found.value.questions == ToQuestions(qs) && !IsBlank(found.value.title)
  {
    AcceptedIsConvertible(title, description, qs);
    FormAcceptedIff(title, description, qs);
    GetQuizAfterAppend(quizzes, NewQuiz(FormData(title, description, isPublic, qs), freshId, u.id, now), freshId);
  }
}
