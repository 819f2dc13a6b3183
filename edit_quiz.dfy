/**
 * The edit page: it loads a stored quiz into the shared form, cloning its questions,
 * and on submit writes the edited quiz back over the stored one, keeping the
 * original id, owner and creation time.
 */
module EditQuiz {
  import opened Common
  import opened Types
  import opened QuizContext
  import opened QuizForm

  /** The quiz the page submits: the original with the form's title, description,
      visibility and questions. */
  function Edited(original: Quiz, title: string, description: string, isPublic: bool, qs: seq<DraftQuestion>): Quiz
    requires Convertible(qs)
  {
    original.(title := title, description := description, isPublic := isPublic, questions := ToQuestions(qs))
  }

  class EditPage {
    const form: Form
    var loading: bool
    var originalQuiz: Option<Quiz>

    /** The page before its effect runs: loading, no original, an empty form. */
    constructor ()
      ensures fresh(form) && loading && originalQuiz.None?
      ensures form.title == "" && form.description == "" && !form.isPublic && form.questions == [] && form.error == ""
    {
      form := new Form.ForEdit();
      loading := true;
      originalQuiz := None;
    }

    /** The loading effect: without an id, or with an id the store does not hold, it shows an
        error; otherwise it copies the quiz into the form. Loading stops either way. */
    method Load(quizId: Option<string>, store: QuizStore)
      modifies this, form
      ensures !loading
      ensures !Truthy(quizId) ==>
        form.error == "No quiz ID provided" && originalQuiz == old(originalQuiz) &&
        form.title == old(form.title) && form.description == old(form.description) &&
        form.isPublic == old(form.isPublic) && form.questions == old(form.questions)
      ensures Truthy(quizId) && GetQuiz(store.quizzes, quizId.value).None? ==>
        form.error == "Quiz not found" && originalQuiz == old(originalQuiz) &&
        form.title == old(form.title) && form.description == old(form.description) &&
        form.isPublic == old(form.isPublic) && form.questions == old(form.questions)
      ensures Truthy(quizId) && GetQuiz(store.quizzes, quizId.value).Some? ==>
        var q := GetQuiz(store.quizzes, quizId.value).value;
        originalQuiz == Some(q) && form.error == old(form.error) &&
        form.title == q.title && form.description == q.description &&
        form.isPublic == q.isPublic && form.questions == ToDrafts(q.questions)
    {
      if !Truthy(quizId) {
        form.error := "No quiz ID provided";
        loading := false;
        return;
      }
      var quiz := GetQuiz(store.quizzes, quizId.value);
      if quiz.Some? {
        var q := quiz.value;
        originalQuiz := Some(q);
        form.title := q.title;
        form.description := q.description;
        form.isPublic := q.isPublic;
        form.questions := ToDrafts(q.questions);
        loading := false;
      } else {
        form.error := "Quiz not found";
        loading := false;
      }
    }

    /** handleSubmit: clear the message, validate, and write back only when the form is
        accepted and the original quiz was loaded. */
    method HandleSubmit(store: QuizStore)
      modifies form`error, store
      ensures FirstError(form.title, form.description, form.questions).Some? ==>
        form.error == Message(FirstError(form.title, form.description, form.questions).value) &&
        store.quizzes == old(store.quizzes) && store.results == old(store.results)
      ensures FirstError(form.title, form.description, form.questions).None? && originalQuiz.None? ==>
        form.error == "" && store.quizzes == old(store.quizzes) && store.results == old(store.results)
      ensures FirstError(form.title, form.description, form.questions).None? && originalQuiz.Some? ==>
        form.error == "" && store.results == old(store.results) && Convertible(form.questions) &&
        store.quizzes == ReplaceById(old(store.quizzes),
          Edited(originalQuiz.value, form.title, form.description, form.isPublic, form.questions))
    {
      form.error := "";
      var ok := form.ValidateForm();
      if !ok || originalQuiz.None? {
        return;
      }
      AcceptedIsConvertible(form.title, form.description, form.questions);
      store.UpdateQuiz(Edited(originalQuiz.value, form.title, form.description, form.isPublic, form.questions));
    }
  }

  /** After an edit is written back, the quiz's id finds the edited quiz: same id, owner and
      creation time as the original, the form's title, description, visibility and questions. */
  lemma EditedQuizIsFound(quizzes: seq<Quiz>, original: Quiz, title: string, description: string,
                          isPublic: bool, qs: seq<DraftQuestion>)
    requires Convertible(qs)
    requires GetQuiz(quizzes, original.id) == Some(original)
    ensures var found := GetQuiz(ReplaceById(quizzes, Edited(original, title, description, isPublic, qs)), original.id);
      found.Some? &&
      found.value.id == original.id && found.value.createdBy == original.createdBy &&
      found.value.createdAt == original.createdAt &&
      found.value.title == title && found.value.description == description &&
      found.value.isPublic == isPublic && found.value.questions == ToQuestions(qs)
  {
    GetQuizAfterUpdate(quizzes, Edited(original, title, description, isPublic, qs), original.id);
  }

  /** Submitting a freshly loaded form without touching it writes back the stored quiz as it was. */
  lemma UneditedSubmitKeepsQuiz(q: Quiz)
    ensures Edited(q, q.title, q.description, q.isPublic, ToDrafts(q.questions)) == q
  {
    DraftsRoundTrip(q.questions);
  }
}
