/**
 * The quiz form shared, handler for handler, by the create page and the edit page:
 * a title, a description, a visibility switch and a list of draft questions, each
 * with a list of options, plus the error message shown above the form. The
 * validator stops at the first problem it finds and reports it with 1-based
 * question and option numbers.
 */
module QuizForm {
  import opened Common
  import opened Types

  /** A question as the form holds it (`Partial<Question>`): text and options may be absent. */
  datatype DraftQuestion = DraftQuestion(id: string, text: Option<string>, options: Option<seq<string>>, correctAnswer: int)

  /** The question the form starts with and `addQuestion` appends: empty text, four empty
      options, the first option marked correct. */
  function BlankQuestion(id: string): DraftQuestion {
    DraftQuestion(id, Some(""), Some(["", "", "", ""]), 0)
  }

  /** The options an option edit writes into: the question's own, or four empty strings
      when it has none. */
  function OptionsOrDefault(q: DraftQuestion): seq<string> {
    if q.options.Some? then q.options.value else ["", "", "", ""]
  }

  // ---------------------------------------------------------------------------
  // Validation, as a specification
  // ---------------------------------------------------------------------------

  /** The problems the validator reports; question and option numbers are 1-based. */
  datatype FormError =
    | TitleRequired
    | DescriptionRequired
    | QuestionEmpty(question: nat)
    | NoOptions(question: nat)
    | OptionEmpty(option: nat, question: nat)

  function DigitChar(d: nat): char
    requires d < 10
  {
    ('0' as int + d) as char
  }

  function NatToString(n: nat): string {
    if n < 10 then [DigitChar(n)] else NatToString(n / 10) + [DigitChar(n % 10)]
  }

  /** The message the form shows for a problem. */
  function Message(e: FormError): string {
    match e
    case TitleRequired => "Quiz title is required"
    case DescriptionRequired => "Quiz description is required"
    case QuestionEmpty(i) => "Question " + NatToString(i) + " is empty"
    case NoOptions(i) => "Question " + NatToString(i) + " has no options"
    case OptionEmpty(j, i) => "Option " + NatToString(j) + " for question " + NatToString(i) + " is empty"
  }

  predicate OptionsComplete(options: seq<string>) {
    forall j :: 0 <= j < |options| ==> !IsBlank(options[j])
  }

  /** A question the validator lets through: non-blank text, an options list, no blank option. */
  predicate QuestionComplete(q: DraftQuestion) {
    q.text.Some? && !IsBlank(q.text.value) && q.options.Some? && OptionsComplete(q.options.value)
  }

  /** The first blank option at or after position `j` of question number `qn`. */
  function OptionsError(options: seq<string>, j: nat, qn: nat): Option<FormError>
    decreases |options| - j
  {
    if j >= |options| then None
    else if IsBlank(options[j]) then Some(OptionEmpty(j + 1, qn))
    else OptionsError(options, j + 1, qn)
  }

  /** The problem with the question at index `i`, if any. */
  function QuestionError(q: DraftQuestion, i: nat): Option<FormError> {
    if q.text.None? || IsBlank(q.text.value) then Some(QuestionEmpty(i + 1))
    else if q.options.None? then Some(NoOptions(i + 1))
    else OptionsError(q.options.value, 0, i + 1)
  }

  /** The first problem among the questions from index `i` on. */
  function QuestionsError(qs: seq<DraftQuestion>, i: nat): Option<FormError>
    decreases |qs| - i
  {
    if i >= |qs| then None
    else if QuestionError(qs[i], i).Some? then QuestionError(qs[i], i)
    else QuestionsError(qs, i + 1)
  }

  /** What `validateForm` reports: title first, then description, then the questions in order. */
  function FirstError(title: string, description: string, qs: seq<DraftQuestion>): Option<FormError> {
    if IsBlank(title) then Some(TitleRequired)
    else if IsBlank(description) then Some(DescriptionRequired)
    else QuestionsError(qs, 0)
  }

  lemma {:induction false} OptionsErrorNone(options: seq<string>, j: nat, qn: nat)
    requires j <= |options|
    ensures OptionsError(options, j, qn).None? <==> forall k :: j <= k < |options| ==> !IsBlank(options[k])
    decreases |options| - j
  {
    if j < |options| {
      OptionsErrorNone(options, j + 1, qn);
    }
  }

  lemma QuestionErrorNone(q: DraftQuestion, i: nat)
    ensures QuestionError(q, i).None? <==> QuestionComplete(q)
  {
    if q.text.Some? && !IsBlank(q.text.value) && q.options.Some? {
      OptionsErrorNone(q.options.value, 0, i + 1);
    }
  }

  lemma {:induction false} QuestionsErrorNone(qs: seq<DraftQuestion>, i: nat)
    requires i <= |qs|
    ensures QuestionsError(qs, i).None? <==> forall k :: i <= k < |qs| ==> QuestionComplete(qs[k])
    decreases |qs| - i
  {
    if i < |qs| {
      QuestionErrorNone(qs[i], i);
      QuestionsErrorNone(qs, i + 1);
    }
  }

  /** The validator accepts exactly the forms with a non-blank title and description whose
      every question has non-blank text, an options list and no blank option. */
  lemma FormAcceptedIff(title: string, description: string, qs: seq<DraftQuestion>)
    ensures FirstError(title, description, qs).None? <==>
      !IsBlank(title) && !IsBlank(description) && forall i :: 0 <= i < |qs| ==> QuestionComplete(qs[i])
  {
    QuestionsErrorNone(qs, 0);
  }

  /** A reported blank option is the first blank option of its question. */
  lemma {:induction false} OptionsErrorIsFirst(options: seq<string>, j: nat, qn: nat)
    requires j <= |options| && OptionsError(options, j, qn).Some?
    ensures var e := OptionsError(options, j, qn).value;
      e.OptionEmpty? && e.question == qn && j < e.option <= |options| &&
      IsBlank(options[e.option - 1]) &&
      forall k :: j <= k < e.option - 1 ==> !IsBlank(options[k])
    decreases |options| - j
  {
    if !IsBlank(options[j]) {
      OptionsErrorIsFirst(options, j + 1, qn);
    }
  }

  /** A reported question problem is the problem of the first incomplete question, and
      carries that question's 1-based number. */
  lemma {:induction false} QuestionsErrorIsFirst(qs: seq<DraftQuestion>, i: nat)
    requires i <= |qs| && QuestionsError(qs, i).Some?
    ensures var e := QuestionsError(qs, i).value;
      !e.TitleRequired? && !e.DescriptionRequired? && i < e.question <= |qs| &&
      QuestionError(qs[e.question - 1], e.question - 1) == Some(e) &&
      forall k :: i <= k < e.question - 1 ==> QuestionComplete(qs[k])
    decreases |qs| - i
  {
    var q := qs[i];
    if QuestionError(q, i).Some? {
      if q.text.Some? && !IsBlank(q.text.value) && q.options.Some? {
        OptionsErrorIsFirst(q.options.value, 0, i + 1);
      }
    } else {
      QuestionErrorNone(q, i);
      QuestionsErrorIsFirst(qs, i + 1);
    }
  }

  /** The order of the early exits: a blank title is reported whatever the description, a
      blank description before any question, and a question's text before its options. */
  lemma FirstErrorOrder(title: string, description: string, qs: seq<DraftQuestion>)
    ensures IsBlank(title) ==> FirstError(title, description, qs) == Some(TitleRequired)
    ensures !IsBlank(title) && IsBlank(description) ==> FirstError(title, description, qs) == Some(DescriptionRequired)
    ensures !IsBlank(title) && !IsBlank(description) && FirstError(title, description, qs).Some? ==>
      var e := FirstError(title, description, qs).value;
      !e.TitleRequired? && !e.DescriptionRequired? && 0 < e.question <= |qs| &&
      (e.QuestionEmpty? <==> (qs[e.question - 1].text.None? || IsBlank(qs[e.question - 1].text.value))) &&
      (e.NoOptions? ==> qs[e.question - 1].options.None?) &&
      (e.OptionEmpty? ==> qs[e.question - 1].options.Some? && 0 < e.option <= |qs[e.question - 1].options.value| &&
                          IsBlank(qs[e.question - 1].options.value[e.option - 1]))
  {
    if !IsBlank(title) && !IsBlank(description) && FirstError(title, description, qs).Some? {
      QuestionsErrorIsFirst(qs, 0);
      var e := FirstError(title, description, qs).value;
      var q := qs[e.question - 1];
      if q.text.Some? && !IsBlank(q.text.value) && q.options.Some? {
        OptionsErrorIsFirst(q.options.value, 0, e.question);
      }
    }
  }

  // ---------------------------------------------------------------------------
  // From the form's drafts to stored questions and back
  // ---------------------------------------------------------------------------

  predicate Convertible(ds: seq<DraftQuestion>) {
    forall i :: 0 <= i < |ds| ==> ds[i].text.Some? && ds[i].options.Some?
  }

  /** `questions as Question[]` on drafts that the validator accepted. */
  function ToQuestions(ds: seq<DraftQuestion>): (r: seq<Question>)
    requires Convertible(ds)
    ensures |r| == |ds|
  {
    seq(|ds|, i requires 0 <= i < |ds| && Convertible(ds) =>
      Question(ds[i].id, ds[i].text.value, ds[i].options.value, ds[i].correctAnswer))
  }

  /** The edit page's clone of a stored quiz's questions, each with its own copy of the options. */
  function ToDrafts(qs: seq<Question>): (r: seq<DraftQuestion>)
    ensures |r| == |qs| && Convertible(r)
  {
    seq(|qs|, i requires 0 <= i < |qs| => DraftQuestion(qs[i].id, Some(qs[i].text), Some(qs[i].options), qs[i].correctAnswer))
  }

  /** Cloning the stored questions into the form and converting them back gives the
      stored questions unchanged. */
  lemma DraftsRoundTrip(qs: seq<Question>)
    ensures ToQuestions(ToDrafts(qs)) == qs
  {
  }

  lemma AcceptedIsConvertible(title: string, description: string, qs: seq<DraftQuestion>)
    requires FirstError(title, description, qs).None?
    ensures Convertible(qs)
  {
    FormAcceptedIff(title, description, qs);
  }

  // ---------------------------------------------------------------------------
  // The form's state and its handlers
  // ---------------------------------------------------------------------------

  /** Removes the question at `index` (`questions.filter((_, i) => i !== index)`). */
  function RemoveAt(qs: seq<DraftQuestion>, index: int): (r: seq<DraftQuestion>)
    ensures 0 <= index < |qs| ==> |r| == |qs| - 1
    ensures !(0 <= index < |qs|) ==> r == qs
  {
    if 0 <= index < |qs| then qs[..index] + qs[index + 1..] else qs
  }

  class Form {
    var title: string
    var description: string
    var isPublic: bool
    var questions: seq<DraftQuestion>
    var error: string

    /** The create page's initial form: one blank question. */
    constructor ForCreate(firstId: string)
      ensures title == "" && description == "" && !isPublic && error == ""
      ensures questions == [BlankQuestion(firstId)]
    {
      title, description, isPublic, error := "", "", false, "";
      questions := [BlankQuestion(firstId)];
    }

    /** The edit page's initial form, before the stored quiz is loaded: no questions. */
    constructor ForEdit()
      ensures title == "" && description == "" && !isPublic && error == "" && questions == []
    {
      title, description, isPublic, error := "", "", false, "";
      questions := [];
    }

    /** handleOptionChange: option `j` of question `i` becomes `value`; a question without
        options first gets four empty ones. Nothing else changes. */
    method HandleOptionChange(i: int, j: int, value: string)
      requires 0 <= i < |questions| && 0 <= j < |OptionsOrDefault(questions[i])|
      modifies this`questions
      ensures questions == old(questions)[i := old(questions)[i].(options := Some(OptionsOrDefault(old(questions)[i])[j := value]))]
    {
      var q := questions[i];
      if q.options.None? {
        q := q.(options := Some(["", "", "", ""]));
      }
      q := q.(options := Some(q.options.value[j := value]));
      questions := questions[i := q];
    }

    /** handleQuestionTextChange: only the text of question `i` changes. */
    method HandleQuestionTextChange(i: int, value: string)
      requires 0 <= i < |questions|
      modifies this`questions
      ensures questions == old(questions)[i := old(questions)[i].(text := Some(value))]
    {
      questions := questions[i := questions[i].(text := Some(value))];
    }

    /** handleCorrectAnswerChange: only the correct answer of question `i` changes. */
    method HandleCorrectAnswerChange(i: int, optionIndex: int)
      requires 0 <= i < |questions|
      modifies this`questions
      ensures questions == old(questions)[i := old(questions)[i].(correctAnswer := optionIndex)]
    {
      questions := questions[i := questions[i].(correctAnswer := optionIndex)];
    }

    /** addQuestion: one blank question is appended; the others are kept as they are. */
    method AddQuestion(freshId: string)
      modifies this`questions
      ensures questions == old(questions) + [BlankQuestion(freshId)]
    {
      questions := questions + [BlankQuestion(freshId)];
    }

    /** removeQuestion: the indexed question goes only when there is more than one, so a
        form with questions never ends up with none. */
    method RemoveQuestion(index: int)
      modifies this`questions
      ensures questions == if |old(questions)| > 1 then RemoveAt(old(questions), index) else old(questions)
      ensures |old(questions)| >= 1 ==> |questions| >= 1
    {
      if |questions| > 1 {
        questions := RemoveAt(questions, index);
      }
    }

    /** validateForm: the nested scan with early exits. It returns whether the form is
        accepted and, when it is not, shows the message of the first problem. */
    method ValidateForm() returns (ok: bool)
      modifies this`error
      ensures ok <==> FirstError(title, description, questions).None?
      ensures ok ==> error == old(error)
      ensures !ok ==> error == Message(FirstError(title, description, questions).value)
    {
      if IsBlank(title) {
        error := Message(TitleRequired);
        return false;
      }
      if IsBlank(description) {
        error := Message(DescriptionRequired);
        return false;
      }
      var i := 0;
      while i < |questions|
        invariant 0 <= i <= |questions|
        invariant QuestionsError(questions, i) == QuestionsError(questions, 0)
        invariant error == old(error)
      {
        var q := questions[i];
        if q.text.None? || IsBlank(q.text.value) {
          error := Message(QuestionEmpty(i + 1));
          return false;
        }
        if q.options.None? {
          error := Message(NoOptions(i + 1));
          return false;
        }
        var options := q.options.value;
        var j := 0;
        while j < |options|
          invariant 0 <= j <= |options|
          invariant OptionsError(options, j, i + 1) == OptionsError(options, 0, i + 1)
          invariant error == old(error)
        {
          if IsBlank(options[j]) {
            error := Message(OptionEmpty(j + 1, i + 1));
            return false;
          }
          j := j + 1;
        }
        i := i + 1;
      }
      return true;
    }
  }
}
