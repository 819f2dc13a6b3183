/**
 * The play page: a state machine over the current question, the selected option,
 * the answers given so far, the running score and whether the results are shown.
 * Finishing the last question saves a result in the client store.
 */
module PlayQuiz {
  import opened Common
  import opened Types
  import opened QuizContext

  /** How many of the recorded answers pick their question's correct option. */
  function CorrectCount(answers: seq<int>, questions: seq<Question>): (n: nat)
    requires |answers| <= |questions|
    ensures n <= |answers|
  {
    if answers == [] then 0
    else
      var k := |answers| - 1;
      CorrectCount(answers[..k], questions) + (if answers[k] == questions[k].correctAnswer then 1 else 0)
  }

  /** The message of the results screen. */
  datatype Verdict = Perfect | Passed | KeepPracticing

  /** `score === total ? perfect : score > total / 2 ? passed : keep practicing`, with the
      division done in floating point as JavaScript does. */
  function ResultVerdict(score: int, total: int): Verdict {
    if score == total then Perfect
    else if score as real > total as real / 2.0 then Passed
    else KeepPracticing
  }

  /** The verdict thresholds in integer terms: perfect exactly at the question count,
      otherwise passed exactly when twice the score exceeds it. */
  lemma VerdictThresholds(score: int, total: int)
    ensures ResultVerdict(score, total) == Perfect <==> score == total
    ensures ResultVerdict(score, total) == Passed <==> score != total && 2 * score > total
    ensures ResultVerdict(score, total) == KeepPracticing <==> score != total && 2 * score <= total
  {
  }

  const PerfectText: string := "Perfect score! Excellent job!"
  const PassedText: string := "Good job! You passed the quiz."
  const PracticeText: string := "Keep practicing to improve your score."

  function VerdictText(v: Verdict): string {
    match v
    case Perfect => PerfectText
    case Passed => PassedText
    case KeepPracticing => PracticeText
  }

  /** The sentence the results screen shows under `score / total`. */
  function ResultMessage(score: int, total: int): string {
    VerdictText(ResultVerdict(score, total))
  }

  /** Which sentence the results screen shows: the perfect-score one exactly at the question
      count, the passed one exactly when the score is not perfect and more than half of it,
      and the keep-practicing one otherwise. */
  lemma ResultMessageShown(score: int, total: int)
    ensures ResultMessage(score, total) == PerfectText <==> score == total
    ensures ResultMessage(score, total) == PassedText <==> score != total && 2 * score > total
    ensures ResultMessage(score, total) == PracticeText <==> score != total && 2 * score <= total
  {
    VerdictThresholds(score, total);
    assert PerfectText[0] != PassedText[0] && PerfectText[0] != PracticeText[0] && PassedText[0] != PracticeText[0];
  }

  class PlaySession {
    const quiz: Quiz
    var currentQuestionIndex: nat
    var selectedOption: Option<int>
    var answers: seq<int>
    var score: int
    var showResults: bool

    /** While playing, one answer is recorded per question before the current one; once
        the results show, every question is answered. The score counts the correct answers. */
    ghost predicate Valid()
      reads this
    {
      && 0 < |quiz.questions|
      && currentQuestionIndex < |quiz.questions|
      && (if showResults then |answers| == |quiz.questions| && currentQuestionIndex == |quiz.questions| - 1
          else |answers| == currentQuestionIndex)
      && score == CorrectCount(answers, quiz.questions)
    }

    /** A session on a loaded quiz. The page reads the current question's text while it
        plays, so the quiz has at least one question. */
    constructor (quiz: Quiz)
      requires 0 < |quiz.questions|
      ensures Valid() && this.quiz == quiz
      ensures currentQuestionIndex == 0 && selectedOption.None? && answers == [] && score == 0 && !showResults
    {
      this.quiz := quiz;
      currentQuestionIndex := 0;
      selectedOption := None;
      answers := [];
      score := 0;
      showResults := false;
    }

    /** handleOptionSelect: only the selection changes. */
    method SelectOption(optionIndex: int)
      requires Valid()
      modifies this`selectedOption
      ensures Valid() && selectedOption == Some(optionIndex)
    {
      selectedOption := Some(optionIndex);
    }

    /** handleNextQuestion. With nothing selected it does nothing. Otherwise it records the
        selection as the current question's answer and adds one to the score exactly when it is
        the correct option; then it moves to the next question with the selection cleared, or,
        on the last question, saves the result (final score out of the question count) and
        shows the results. */
    method HandleNextQuestion(store: QuizStore, user: Option<User>, now: string)
      requires Valid() && !showResults
      modifies this, store
      ensures Valid()
      ensures 0 <= score <= |answers| <= |quiz.questions|
      ensures old(selectedOption).None? ==>
        currentQuestionIndex == old(currentQuestionIndex) && selectedOption.None? && answers == old(answers) &&
        score == old(score) && !showResults &&
        store.quizzes == old(store.quizzes) && store.results == old(store.results)
      ensures old(selectedOption).Some? ==>
        answers == old(answers) + [old(selectedOption).value] &&
        answers[old(currentQuestionIndex)] == old(selectedOption).value &&
        score == old(score) + (if old(selectedOption).value == quiz.questions[old(currentQuestionIndex)].correctAnswer then 1 else 0)
      ensures old(selectedOption).Some? && old(currentQuestionIndex) < |quiz.questions| - 1 ==>
        currentQuestionIndex == old(currentQuestionIndex) + 1 && selectedOption.None? && !showResults &&
        store.quizzes == old(store.quizzes) && store.results == old(store.results)
      ensures old(selectedOption).Some? && old(currentQuestionIndex) == |quiz.questions| - 1 ==>
        currentQuestionIndex == old(currentQuestionIndex) && selectedOption == old(selectedOption) && showResults &&
        store.quizzes == old(store.quizzes) &&
        store.results == old(store.results) +
          (if user.None? then [] else [QuizResult(quiz.id, score, |quiz.questions|, now, Some(user.value.id))])
    {
      if selectedOption.None? {
        return;
      }
      var selected := selectedOption.value;
      var current := quiz.questions[currentQuestionIndex];
      // `newAnswers[currentQuestionIndex] = selectedOption` writes one past the last answer.
      assert (answers + [selected])[..currentQuestionIndex] == answers;
      answers := answers + [selected];
      var finalScore := score + (if selected == current.correctAnswer then 1 else 0);
      score := finalScore;
      if currentQuestionIndex < |quiz.questions| - 1 {
        currentQuestionIndex := currentQuestionIndex + 1;
        selectedOption := None;
      } else {
        store.SaveQuizResult(user, ResultData(quiz.id, finalScore, |quiz.questions|), now);
        showResults := true;
      }
    }

    /** restartQuiz: back to the first question with nothing selected, answered or scored. */
    method RestartQuiz()
      requires Valid()
      modifies this
      ensures Valid()
      ensures currentQuestionIndex == 0 && selectedOption.None? && answers == [] && score == 0 && !showResults
    {
      currentQuestionIndex := 0;
      selectedOption := None;
      answers := [];
      score := 0;
      showResults := false;
    }
  }

  /** Playing a quiz through never records more correct answers than it has questions:
      a saved result's score lies between 0 and its question count. */
  lemma {:induction false} ScoreWithinTotal(answers: seq<int>, questions: seq<Question>)
    requires |answers| == |questions|
    ensures 0 <= CorrectCount(answers, questions) <= |questions|
    ensures CorrectCount(answers, questions) == |questions| <==>
      forall i :: 0 <= i < |answers| ==> answers[i] == questions[i].correctAnswer
  {
    AllCorrectIff(answers, questions);
  }

  /** A played-through quiz shows the perfect-score sentence exactly when every answer picks
      its question's correct option. */
  lemma PerfectIffAllCorrect(answers: seq<int>, questions: seq<Question>)
    requires |answers| == |questions|
    ensures ResultMessage(CorrectCount(answers, questions), |questions|) == PerfectText <==>
      forall i :: 0 <= i < |answers| ==> answers[i] == questions[i].correctAnswer
  {
    ResultMessageShown(CorrectCount(answers, questions), |questions|);
    ScoreWithinTotal(answers, questions);
  }

  /** The count reaches the number of answers exactly when every answer is correct. */
  lemma {:induction false} AllCorrectIff(answers: seq<int>, questions: seq<Question>)
    requires |answers| <= |questions|
    ensures CorrectCount(answers, questions) == |answers| <==>
      forall i :: 0 <= i < |answers| ==> answers[i] == questions[i].correctAnswer
  {
    if answers != [] {
      var k := |answers| - 1;
      AllCorrectIff(answers[..k], questions);
      assert forall i :: 0 <= i < k ==> answers[..k][i] == answers[i];
    }
  }
}
