/**
 * The client-side entities of the quiz application (the TypeScript interfaces
 * of src/types/index.ts), as values.
 */
module Types {
  import opened Common

  datatype User = User(id: string, username: string, email: string)

  /** A multiple-choice question: `correctAnswer` is a zero-based index into `options`. */
  datatype Question = Question(id: string, text: string, options: seq<string>, correctAnswer: int)

  datatype Quiz = Quiz(
    id: string,
    title: string,
    description: string,
    questions: seq<Question>,
    createdBy: string,
    isPublic: bool,
    createdAt: string)

  /** A stored attempt. Results written before user ids were recorded have no `userId`. */
  datatype QuizResult = QuizResult(
    quizId: string,
    score: int,
    totalQuestions: int,
    dateTaken: string,
    userId: Option<string>)

  /** What the create form hands to the store: a quiz without id, owner and creation time. */
  datatype QuizData = QuizData(title: string, description: string, isPublic: bool, questions: seq<Question>)

  /** What the play page hands to the store: a result without date and user. */
  datatype ResultData = ResultData(quizId: string, score: int, totalQuestions: int)
}
