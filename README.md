# IKnow quiz app — a verified Dafny model of its core

IKnow is a web application for writing and playing multiple-choice quizzes. The
single-page client keeps its own copy of every quiz and result in a context
provider and runs the whole domain logic itself:

- a create page and an edit page share one form that validates a quiz before saving it;
- a play page steps through the questions, scores them and records a result;
- an explore page lists the public quizzes that match a search term.

Beside the client runs a small REST server over a relational schema with four tables
(users, quizzes, questions, quiz_results). Its controllers do the following:

- register and log users in;
- create, list, read, update and delete quizzes, writing each quiz and its questions
  in one transaction;
- record results and list them per user.

This project models those pieces in Dafny and proves what they promise.

Modules, one per source file or concern:

- `Common`: JavaScript string helpers (`trim`, `toLowerCase`, `includes`), an
  order-keeping `Filter`, `find`, unique keys, and a newest-first sort (the order among equal times is the model's choice).
- `Types`: the client's `Quiz`, `Question`, `QuizResult` and `User`.
- `QuizContext`: the client store as a class `QuizStore` holding the quiz and result
  lists, with the provider's operations and lookups.
- `QuizForm`: the form state shared by both form pages, as class `Form`. Its handlers
  are methods. Its validator is a method with the source's nested loop, proved against
  a first-error specification.
- `CreateQuiz`, `EditQuiz`: the two pages' submit (and, for editing, load) steps.
- `PlayQuiz`: the play page's state as class `PlaySession`, its next-question step,
  the score and the result message.
- `Explore`: the public-and-matching filter.
- `ServerTables`: the four tables, the schema's constraints (`WellFormed`: primary
  keys, UNIQUE username and email, foreign keys), request-body values (absent, `null`
  or a value) and replies. A `Database` class holds the tables the handlers share.
- `QuizController`, `ResultController`, `UserController`: each handler as a pure
  function from the tables (and the request) to the reply and the new tables. Each
  state-changing handler is also a method on `Database`, proved equal to that function.
  The create and update methods keep the source's question-insert loop and roll back
  on a failing insert.

Library calls are parameters:

- password hashing, the password check and token signing: `hash`, `compare`, `sign`;
- fresh UUIDs and the clock: ids, `now` (the time a row stores) and `replyTime` (the
  separate reading a create or save reply carries);
- the authenticated caller's id, which the token middleware supplies: `userId`.

### Behaviour worth noting

- Recording a result does not check that `0 <= score <= totalQuestions`. The code
  only refuses an absent quiz id, an absent score, or an absent, null or zero question
  count (`server/controllers/resultController.js:11-13`).
  `ResultController.AnyScoreAccepted` states this.
- A null score passes that check and then violates the column's NOT NULL at the
  insert, which answers 500.
- Listing a user's results joins each result with its quiz (`JOIN quizzes`), so a
  result whose quiz is gone is not listed
  (`server/controllers/resultController.js:54-61`). With the schema's cascades, such
  results are deleted together with their quiz anyway.
- Validation failures use status 400 with one message per handler, not field-level
  messages.

## Model

| member | source | states |
|---|---|---|
| Common.Contains | src/pages/Explore.tsx:19-20 | `includes`: true exactly when the term occurs at some position of the string |
| Common.BlankIffAllSpace | src/pages/CreateQuiz.tsx:69 | `!s.trim()` holds exactly when the string is all whitespace |
| Common.Find | src/contexts/QuizContext.tsx:93 | `find`: None exactly when no element matches; otherwise the first matching element |
| Common.SortDesc | server/controllers/quizController.js:77 | `ORDER BY … DESC`: the result is ordered newest first and is a permutation of the input |
| QuizContext.GetQuiz | src/contexts/QuizContext.tsx:92-94 | None exactly when no quiz has the id; otherwise the first quiz with that id |
| QuizContext.UserQuizzes | src/contexts/QuizContext.tsx:60-62 | no user gives nothing; otherwise exactly the stored quizzes the user created |
| QuizContext.UserResults | src/contexts/QuizContext.tsx:65-67 | no user gives nothing; otherwise exactly the stored results that belong to the user |
| QuizContext.UserQuizzesKeepsOrder | src/contexts/QuizContext.tsx:60-62 | the view commutes with splitting the store and keeps a single quiz iff the user created it, so the store order is kept |
| QuizContext.UserQuizzesCount | src/contexts/QuizContext.tsx:60-62 | each of the user's quizzes occurs as often as in the store; any other quiz never |
| QuizContext.UserResultsKeepsOrder | src/contexts/QuizContext.tsx:65-67 | the view commutes with splitting the store and keeps a single result iff it belongs to the user, so the store order is kept |
| QuizContext.UserResultsCount | src/contexts/QuizContext.tsx:65-67 | each of the user's results occurs as often as in the store; any other result never |
| QuizContext.LegacyResultRule | src/contexts/QuizContext.tsx:66 | a result with a user id is listed iff the id is the user's; a result without one is listed iff its quiz id starts with the user's id |
| QuizContext.ReplaceById | src/contexts/QuizContext.tsx:82-86 | same length; each quiz with the updated id is replaced, every other one is kept |
| QuizContext.RemoveById | src/contexts/QuizContext.tsx:88-90 | no quiz with the deleted id remains |
| QuizContext.ReplaceByIdNoMatch | src/contexts/QuizContext.tsx:82-86 | updating an id that is not stored changes nothing |
| QuizContext.GetQuizAfterUpdate | src/contexts/QuizContext.tsx:82-94 | after an update its id finds the new quiz exactly when it was stored; other ids find what they found before |
| QuizContext.GetQuizAfterDelete | src/contexts/QuizContext.tsx:88-94 | after a delete its id finds nothing; other ids find what they found before |
| QuizContext.GetQuizAfterAppend | src/contexts/QuizContext.tsx:69-94 | after appending a quiz with a new id, that id finds it; other ids find what they found before |
| QuizContext.RemoveByIdKeepsOrder | src/contexts/QuizContext.tsx:88-90 | deleting keeps the order of the remaining quizzes |
| QuizContext.QuizStore.constructor | src/contexts/QuizContext.tsx:31-32 | the provider starts with no quizzes and no results |
| QuizContext.QuizStore.CreateQuiz | src/contexts/QuizContext.tsx:69-80 | no user: nothing changes; otherwise the quiz is appended with the fresh id, the user as owner and the time |
| QuizContext.QuizStore.UpdateQuiz | src/contexts/QuizContext.tsx:82-86 | quizzes become `ReplaceById` of the old list; results unchanged |
| QuizContext.QuizStore.DeleteQuiz | src/contexts/QuizContext.tsx:88-90 | quizzes become `RemoveById` of the old list; results unchanged |
| QuizContext.QuizStore.SaveQuizResult | src/contexts/QuizContext.tsx:96-106 | no user: nothing changes; otherwise one result is appended carrying the user's id and the time |
| QuizContext.SavedResultIsListed | src/contexts/QuizContext.tsx:96-106 | a saved result appears among its user's results |
| QuizForm.OptionsErrorNone | src/pages/CreateQuiz.tsx:91-96 | the option scan reports nothing exactly when no remaining option is blank |
| QuizForm.QuestionErrorNone | src/pages/CreateQuiz.tsx:80-96 | a question is let through exactly when its text is non-blank, it has options and none is blank |
| QuizForm.QuestionsErrorNone | src/pages/CreateQuiz.tsx:79-97 | the question scan reports nothing exactly when every remaining question is complete |
| QuizForm.FormAcceptedIff | src/pages/CreateQuiz.tsx:68-100 | the form is accepted exactly when the title and description are non-blank and every question is complete |
| QuizForm.OptionsErrorIsFirst | src/pages/CreateQuiz.tsx:91-96 | a reported option is blank, numbered from 1, and every option before it is non-blank |
| QuizForm.QuestionsErrorIsFirst | src/pages/CreateQuiz.tsx:79-97 | a reported question problem belongs to the first incomplete question and carries its 1-based number |
| QuizForm.FirstErrorOrder | src/pages/CreateQuiz.tsx:68-100 | title before description before questions; an empty-text report iff that question's text is blank; a no-options report only when options are missing; a blank-option report names a blank option |
| QuizForm.ToDrafts | src/pages/EditQuiz.tsx:44-47 | the clone has one draft per stored question, each with text and options present |
| QuizForm.DraftsRoundTrip | src/pages/EditQuiz.tsx:44-47 | cloning stored questions and casting them back gives them unchanged |
| QuizForm.AcceptedIsConvertible | src/pages/CreateQuiz.tsx:106-113 | a form the validator accepts can be cast to stored questions (every text and options list is present) |
| QuizForm.RemoveAt | src/pages/CreateQuiz.tsx:64 | a valid index removes one question; any other index removes none |
| QuizForm.Form.ForCreate | src/pages/CreateQuiz.tsx:18-27 | empty fields, private, one blank question |
| QuizForm.Form.ForEdit | src/pages/EditQuiz.tsx:19-25 | empty fields, private, no questions |
| QuizForm.Form.HandleOptionChange | src/pages/CreateQuiz.tsx:29-36 | only option j of question i changes; a question without options first gets four empty ones |
| QuizForm.Form.HandleQuestionTextChange | src/pages/CreateQuiz.tsx:38-42 | only the text of question i changes |
| QuizForm.Form.HandleCorrectAnswerChange | src/pages/CreateQuiz.tsx:44-48 | only the correct answer of question i changes |
| QuizForm.Form.AddQuestion | src/pages/CreateQuiz.tsx:50-60 | one blank question is appended and the others are kept |
| QuizForm.Form.RemoveQuestion | src/pages/CreateQuiz.tsx:62-66 | removes the indexed question only when there are several, so the form never loses its last question |
| QuizForm.Form.ValidateForm | src/pages/CreateQuiz.tsx:68-100 | returns true iff the first-error specification finds nothing; otherwise shows exactly that error's message |
| CreateQuiz.HandleSubmit | src/pages/CreateQuiz.tsx:102-121 | a rejected form shows the message and leaves the store unchanged; an accepted one clears the message and creates the quiz from the form |
| CreateQuiz.CreatedQuizIsFound | src/pages/CreateQuiz.tsx:109-114 | the created quiz is found under its fresh id with the form's contents, the user as owner and a non-blank title |
| EditQuiz.EditPage.constructor | src/pages/EditQuiz.tsx:19-25 | loading, no original quiz, an empty form |
| EditQuiz.EditPage.Load | src/pages/EditQuiz.tsx:28-60 | no id or an unknown id shows the matching error and changes no field; a stored quiz is copied into the form with cloned questions; loading stops |
| EditQuiz.EditPage.HandleSubmit | src/pages/EditQuiz.tsx:135-156 | writes back only when the form is accepted and a quiz was loaded, replacing the stored quiz with the edited one |
| EditQuiz.EditedQuizIsFound | src/pages/EditQuiz.tsx:142-149 | after the write-back the id finds the edited quiz, with the original's id, owner and creation time |
| EditQuiz.UneditedSubmitKeepsQuiz | src/pages/EditQuiz.tsx:143-149 | submitting an untouched loaded form writes back the stored quiz unchanged |
| PlayQuiz.CorrectCount | src/pages/PlayQuiz.tsx:78-80 | the number of correct answers never exceeds the number of answers |
| PlayQuiz.VerdictThresholds | src/pages/PlayQuiz.tsx:120-124 | "perfect" iff score equals the question count; "passed" iff otherwise more than half; "keep practicing" in every other case |
| PlayQuiz.ResultMessageShown | src/pages/PlayQuiz.tsx:119-125 | the results screen shows the perfect-score sentence iff score equals the question count, the passed sentence iff otherwise more than half, the keep-practicing sentence otherwise |
| PlayQuiz.PerfectIffAllCorrect | src/pages/PlayQuiz.tsx:87-125 | a played-through quiz shows the perfect-score sentence iff every answer is correct |
| PlayQuiz.PlaySession.constructor | src/pages/PlayQuiz.tsx:16-21 | first question, nothing selected, answered or scored, results hidden |
| PlayQuiz.PlaySession.SelectOption | src/pages/PlayQuiz.tsx:65-67 | only the selection changes |
| PlayQuiz.PlaySession.HandleNextQuestion | src/pages/PlayQuiz.tsx:69-99 | no selection: nothing changes; otherwise records the answer, adds 1 exactly for a correct one, and advances with the selection cleared or, on the last question, keeps the selection, saves the final score out of the question count and shows the results |
| PlayQuiz.PlaySession.RestartQuiz | src/pages/PlayQuiz.tsx:101-107 | back to the first question with nothing selected, answered or scored |
| PlayQuiz.ScoreWithinTotal | src/pages/PlayQuiz.tsx:87-94 | a finished play's score lies between 0 and the question count, and equals it iff every answer is correct |
| PlayQuiz.AllCorrectIff | src/pages/PlayQuiz.tsx:78-88 | the count equals the number of answers iff every answer is correct |
| Explore.PublicQuizzes | src/pages/Explore.tsx:15 | every listed quiz is public |
| Explore.ListedIff | src/pages/Explore.tsx:15-21 | a quiz is listed iff it is stored, public, and its lower-cased title or description contains the lower-cased term |
| Explore.EmptySearchListsAllPublic | src/pages/Explore.tsx:18-21 | an empty term lists every public quiz, in store order |
| Explore.ListingKeepsOrder | src/pages/Explore.tsx:15-21 | the listing keeps the store's order |
| Explore.SearchIgnoresCase | src/pages/Explore.tsx:18-21 | a term typed in capitals lists the same quizzes |
| Explore.PrivateNeverListed | src/pages/Explore.tsx:15 | a private quiz is never listed, whatever the term |
| ServerTables.EmptyWellFormed | server/config/database.js:24-68 | the empty store satisfies every key and foreign-key constraint |
| ServerTables.InsertUserKeepsWellFormed | server/config/database.js:24-30 | a user with a new id, username and email keeps the constraints |
| ServerTables.InsertQuizKeepsWellFormed | server/config/database.js:35-42 | a quiz with a new id and an existing creator keeps the constraints |
| ServerTables.InsertQuestionKeepsWellFormed | server/config/database.js:48-54 | a question with a new id and an existing quiz keeps the constraints |
| ServerTables.InsertResultKeepsWellFormed | server/config/database.js:60-68 | a result with a new id, an existing quiz and an existing user keeps the constraints |
| ServerTables.Database.constructor | server/config/database.js:24-68 | the database holds the given tables |
| ServerTables.Database.Restore | server/controllers/quizController.js:59-62 | a rollback puts every table back as it was |
| QuizController.InsertQuestionsEffect | server/controllers/quizController.js:30-42 | the insert loop succeeds iff the quiz row exists, every question is complete and every id is fresh; it then appends one row per question, in order, and changes nothing else |
| QuizController.InsertQuestionsKeepsWellFormed | server/controllers/quizController.js:30-42 | a successful insert loop keeps the constraints |
| QuizController.CreateQuizOutcome | server/controllers/quizController.js:5-70 | 400 iff the body is invalid; success iff every insert is accepted, writing one quiz row and one row per question, nothing else, and replying 201 with the submitted fields and the reply's own clock reading; any failure writes nothing; constraints kept |
| QuizController.ListingOrder | server/controllers/quizController.js:76-78 | a listing is newest first |
| QuizController.ListingSound | server/controllers/quizController.js:76-105 | every listed view is the view of a selected row |
| QuizController.ListingComplete | server/controllers/quizController.js:76-105 | a row's view is listed iff the row is stored and selected |
| QuizController.GetQuizzesListing | server/controllers/quizController.js:73-114 | only public quizzes, newest first, exactly those whose creator exists; with the constraints, every public quiz |
| QuizController.GetUserQuizzesListing | server/controllers/quizController.js:164-207 | exactly the caller's quizzes, newest first |
| QuizController.GetQuizByIdResult | server/controllers/quizController.js:117-161 | with the constraints, 404 iff no quiz has the id; otherwise that quiz's view with its creator's name |
| QuizController.CreateThenGet | server/controllers/quizController.js:117-161 | a just-created quiz is read back with the submitted fields, the caller as creator, the time, and exactly the submitted questions |
| QuizController.CreatedTables | server/controllers/quizController.js:17-45 | a successful create appends the quiz row, whose id was free, and its question rows, all carrying the new id, and keeps the constraints |
| QuizController.NewQuizQuestions | server/controllers/quizController.js:134-136 | a quiz id no row has yet owns exactly the question rows appended for it |
| QuizController.RewriteQuiz | server/controllers/quizController.js:237-240 | only the quiz with the id gets the new title, description and visibility; every other row is kept |
| QuizController.RewriteKeepsIds | server/controllers/quizController.js:237-243 | the UPDATE and the question DELETE keep the set of quiz ids and their uniqueness |
| QuizController.ClearedKeepsWellFormed | server/controllers/quizController.js:237-243 | the UPDATE and the question DELETE keep the constraints |
| QuizController.UpdateQuizOutcome | server/controllers/quizController.js:210-285 | 400 for an invalid body, 404 for an absent or foreign quiz, neither writes; success iff every insert is accepted, then the quiz row is rewritten with owner and time kept and its questions replaced; failure writes nothing; constraints kept |
| QuizController.UpdateQuizInserts | server/controllers/quizController.js:233-277 | for a valid body on the caller's quiz, success iff every new question row is accepted, then the rewritten and cleared tables plus the new rows; a failure answers 500 and writes nothing |
| QuizController.UpdateQuizKeepsWellFormed | server/controllers/quizController.js:210-285 | an update keeps the schema's constraints |
| QuizController.UpdateReplacesQuestions | server/controllers/quizController.js:243-258 | after an update the quiz's questions are exactly the submitted ones; other quizzes' questions are untouched |
| QuizController.ReplacedOwnQuestions | server/controllers/quizController.js:243-258 | dropping a quiz's question rows and appending new ones leaves exactly the new ones for it |
| QuizController.ReplacedOtherQuestions | server/controllers/quizController.js:243-258 | that replacement leaves every other quiz's question rows as they were |
| QuizController.CascadeKeepsWellFormed | server/controllers/quizController.js:304 | deleting a quiz with its cascaded questions and results keeps the constraints |
| QuizController.CascadeKeepsOtherQuizzes | server/controllers/quizController.js:304 | every quiz other than the deleted one survives the delete |
| QuizController.CascadeQuestionsOwned | server/config/database.js:54 | after the cascade every remaining question belongs to a surviving quiz |
| QuizController.CascadeResultsOwned | server/config/database.js:67-68 | after the cascade every remaining result belongs to a surviving quiz and an existing user |
| QuizController.DeleteQuizOutcome | server/controllers/quizController.js:288-311 | 404 iff the quiz is absent or not the caller's, writing nothing; otherwise the quiz, its questions and its results are gone and every other row stays; constraints kept |
| QuizController.AbsentAndForeignAlike | server/controllers/quizController.js:222-229 | update and delete answer an absent quiz and another user's quiz with the same 404 and write nothing |
| QuizController.CreateQuiz | server/controllers/quizController.js:5-70 | the transaction's reply and resulting tables are those of `CreateQuizSpec` |
| QuizController.UpdateQuiz | server/controllers/quizController.js:210-285 | the transaction's reply and resulting tables are those of `UpdateQuizSpec` |
| QuizController.DeleteQuiz | server/controllers/quizController.js:288-311 | the reply and resulting tables are those of `DeleteQuizSpec` |
| ResultController.SaveQuizResultOutcome | server/controllers/resultController.js:5-46 | 400 iff the quiz id, score or question count is missing; 404 iff the quiz is absent; success iff the score is a number and the insert is accepted, then exactly one row with the caller's id and the stored time, and a 201 reply carrying the reply's own clock reading; failure writes nothing; constraints kept |
| ResultController.AnyScoreAccepted | server/controllers/resultController.js:11-13 | any numeric score passes validation, 0 and scores above the question count included |
| ResultController.GetUserResultsOrder | server/controllers/resultController.js:54-61 | results are listed newest first |
| ResultController.GetUserResultsSound | server/controllers/resultController.js:54-71 | every listed entry is one of the caller's results whose quiz exists |
| ResultController.GetUserResultsComplete | server/controllers/resultController.js:54-61 | a caller's result is listed iff its quiz still exists |
| ResultController.GetUserResultsTitles | server/controllers/resultController.js:54-71 | with the constraints, each entry carries its quiz's title |
| ResultController.SaveQuizResult | server/controllers/resultController.js:5-46 | the reply and resulting tables are those of `SaveQuizResultSpec` |
| UserController.RegisterOutcome | server/controllers/userController.js:7-54 | 400 iff a field is missing; 409 iff the username or email is taken; success iff the id is free too, then 201 with a token for the new id, and one row storing the password's hash; failure writes nothing; constraints kept |
| UserController.RegisterTwiceRefused | server/controllers/userController.js:17-24 | registering again with a taken username or email gets the 409 |
| UserController.LoginOutcome | server/controllers/userController.js:57-100 | 400 iff the username or password is missing; success iff a user has the username and the password matches its hash, then a token for that user and the row without its hash; 401 otherwise |
| UserController.LoginFailuresAlike | server/controllers/userController.js:72-83 | an unknown username and a wrong password get the same reply |
| UserController.RegisterThenLogin | server/controllers/userController.js:57-100 | after registering, logging in with the same credentials succeeds as the new user |
| UserController.GetProfileResult | server/controllers/userController.js:103-124 | 404 iff no user has the id; otherwise that user's id, username, email and creation time |
| UserController.RegisterThenProfile | server/controllers/userController.js:103-124 | after registering, the profile is the registered username and email at the registration time |
| UserController.Register | server/controllers/userController.js:7-54 | the reply and resulting tables are those of `RegisterSpec` |

## Left out

- Browser storage: loading and saving the client lists in local storage is not
  modelled (`src/contexts/QuizContext.tsx:35-57`); the store starts empty.
- Rendering, routing and navigation are not modelled.
- The HTTP client (`src/services/api.ts`) is not part of this model. The client store
  does not call the server.
- Authentication context: the signed-in user is an `Option<User>` parameter.
- The play page's loading effect (`src/pages/PlayQuiz.tsx:24-33`) is left out. It is
  `GetQuiz` followed by a "Quiz not found" message; a `PlaySession` starts from an
  already loaded quiz.
- PlayQuiz.PlaySession.constructor: requires at least one question. The page reads
  the current question's text while playing, so it fails on a quiz with none.
- Progress bar and percentage display: floating point, not modelled.
- `crypto.randomUUID()`, `new Date()`, bcrypt, JWT signing: given as parameters
  (`freshId`, `now`, `replyTime`, `hash`, `compare`, `sign`). Salt randomness and token expiry are
  not modelled.
- Trim and case mapping cover ASCII only. JavaScript's Unicode whitespace, Unicode
  case mapping and SQL collation are not modelled, so a case-insensitive
  username/email clash in MySQL is not modelled either.
- QuizForm.Form.HandleOptionChange: requires the option index to be within the
  options list. JavaScript would grow a sparse array for an index past the end.
- Aliasing in the form handlers: the source copies the list shallowly and mutates the
  question objects in place, so a question object is shared between the old and the
  new list. The model uses value semantics. The edit page's deep clone
  (`src/pages/EditQuiz.tsx:44-47`) ensures the store is never reached through those
  objects.
- EditQuiz.EditPage.Load: the `|| ''` and `|| false` fallbacks for description and
  visibility are identities on the typed quiz, and the `catch` branch ("Error loading
  quiz") is not modelled. `getQuiz` does not throw.
- The `catch` branches of the two submit handlers ("Failed to …") are not modelled:
  the store operations do not throw.
- Server request bodies: a property is absent, `null` or a value of the expected
  type. Values of another JSON type (a number where a string is expected), and a
  non-array `questions`, are covered only as far as the checks treat them as missing.
- VARCHAR length limits and every storage fault other than a primary-key, NOT NULL or
  foreign-key violation are not modelled.
- The order of questions returned by the getters is stated only as a multiset, since
  the query has no ORDER BY.
- QuizController.CreateQuiz and QuizController.UpdateQuiz: the question ids generated
  for the response are not modelled; the response echoes the submitted questions.
- Concurrency: each handler is one atomic step on the database. Interleaved requests,
  and the check-then-insert race in register, are not modelled.
- The token middleware and the routes (`server/routes/`) are not part of this model.
  The caller's id arrives as `userId`.
- The 500 "Server error" reply of each handler's outer `catch` is modelled only for
  constraint violations.
