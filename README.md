# Multiple-choice quiz controller

The model covers a browser quiz. It has a fixed catalog of four topics. Each topic holds an ordered list of
questions, and each question has answer options and the index of the right one. A controller object
(`QuizApp`) steps through one session:

- choosing a topic shows its first question on the quiz screen;
- clicking an option marks the feedback and disables every option;
- "next" moves to the following question, or to the result screen after the last one;
- "restart" plays the same topic again;
- "home" shows the home screen.

The model has three modules:

- `QuizContent` (`quiz_content.dfy`): the immutable content. It holds `Question` with `IsCorrect`,
  `QuizTopic`, the catalog `QuizData` and their well-formedness predicates.
- `QuizMachine` (`quiz_machine.dfy`): the session as a value (`Session`) and every controller transition
  as a function on it. A screen tag (`Home`, `QuizScreen`, `ResultScreen`) stands for the three screens'
  `hidden` classes. The answer buttons are a sequence of `AnswerButton` records (text, feedback mark,
  disabled). The `answered` flag says that all buttons are disabled. The texts the controller writes
  become a `QuestionView` and a `ResultView`. `Inv` is the invariant every reachable state keeps.
  `Dispatch` and `Run` deliver user actions the way the page does, so lemmas can speak about whole
  play-throughs.
- `QuizController` (`quiz_controller.dfy`): the class `QuizApp`, with the source's mutable fields and one
  method per source method. Each method is proved to leave the object in exactly the state that the
  `QuizMachine` function of the same name computes from the old state (`State()`). The two source
  loops are `while` loops with invariants: rebuilding the option buttons and disabling them all.

### Behaviour as written

These follow the code, and some differ from what a reader of the code might expect:

- **The score never changes.** The correct-answer branch only evaluates `this.score`
  (script.js:88). `HandleAnswer` keeps the score on both branches. `ScoreNeverIncreases` and
  `EveryResultIsZero` prove that every result shown is 0 out of N, 0%. The branch looks like an
  increment was meant; the code has none.
- **`goHome` only switches the screen.** It keeps the topic, the position, the score and everything
  rendered.
- **Next does not wait for an answer.** `nextQuestion` has no guard, so `NextQuestion` requires only a
  selected topic, and, on the home screen, that a next question exists (see "## Left out").
- **There is no "invalid answer index" error.** Clicks come only from rendered buttons. A click on a
  disabled, missing or hidden button does nothing (`Dispatch`).
- `Question.isCorrect` is a pure comparison, which a Dafny function is by construction.

## Model

| member | source | states |
|---|---|---|
| `QuizContent.ExactlyOneCorrectOption` | script.js:10-12 | On a well-formed question, `IsCorrect(i)` holds exactly when `i == correctIndex`, and exactly one option index is accepted. |
| `QuizContent.QuizDataWellFormed` | script.js:138-155 | The catalog keys are science, history, sports and movies. Each topic has two questions of four options. Every topic is non-empty and every `correctIndex` is a valid option index. |
| `QuizMachine.Percent` | script.js:116 | The percentage is `100 * score / total` rounded half up: `2t*p <= 200s + t < 2t*(p+1)`. It lies in 0..100 when `0 <= score <= total`, and is 100 when `score == total`. |
| `QuizMachine.PercentIsRounding` | script.js:116 | Any integer that meets the rounding bounds equals `Percent`, so the rounding has exactly one result. |
| `QuizMachine.PercentOfZero` | script.js:116 | A score of 0 gives 0% for every topic length. |
| `QuizMachine.PercentExamples` | script.js:116 | 1 of 2 gives 50, 2 of 2 gives 100, 0 of 2 gives 0, and 1 of 3 gives 33. |
| `QuizMachine.InitialInv` | script.js:25-29 | The state after construction (no topic, position 0, score 0, home screen) satisfies the invariant. |
| `QuizMachine.LoadQuestion` | script.js:65-80 | The buttons are the current question's options in order, unmarked and enabled. Progress shows `index + 1` of the topic's length, with the current score. Topic, position, score and screen are unchanged. |
| `QuizMachine.StartQuiz` | script.js:54-62 | The topic is the chosen one, with position 0 and score 0. The quiz screen shows question 1 of n, nothing is answered and no option carries a mark. The result view is kept. This holds from any state. |
| `QuizMachine.HandleAnswer` | script.js:83-99 | Topic, position, score, screen and views stay unchanged on both branches. A correct choice marks that option correct. A wrong choice marks it incorrect and marks option `correctIndex` correct. No other mark changes. Every button ends disabled. |
| `QuizMachine.ShowResults` | script.js:112-118 | Called from the quiz or result screen, the result screen shows the score, the topic's length and `Percent(score, length)`. Nothing else changes. |
| `QuizMachine.NextQuestion` | script.js:102-109 | The position goes up by exactly 1, with topic and score kept. When the new position is below the length, the screen is unchanged, the buttons show the next question's options, unmarked and enabled, and the progress view shows it; the result view is kept. Otherwise the result screen shows, and the buttons, the answered flag and the question view are kept. The invariant is kept. |
| `QuizMachine.RestartQuiz` | script.js:121-127 | Position and score become 0, the topic is kept and the quiz screen shows. The result equals choosing the same topic again. |
| `QuizMachine.GoHome` | script.js:130-134 | Only the screen changes, to home. Topic, position, score, buttons and views are unchanged. |
| `QuizMachine.Dispatch` | script.js:43-50 | Each user action keeps the invariant and keeps the position within the topic's length. Next on the result screen does nothing. A click on an option of an answered question does nothing. |
| `QuizMachine.Run` | script.js:43-50 | Every sequence of user actions keeps the invariant. |
| `QuizMachine.RunKeepsPositionBounded` | script.js:102-108 | Every sequence of user actions keeps the position at most the topic's length. |
| `QuizMachine.ReachableBounds` | script.js:102-108 | After any actions from start-up, with a topic selected, `0 <= position <= length` and `0 <= score <= length`. |
| `QuizMachine.SecondAnswerIgnored` | script.js:97-98 | After an answer is accepted, another click on any option leaves the state unchanged. |
| `QuizMachine.ScoreNeverIncreases` | script.js:87-88 | No sequence of actions makes the score larger than it was. |
| `QuizMachine.EveryResultIsZero` | script.js:115-117 | After any actions from start-up, the score is 0. Any result screen shows 0 out of the topic's length, 0%. |
| `QuizMachine.Advance` | script.js:102-108 | From the quiz screen, `k` clicks on next (not past the end) add `k` to the position and keep topic and score. The screen is the quiz screen until the position reaches the length, when the result screen shows. |
| `QuizMachine.PlayThrough` | script.js:102-118 | After choosing a topic of n questions and clicking next `k <= n` times: for `k < n`, question `k + 1` of n is on screen; for `k == n`, the result screen shows 0 of n, 0%, and a further next is ignored. |
| `QuizMachine.HomeThenSelect` | script.js:54-57 | Going home from the results and then choosing any topic starts it at position 0 with score 0 on the quiz screen. |
| `QuizController.QuizApp.constructor` | script.js:25-29 | The catalog is stored. There is no current topic, position and score are 0, the home screen shows, and the object invariant holds. |
| `QuizController.QuizApp.StartQuiz` | script.js:54-62 | The new state is `QuizMachine.StartQuiz` of the old one for `topics[topicName]`. The invariant is kept. |
| `QuizController.QuizApp.LoadQuestion` | script.js:65-80 | The caller must guarantee `0 <= currentQuestionIndex < questions.length`, and every call site is proved to. The new state is `QuizMachine.LoadQuestion` of the old one; the loop builds one button per option. |
| `QuizController.QuizApp.HandleAnswer` | script.js:83-99 | The new state is `QuizMachine.HandleAnswer` of the old one; the loop disables every button. The invariant is kept. |
| `QuizController.QuizApp.NextQuestion` | script.js:102-109 | It requires a selected topic, and on the home screen a next question. The new state is `QuizMachine.NextQuestion` of the old one, after the index is incremented in place. The invariant is kept. |
| `QuizController.QuizApp.ShowResults` | script.js:112-118 | The new state is `QuizMachine.ShowResults` of the old one. |
| `QuizController.QuizApp.RestartQuiz` | script.js:121-127 | The new state is `QuizMachine.RestartQuiz` of the old one. The invariant is kept. |
| `QuizController.QuizApp.GoHome` | script.js:130-134 | The new state is `QuizMachine.GoHome` of the old one. The invariant is kept. |

## Left out

- Document access, element lookup, event listeners and the page-load bootstrap (script.js:31-50,
  158-160) are host plumbing. What they do is represented by the fields and by `Dispatch`. The bootstrap
  builds the controller from `quizData`, and `QuizDataWellFormed` proves that this catalog meets the
  constructor's requirement.
- Creating buttons and changing `classList` and `textContent` are modelled only by their effect: the
  button records, the views and the screen tag.
- The page markup is not part of this model. The model assumes that the home screen is visible at
  start, that the answer and next buttons sit on the quiz screen, and that the restart and home buttons
  sit on the result screen. `Dispatch` uses these placements. Where the topic cards sit is not assumed:
  `Dispatch` accepts a card on every screen, which covers any placement, since `startQuiz` works from
  every state.
- The three `hidden` classes are one screen tag, so a state with two screens visible cannot be
  expressed. Three calls could produce one from the home screen, and the model excludes exactly those:
  `RestartQuiz` requires a screen other than home, because from home it would show the quiz screen
  beside the home screen; `ShowResults` requires a screen other than home, because it hides only the
  quiz screen and from home would show the result screen beside the home screen; `NextQuestion` on
  the home screen requires that a next question exists, because at the last question it calls
  `showResults`. With a next question, `loadQuestion` touches no screen and the model keeps home
  visible. None of the restart, next or home buttons is on the home screen, and `showResults` is
  called only from `nextQuestion`.
- `QuizMachine.Percent`: `Math.round((score / length) * 100)` is done in floating point. The model uses
  the exact rational value rounded half up, `(200 * score + length) / (2 * length)`. This matches except
  where floating-point error crosses a rounding boundary.
- A `classList` may hold several classes. Here a button carries one feedback mark. Within one question
  no button ever receives two, because the right option differs from the wrong one chosen.
- An unknown topic key, for which `this.topics[topicName]` is `undefined` (script.js:55): `StartQuiz`
  requires a catalog key, since cards supply only catalog keys. `Dispatch` ignores any other key.
- JavaScript numbers are modelled as unbounded integers. Positions and scores stay far below the range
  where doubles stop being whole numbers.
