# Movie quiz: the quiz-flow presenter

A Dafny model of the movie quiz's `MovieQuizPresenter` and of the
`GameResult` "better than" ordering.

The presenter runs one round of ten yes/no questions. It holds the current
question, if there is one, the number of correct answers and the index of the
question on screen. It reacts to the question factory's callbacks: a question
arrived or was absent, data loaded, or loading failed. It also reacts to the
two answer buttons, to the delayed step that moves on after an answer, and to
the restart action.

The model has five modules:

- `Wrappers` holds `Option`, which stands for Swift's optionals.
- `Decimal` renders an `Int` the way Swift's string interpolation does. A
  parser is its partner, so that the "k/10" position string can be shown to
  carry exactly the index plus one and the round length.
- `Models` holds `QuizQuestion`, `QuizStepViewModel` and `GameResult`, with
  `IsBetterThan` and its ordering lemmas.
- `MovieQuizPresenter` holds the presenter state and one pure transition per
  method of the class. The requests the presenter makes of its collaborators
  are appended to the state's `log` as `Effect` values:
  - ask the factory for the next question;
  - store the score with the statistics service;
  - show a step or the results;
  - highlight the image border;
  - hide the loading indicator or show a network error.

  Answering appends `ScheduleAdvance` for the one-second timer. The timer's
  continuation is a separate transition, `ProceedToNextQuestionOrResults`.
- `QuizFlow` drives the presenter with a sequence of `Event`s. It proves what
  holds across many transitions: the index bound, the shape of a round, what a
  restart resets, and how the correct-answer count grows.

The model follows the code as written, including two behaviours a design of
the flow might not expect:

- `handleAnswer` (MovieQuiz/Presentation/MovieQuizPresenter.swift:58-62)
  checks only that a question is current. It never clears that question, so
  every click is scored. Eleven right clicks on the first question give a count
  of 11, and the round's ten advances then store it as 11 out of 10
  (`QuizFlow.CountCanExceedQuestionsAmount`). The count is only bounded by the
  number of clicks (`QuizFlow.CountBoundedByAnswers`).
- `restartGame` (MovieQuiz/Presentation/MovieQuizPresenter.swift:86-90)
  resets both counters but keeps the old question. Until the new round's first
  question arrives, a click is scored against the previous round's last
  question. No round or generation tag guards the delayed advance or a late
  question either: a pending advance still runs after a restart.

## Model

| member | source | states |
|---|---|---|
| `Decimal.NatToDecimal` | MovieQuiz/Presentation/MovieQuizPresenter.swift:112 | a non-negative Int renders as a non-empty string of digits with no leading zero; it is "0" exactly for 0 |
| `Decimal.IntToDecimal` | MovieQuiz/Presentation/MovieQuizPresenter.swift:112 | an Int renders as canonical digits, preceded by a single '-' exactly when it is negative (never "-0") |
| `Decimal.IntRoundTrip` | MovieQuiz/Presentation/MovieQuizPresenter.swift:112 | every rendered Int parses back to the same Int |
| `Decimal.FractionRoundTrip` | MovieQuiz/Presentation/MovieQuizPresenter.swift:112 | an "a/b" string built from two rendered Ints is canonical and splits at its first '/' back into a and b |
| `Decimal.CanonicalDigitsUnique` | MovieQuiz/Presentation/MovieQuizPresenter.swift:112 | canonical digits are the rendering of their own value, so a value has only one canonical spelling |
| `Decimal.CanonicalFractionUnique` | MovieQuiz/Presentation/MovieQuizPresenter.swift:112 | a canonical "a/b" string that parses to (a, b) is exactly the rendering of a, then '/', then the rendering of b |
| `Models.IsBetterThan` | MovieQuiz/Models/GameResult.swift:9-11 | a game is better than another exactly when it has strictly more correct answers |
| `Models.MoreCorrectIsBetter` | MovieQuiz/Models/GameResult.swift:9-11 | strictly more correct answers always make a game better, whatever the totals and dates (so 9 beats 8) |
| `Models.IsBetterThanIrreflexive` | MovieQuiz/Models/GameResult.swift:9-11 | no game is better than itself |
| `Models.TiesAreNeverBetter` | MovieQuiz/Models/GameResult.swift:9-11 | of two games with equal correct counts, neither is better |
| `Models.IsBetterThanAsymmetric` | MovieQuiz/Models/GameResult.swift:9-11 | if a is better than b, b is not better than a |
| `Models.IsBetterThanTransitive` | MovieQuiz/Models/GameResult.swift:9-11 | better-than chains: a over b and b over c give a over c |
| `Models.IsBetterThanIgnoresTotalAndDate` | MovieQuiz/Models/GameResult.swift:5-11 | changing total or date on either side never changes the outcome |
| `MovieQuizPresenter.Convert` | MovieQuiz/Presentation/MovieQuizPresenter.swift:108-114 | image and prompt are copied unchanged; the position string is canonical and reads back as (index + 1, 10), which fixes it as exactly "(index + 1)/10"; only a view model is returned, so the presenter is unchanged |
| `MovieQuizPresenter.ConvertOnFreshPresenter` | MovieQuizTests/MovieQuizPresenterTests.swift:5-19 | a fresh presenter converts any question to the same image and prompt numbered "1/10" |
| `MovieQuizPresenter.LastQuestionShownAsTenOfTen` | MovieQuiz/Presentation/MovieQuizPresenter.swift:102-114 | on the last question the position string is "10/10" |
| `MovieQuizPresenter.Fresh` | MovieQuiz/Presentation/MovieQuizPresenter.swift:9-12 | a new presenter has no question, count 0, index 0 (within the round's range) and no effects |
| `MovieQuizPresenter.CheckCorrectAnswer` | MovieQuiz/Presentation/MovieQuizPresenter.swift:116-118 | "yes" is right exactly when the correct answer is true and "no" exactly when it is false |
| `MovieQuizPresenter.IsLastQuestion` | MovieQuiz/Presentation/MovieQuizPresenter.swift:102-104 | true exactly at index 9, which lies in the round's index range |
| `MovieQuizPresenter.DidReceiveNextQuestion` | MovieQuiz/Presentation/MovieQuizPresenter.swift:26-35 | an absent question changes nothing and emits nothing; a present one becomes current, leaves both counters alone and emits one show of its conversion |
| `MovieQuizPresenter.DidLoadDataFromServer` | MovieQuiz/Presentation/MovieQuizPresenter.swift:37-40 | counters and question unchanged; emits hide-loading then one request for a question |
| `MovieQuizPresenter.DidFailToLoadData` | MovieQuiz/Presentation/MovieQuizPresenter.swift:42-44 | counters and question unchanged; emits only the network error with the given message |
| `MovieQuizPresenter.DidAnswer` | MovieQuiz/Presentation/MovieQuizPresenter.swift:96-100 | a right answer raises the count by exactly one and a wrong one leaves it; index, question and log untouched |
| `MovieQuizPresenter.ProceedWithAnswer` | MovieQuiz/Presentation/MovieQuizPresenter.swift:64-73 | scores the answer, then emits one highlight with its correctness and arms one delayed advance; the index does not move yet |
| `MovieQuizPresenter.HandleAnswer` | MovieQuiz/Presentation/MovieQuizPresenter.swift:58-62 | without a current question nothing changes; with one, the count rises by one iff the answer equals its correct answer, and a highlight and an advance are emitted |
| `MovieQuizPresenter.NoButtonClicked` | MovieQuiz/Presentation/MovieQuizPresenter.swift:48-50 | without a current question nothing changes; with one, "no" adds one to the count exactly when its correct answer is false, keeps index and question, and emits the highlight with that outcome and one delayed advance |
| `MovieQuizPresenter.YesButtonClicked` | MovieQuiz/Presentation/MovieQuizPresenter.swift:52-54 | without a current question nothing changes; with one, "yes" adds one to the count exactly when its correct answer is true, keeps index and question, and emits the highlight with that outcome and one delayed advance |
| `MovieQuizPresenter.SwitchToNextQuestion` | MovieQuiz/Presentation/MovieQuizPresenter.swift:92-94 | the index rises by exactly one and nothing else changes |
| `MovieQuizPresenter.ProceedToNextQuestionOrResults` | MovieQuiz/Presentation/MovieQuizPresenter.swift:75-84 | before index 9: index + 1 and one request, no store; at index 9: index kept, one store of (count, 10) then the results; keeps the index in 0..9 |
| `MovieQuizPresenter.RestartGame` | MovieQuiz/Presentation/MovieQuizPresenter.swift:86-90 | both counters become 0, the question is kept, and exactly one request is emitted with no store |
| `QuizFlow.Step` | MovieQuiz/Presentation/MovieQuizPresenter.swift:26-90 | apart from a restart only clicks change the count, and only by adding one; only an advance or a restart moves the index; only an arriving question replaces the current one |
| `QuizFlow.StepKeepsIndexInRange` | MovieQuiz/Presentation/MovieQuizPresenter.swift:26-104 | no event moves an index in 0..9 out of that range |
| `QuizFlow.RunKeepsIndexInRange` | MovieQuiz/Presentation/MovieQuizPresenter.swift:75-94 | any sequence of events keeps an index in 0..9 in that range |
| `QuizFlow.FreshRunIndexInRange` | MovieQuiz/Presentation/MovieQuizPresenter.swift:9-12 | from the initial fields, every reachable index lies in 0..9 |
| `QuizFlow.RunDependsOnlyOnCore` | MovieQuiz/Presentation/MovieQuizPresenter.swift:9-12 | two presenters with the same question, count and index reach the same such state and emit the same effects under any events |
| `QuizFlow.RestartedRoundMatchesFreshRound` | MovieQuiz/Presentation/MovieQuizPresenter.swift:86-90 | once the first question arrives, a restarted presenter matches a fresh one in counters and question and emits the same effects after its own request |
| `QuizFlow.AdvancesBeforeLastQuestion` | MovieQuiz/Presentation/MovieQuizPresenter.swift:75-94 | k advances that stay before index 9 raise the index by k and emit exactly k requests and no store |
| `QuizFlow.TenAdvancesCompleteARound` | MovieQuiz/Presentation/MovieQuizPresenter.swift:75-84 | from index 0, ten advances emit nine requests, then one store of (count, 10) and the results, ending at index 9 |
| `QuizFlow.CountBoundedByAnswers` | MovieQuiz/Presentation/MovieQuizPresenter.swift:58-100 | the count never drops below 0 and rises by at most one per click |
| `QuizFlow.RepeatedRightAnswersAllCount` | MovieQuiz/Presentation/MovieQuizPresenter.swift:58-62 | k right clicks on the same question add k to the count; index and question are unchanged |
| `QuizFlow.CountCanExceedQuestionsAmount` | MovieQuiz/Presentation/MovieQuizPresenter.swift:58-100 | eleven right clicks on the first question bring the count to 11, and the round's ten advances then end with a store of 11 out of 10 and the results |
| `QuizFlow.LoadingPhaseKeepsCounters` | MovieQuiz/Presentation/MovieQuizPresenter.swift:37-62 | until a question arrives, load callbacks and clicks leave question, count and index as they were |

## Left out

- The presenter's `init` (MovieQuiz/Presentation/MovieQuizPresenter.swift:14-22) creates the services, calls `loadData` and shows the loading indicator. The model starts from the stored fields' initial values (`Fresh`) instead.
- `buildResultsViewModel` (MovieQuiz/Presentation/MovieQuizPresenter.swift:120-134) builds a localized text from statistics, with a two-decimal float and a formatted date. The `ShowResults` effect records only the round's score as correct count out of 10.
- `StatisticService` and `QuestionFactory` are not part of this model. `store(correct:total:)` and `requestNextQuestion()` are effects in the log; persistence, accuracy, best-game selection, random ratings and image loading are not modelled.
- `error.localizedDescription` is the `message` parameter of `DidFailToLoadData`.
- Timing and threading are not modelled. The main-queue dispatch of `show` is an effect appended at once. The one-second `asyncAfter` is the `ScheduleAdvance` effect plus the separate `Advance` event, and any interleaving of events is a sequence.
- The weak references are assumed alive: the view controller behind `viewController?` (MovieQuiz/Presentation/MovieQuizPresenter.swift:5) and the presenter behind `[weak self]` (line 69). Calls through them are therefore never dropped. The `questionFactory` optional (line 6) is a strong reference that `init` always sets and nothing clears, so it is always present.
- `ProceedToNextQuestionOrResults`, `DidAnswer`, `SwitchToNextQuestion`: Swift's trap on 64-bit `Int` overflow of `+= 1` is not modelled, because integers here are unbounded. Reaching it would take more than 2^63 clicks.
- `MovieQuizViewController.swift` is the UIKit view with a synchronous mock-data copy of the flow. Its outlets, borders, alerts and button state are presentation.
- The `Array[safe:]` subscript and its tests are not part of this model.
