/**
 The quiz-flow presenter as an immutable state record. Every callback and
 action of the presenter is a pure transition; what it asks of its
 collaborators (the question factory, the statistics service, the view) is
 appended to `log` instead of being performed.
 */
module MovieQuizPresenter {
  import opened Wrappers
  import opened Models
  import Decimal

  /** Number of questions in one round. */
  const QuestionsAmount: int := 10

  /** An outward request made by the presenter. */
  datatype Effect =
    | RequestNextQuestion                          // questionFactory.requestNextQuestion()
    | Store(correct: int, total: int)              // statisticService.store(correct:total:)
    | Show(step: QuizStepViewModel)                // viewController.show(quiz:)
    | ShowResults(correct: int, total: int)        // viewController.showResults(quiz:), its "correct/total" score
    | HighlightImageBorder(isCorrectAnswer: bool)  // viewController.highlightImageBorder(isCorrectAnswer:)
    | HideLoadingIndicator                         // viewController.hideLoadingIndicator()
    | ShowNetworkError(message: string)            // viewController.showNetworkError(message:)
    | ScheduleAdvance                              // the one-second delayed call of the advance step

  datatype Presenter = Presenter(
    currentQuestion: Option<QuizQuestion>,
    correctAnswersCount: int,
    currentQuestionIndex: int,
    log: seq<Effect>)

  /** The stored fields' initial values: no question yet, both counters zero. */
  function Fresh(): (p: Presenter)
    ensures p.currentQuestion.None? && p.correctAnswersCount == 0 && p.log == []
    ensures IndexInRange(p) && p.currentQuestionIndex == 0
  {
    Presenter(None, 0, 0, [])
  }

  /** The index range a round stays within: question 1 through question 10. */
  predicate IndexInRange(p: Presenter) {
    0 <= p.currentQuestionIndex <= QuestionsAmount - 1
  }

  // ----- Helpers ---------------------------------------------------------

  /**
   The view model for `model`, numbered by the presenter's current index.
   The position string is canonical and parses to (index + 1, 10), which by
   `Decimal.CanonicalFractionUnique` fixes its exact spelling.
   */
  function Convert(p: Presenter, model: QuizQuestion): (step: QuizStepViewModel)
    ensures step.image == model.image && step.question == model.text
    ensures Decimal.CanonicalFraction(step.questionNumber)
    ensures Decimal.ParseFraction(step.questionNumber) == Some((p.currentQuestionIndex + 1, QuestionsAmount))
  {
    var number := Decimal.IntToDecimal(p.currentQuestionIndex + 1) + "/" + Decimal.IntToDecimal(QuestionsAmount);
    Decimal.FractionRoundTrip(p.currentQuestionIndex + 1, QuestionsAmount);
    QuizStepViewModel(model.image, model.text, number)
  }

  /** "Yes" is right exactly when the correct answer is true, "no" exactly when it is false. */
  function CheckCorrectAnswer(currentQuestion: QuizQuestion, userAnswer: bool): (isCorrect: bool)
    ensures userAnswer ==> (isCorrect <==> currentQuestion.correctAnswer)
    ensures !userAnswer ==> (isCorrect <==> !currentQuestion.correctAnswer)
  {
    currentQuestion.correctAnswer == userAnswer
  }

  function IsLastQuestion(p: Presenter): (last: bool)
    ensures last <==> p.currentQuestionIndex == 9
    ensures last ==> IndexInRange(p)
  {
    p.currentQuestionIndex == QuestionsAmount - 1
  }

  // ----- QuestionFactoryDelegate -----------------------------------------

  function DidReceiveNextQuestion(p: Presenter, question: Option<QuizQuestion>): (r: Presenter)
    ensures question.None? ==> r == p
    ensures question.Some? ==>
      && r.currentQuestion == question
      && r.correctAnswersCount == p.correctAnswersCount
      && r.currentQuestionIndex == p.currentQuestionIndex
      && r.log == p.log + [Show(Convert(p, question.value))]
  {
    match question
    case None => p
    case Some(q) => p.(currentQuestion := Some(q), log := p.log + [Show(Convert(p, q))])
  }

  function DidLoadDataFromServer(p: Presenter): (r: Presenter)
    ensures r.currentQuestion == p.currentQuestion
    ensures r.correctAnswersCount == p.correctAnswersCount
    ensures r.currentQuestionIndex == p.currentQuestionIndex
    ensures r.log == p.log + [HideLoadingIndicator, RequestNextQuestion]
  {
    p.(log := p.log + [HideLoadingIndicator, RequestNextQuestion])
  }

  /** `message` is the error's localized description. */
  function DidFailToLoadData(p: Presenter, message: string): (r: Presenter)
    ensures r.currentQuestion == p.currentQuestion
    ensures r.correctAnswersCount == p.correctAnswersCount
    ensures r.currentQuestionIndex == p.currentQuestionIndex
    ensures r.log == p.log + [ShowNetworkError(message)]
  {
    p.(log := p.log + [ShowNetworkError(message)])
  }

  // ----- Game logic ------------------------------------------------------

  function DidAnswer(p: Presenter, isCorrectAnswer: bool): (r: Presenter)
    ensures r.correctAnswersCount == if isCorrectAnswer then p.correctAnswersCount + 1 else p.correctAnswersCount
    ensures r.currentQuestionIndex == p.currentQuestionIndex
    ensures r.currentQuestion == p.currentQuestion
    ensures r.log == p.log
  {
    if isCorrectAnswer then p.(correctAnswersCount := p.correctAnswersCount + 1) else p
  }

  /**
   Scores the answer, highlights the image border and arms the delayed
   advance; the advance itself is the separate transition
   `ProceedToNextQuestionOrResults`.
   */
  function ProceedWithAnswer(p: Presenter, isCorrect: bool): (r: Presenter)
    ensures r.correctAnswersCount == p.correctAnswersCount + (if isCorrect then 1 else 0)
    ensures r.currentQuestionIndex == p.currentQuestionIndex
    ensures r.currentQuestion == p.currentQuestion
    ensures r.log == p.log + [HighlightImageBorder(isCorrect), ScheduleAdvance]
  {
    var answered := DidAnswer(p, isCorrect);
    answered.(log := answered.log + [HighlightImageBorder(isCorrect), ScheduleAdvance])
  }

  /**
   Answers the question on screen. Without a current question nothing
   happens; otherwise the answer is scored against it. The question is not
   cleared, so answering again scores again.
   */
  function HandleAnswer(p: Presenter, userAnswer: bool): (r: Presenter)
    ensures p.currentQuestion.None? ==> r == p
    ensures p.currentQuestion.Some? ==>
      var isCorrect := userAnswer == p.currentQuestion.value.correctAnswer;
      && r.correctAnswersCount == p.correctAnswersCount + (if isCorrect then 1 else 0)
      && r.currentQuestionIndex == p.currentQuestionIndex
      && r.currentQuestion == p.currentQuestion
      && r.log == p.log + [HighlightImageBorder(isCorrect), ScheduleAdvance]
  {
    match p.currentQuestion
    case None => p
    case Some(q) => ProceedWithAnswer(p, CheckCorrectAnswer(q, userAnswer))
  }

  function NoButtonClicked(p: Presenter): (r: Presenter)
    ensures p.currentQuestion.None? ==> r == p
    ensures p.currentQuestion.Some? ==>
      var isCorrect := !p.currentQuestion.value.correctAnswer;
      && r.correctAnswersCount == p.correctAnswersCount + (if isCorrect then 1 else 0)
      && r.currentQuestionIndex == p.currentQuestionIndex
      && r.currentQuestion == p.currentQuestion
      && r.log == p.log + [HighlightImageBorder(isCorrect), ScheduleAdvance]
  {
    HandleAnswer(p, false)
  }

  function YesButtonClicked(p: Presenter): (r: Presenter)
    ensures p.currentQuestion.None? ==> r == p
    ensures p.currentQuestion.Some? ==>
      var isCorrect := p.currentQuestion.value.correctAnswer;
      && r.correctAnswersCount == p.correctAnswersCount + (if isCorrect then 1 else 0)
      && r.currentQuestionIndex == p.currentQuestionIndex
      && r.currentQuestion == p.currentQuestion
      && r.log == p.log + [HighlightImageBorder(isCorrect), ScheduleAdvance]
  {
    HandleAnswer(p, true)
  }

  function SwitchToNextQuestion(p: Presenter): (r: Presenter)
    ensures r.currentQuestionIndex == p.currentQuestionIndex + 1
    ensures r.correctAnswersCount == p.correctAnswersCount
    ensures r.currentQuestion == p.currentQuestion && r.log == p.log
  {
    p.(currentQuestionIndex := p.currentQuestionIndex + 1)
  }

  /**
   The step the delayed call runs. Before the last question it moves on and
   asks the factory for a question; on the last one it stores the round's
   score and shows the results, leaving the index where it is.
   */
  function ProceedToNextQuestionOrResults(p: Presenter): (r: Presenter)
    ensures r.correctAnswersCount == p.correctAnswersCount
    ensures r.currentQuestion == p.currentQuestion
    ensures p.currentQuestionIndex == 9 ==>
      && r.currentQuestionIndex == p.currentQuestionIndex
      && r.log == p.log + [Store(p.correctAnswersCount, 10), ShowResults(p.correctAnswersCount, 10)]
    ensures p.currentQuestionIndex != 9 ==>
      && r.currentQuestionIndex == p.currentQuestionIndex + 1
      && r.log == p.log + [RequestNextQuestion]
    ensures IndexInRange(p) ==> IndexInRange(r)
  {
    if IsLastQuestion(p) then
      p.(log := p.log + [Store(p.correctAnswersCount, QuestionsAmount),
                         ShowResults(p.correctAnswersCount, QuestionsAmount)])
    else
      var next := SwitchToNextQuestion(p);
      next.(log := next.log + [RequestNextQuestion])
  }

  /**
   Starts a new round: both counters back to zero and a question requested.
   The current question is left as it was.
   */
  function RestartGame(p: Presenter): (r: Presenter)
    ensures r.currentQuestionIndex == 0 && r.correctAnswersCount == 0
    ensures IndexInRange(r) && !IsLastQuestion(r)
    ensures r.currentQuestion == p.currentQuestion
    ensures r.log == p.log + [RequestNextQuestion]
  {
    p.(currentQuestionIndex := 0, correctAnswersCount := 0, log := p.log + [RequestNextQuestion])
  }

  // ----- Properties of single transitions --------------------------------

  /** A fresh presenter numbers its question "1/10" and copies image and prompt. */
  lemma ConvertOnFreshPresenter(q: QuizQuestion)
    ensures Convert(Fresh(), q) == QuizStepViewModel(q.image, q.text, "1/10")
  {
    assert Decimal.NatToDecimal(10) == Decimal.NatToDecimal(1) + [Decimal.DigitChar(0)];
  }

  /** On the last question the step shown reads "10/10". */
  lemma LastQuestionShownAsTenOfTen(p: Presenter, q: QuizQuestion)
    requires IsLastQuestion(p)
    ensures Convert(p, q).questionNumber == "10/10"
  {
    assert Decimal.NatToDecimal(10) == Decimal.NatToDecimal(1) + [Decimal.DigitChar(0)];
  }
}
