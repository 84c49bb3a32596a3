/**
 The presenter driven by a sequence of events: callbacks from the question
 factory, button clicks, the delayed advance and the restart action. The
 lemmas here relate many transitions: the index bound every run keeps, the
 shape of a round, and what a restart does and does not reset.
 */
module QuizFlow {
  import opened Wrappers
  import opened Models
  import opened MovieQuizPresenter

  datatype Event =
    | QuestionArrived(question: Option<QuizQuestion>)  // didReceiveNextQuestion(question:)
    | DataLoaded                                       // didLoadDataFromServer()
    | LoadFailed(message: string)                      // didFailToLoadData(with:)
    | NoClicked                                        // noButtonClicked
    | YesClicked                                       // yesButtonClicked
    | Advance                                          // the delayed proceedToNextQuestionOrResults()
    | Restart                                          // restartGame()

  /**
   Which method each event calls. Apart from a restart, only clicks change
   the count, and only by adding one; only an advance or a restart moves the index;
   and only an arriving question replaces the current one.
   */
  function Step(p: Presenter, e: Event): (r: Presenter)
    ensures r.correctAnswersCount != p.correctAnswersCount && !e.Restart? ==>
      (e.NoClicked? || e.YesClicked?) && r.correctAnswersCount == p.correctAnswersCount + 1
    ensures r.currentQuestionIndex != p.currentQuestionIndex ==> e.Advance? || e.Restart?
    ensures r.currentQuestion != p.currentQuestion ==> e.QuestionArrived?
  {
    match e
    case QuestionArrived(q) => DidReceiveNextQuestion(p, q)
    case DataLoaded => DidLoadDataFromServer(p)
    case LoadFailed(message) => DidFailToLoadData(p, message)
    case NoClicked => NoButtonClicked(p)
    case YesClicked => YesButtonClicked(p)
    case Advance => ProceedToNextQuestionOrResults(p)
    case Restart => RestartGame(p)
  }

  function Run(p: Presenter, events: seq<Event>): Presenter
    decreases |events|
  {
    if |events| == 0 then p else Run(Step(p, events[0]), events[1..])
  }

  /** The part of the state that decides future behaviour; the log only records the past. */
  function Core(p: Presenter): (Option<QuizQuestion>, int, int) {
    (p.currentQuestion, p.correctAnswersCount, p.currentQuestionIndex)
  }

  /** Number of button clicks among `events`. */
  function Answers(events: seq<Event>): nat {
    if |events| == 0 then 0
    else (if events[0].NoClicked? || events[0].YesClicked? then 1 else 0) + Answers(events[1..])
  }

  function Repeat(e: Event, n: nat): (events: seq<Event>)
    ensures |events| == n && forall i :: 0 <= i < n ==> events[i] == e
  {
    seq(n, _ => e)
  }

  function Requests(n: nat): (effects: seq<Effect>)
    ensures |effects| == n && forall i :: 0 <= i < n ==> effects[i] == RequestNextQuestion
  {
    seq(n, _ => RequestNextQuestion)
  }

  lemma RunAppend(p: Presenter, xs: seq<Event>, ys: seq<Event>)
    ensures Run(p, xs + ys) == Run(Run(p, xs), ys)
    decreases |xs|
  {
    if |xs| > 0 {
      assert (xs + ys)[1..] == xs[1..] + ys;
      RunAppend(Step(p, xs[0]), xs[1..], ys);
    } else {
      assert xs + ys == ys;
    }
  }

  // ----- Index bound -----------------------------------------------------

  /** No single event moves the index out of 0..9. */
  lemma StepKeepsIndexInRange(p: Presenter, e: Event)
    requires IndexInRange(p)
    ensures IndexInRange(Step(p, e))
  {
  }

  lemma {:induction false} RunKeepsIndexInRange(p: Presenter, events: seq<Event>)
    requires IndexInRange(p)
    ensures IndexInRange(Run(p, events))
    decreases |events|
  {
    if |events| > 0 {
      StepKeepsIndexInRange(p, events[0]);
      RunKeepsIndexInRange(Step(p, events[0]), events[1..]);
    }
  }

  /** Whatever happens after start-up, the index stays between 0 and 9. */
  lemma FreshRunIndexInRange(events: seq<Event>)
    ensures 0 <= Run(Fresh(), events).currentQuestionIndex <= QuestionsAmount - 1
  {
    RunKeepsIndexInRange(Fresh(), events);
  }

  // ----- Effects are only appended ---------------------------------------

  /** One event appends to the log, and what it appends does not depend on the log. */
  lemma StepSplitsLog(p: Presenter, e: Event)
    ensures var s := Step(p.(log := []), e); Step(p, e) == s.(log := p.log + s.log)
  {
  }

  lemma AppendAssociative(a: seq<Effect>, b: seq<Effect>, c: seq<Effect>)
    ensures a + b + c == a + (b + c)
  {
  }

  /** A run appends to the log, and what it appends does not depend on the log. */
  lemma {:induction false} RunSplitsLog(p: Presenter, events: seq<Event>)
    ensures var r := Run(p.(log := []), events); Run(p, events) == r.(log := p.log + r.log)
    decreases |events|
  {
    if |events| > 0 {
      var c, e, rest := p.(log := []), events[0], events[1..];
      var s, t := Step(c, e), Step(p, e);
      StepSplitsLog(p, e);
      assert t == s.(log := p.log + s.log);
      var r1 := Run(s.(log := []), rest);
      AppendAssociative(p.log, s.log, r1.log);
      RunSplitsLog(t, rest);
      assert Run(t, rest) == r1.(log := p.log + s.log + r1.log);
      RunSplitsLog(s, rest);
      assert Run(c, events) == r1.(log := s.log + r1.log);
    }
  }

  lemma RunOnlyAppends(p: Presenter, events: seq<Event>)
    ensures |p.log| <= |Run(p, events).log| && Run(p, events).log[..|p.log|] == p.log
  {
    RunSplitsLog(p, events);
  }

  /**
   Two presenters that agree on question, count and index react alike to
   any events: they end in the same core state and append the same effects.
   */
  lemma {:induction false} RunDependsOnlyOnCore(a: Presenter, b: Presenter, events: seq<Event>)
    requires Core(a) == Core(b)
    ensures Core(Run(a, events)) == Core(Run(b, events))
    ensures |a.log| <= |Run(a, events).log| && |b.log| <= |Run(b, events).log|
    ensures Run(a, events).log[|a.log|..] == Run(b, events).log[|b.log|..]
  {
    assert a.(log := []) == b.(log := []);
    RunSplitsLog(a, events);
    RunSplitsLog(b, events);
  }

  // ----- Restart ---------------------------------------------------------

  /**
   Once the first question of the new round arrives, a restarted presenter
   is indistinguishable from a fresh one: any further events lead both to
   the same counters and question, and the restarted one emits exactly the
   fresh one's effects after its own request for a question.
   */
  lemma RestartedRoundMatchesFreshRound(p: Presenter, q: QuizQuestion, events: seq<Event>)
    ensures
      var restarted := Run(RestartGame(p), [QuestionArrived(Some(q))] + events);
      var fromStart := Run(Fresh(), [QuestionArrived(Some(q))] + events);
      && Core(restarted) == Core(fromStart)
      && restarted.log == p.log + [RequestNextQuestion] + fromStart.log
  {
    var a := Step(RestartGame(p), QuestionArrived(Some(q)));
    var b := Step(Fresh(), QuestionArrived(Some(q)));
    assert Core(a) == Core(b);
    assert a.log == p.log + [RequestNextQuestion] + b.log;
    assert Run(RestartGame(p), [QuestionArrived(Some(q))] + events) == Run(a, events);
    assert Run(Fresh(), [QuestionArrived(Some(q))] + events) == Run(b, events);
    RunDependsOnlyOnCore(a, b, events);
    RunOnlyAppends(a, events);
    RunOnlyAppends(b, events);
    var ra, rb := Run(a, events), Run(b, events);
    assert ra.log == a.log + ra.log[|a.log|..];
    assert rb.log == b.log + rb.log[|b.log|..];
  }

  // ----- Shape of a round ------------------------------------------------

  /**
   Before the last question each advance moves the index on by one and asks
   for one question, storing nothing.
   */
  lemma {:induction false} AdvancesBeforeLastQuestion(p: Presenter, k: nat)
    requires 0 <= p.currentQuestionIndex && p.currentQuestionIndex + k <= QuestionsAmount - 1
    ensures Run(p, Repeat(Advance, k))
      == p.(currentQuestionIndex := p.currentQuestionIndex + k, log := p.log + Requests(k))
    decreases k
  {
    if k > 0 {
      var next := Step(p, Advance);
      assert next == p.(currentQuestionIndex := p.currentQuestionIndex + 1, log := p.log + Requests(1));
      assert Repeat(Advance, k)[1..] == Repeat(Advance, k - 1);
      AdvancesBeforeLastQuestion(next, k - 1);
      assert p.log + Requests(1) + Requests(k - 1) == p.log + Requests(k);
    }
  }

  /**
   A round is ten advances from index 0: nine request the next question and
   the tenth, on question ten, stores the round's score out of 10 and shows
   the results.
   */
  lemma TenAdvancesCompleteARound(p: Presenter)
    requires p.currentQuestionIndex == 0
    ensures Run(p, Repeat(Advance, 10))
      == p.(currentQuestionIndex := 9,
            log := p.log + Requests(9) + [Store(p.correctAnswersCount, 10), ShowResults(p.correctAnswersCount, 10)])
  {
    assert Repeat(Advance, 10) == Repeat(Advance, 9) + [Advance];
    RunAppend(p, Repeat(Advance, 9), [Advance]);
    AdvancesBeforeLastQuestion(p, 9);
  }

  // ----- The correct-answer count ----------------------------------------

  /**
   The count never goes below zero and grows by at most one per click since
   the run began (a restart only lowers it).
   */
  lemma {:induction false} CountBoundedByAnswers(p: Presenter, events: seq<Event>)
    requires 0 <= p.correctAnswersCount
    ensures 0 <= Run(p, events).correctAnswersCount <= p.correctAnswersCount + Answers(events)
    decreases |events|
  {
    if |events| > 0 {
      CountBoundedByAnswers(Step(p, events[0]), events[1..]);
    }
  }

  /**
   No click is ignored while a question is current: `k` right answers to the
   same question add `k` to the count, each highlighting and arming an advance.
   */
  lemma {:induction false} RepeatedRightAnswersAllCount(p: Presenter, k: nat)
    requires p.currentQuestion.Some? && p.currentQuestion.value.correctAnswer
    ensures Core(Run(p, Repeat(YesClicked, k)))
      == (p.currentQuestion, p.correctAnswersCount + k, p.currentQuestionIndex)
    decreases k
  {
    if k > 0 {
      assert Repeat(YesClicked, k)[1..] == Repeat(YesClicked, k - 1);
      RepeatedRightAnswersAllCount(Step(p, YesClicked), k - 1);
    }
  }

  /**
   Hence a round's count can exceed the number of questions: eleven clicks
   on the first question's right answer give a count of 11, and the ten
   advances of the round then store it as 11 out of 10.
   */
  lemma CountCanExceedQuestionsAmount(q: QuizQuestion)
    requires q.correctAnswer
    ensures
      var answered := Run(Fresh(), [QuestionArrived(Some(q))] + Repeat(YesClicked, 11));
      var finished := Run(answered, Repeat(Advance, 10));
      && answered.correctAnswersCount == QuestionsAmount + 1
      && 2 <= |finished.log|
      && finished.log[|finished.log| - 2..] == [Store(11, 10), ShowResults(11, 10)]
  {
    var shown := Step(Fresh(), QuestionArrived(Some(q)));
    var answered := Run(shown, Repeat(YesClicked, 11));
    assert Run(Fresh(), [QuestionArrived(Some(q))] + Repeat(YesClicked, 11)) == answered by {
      assert ([QuestionArrived(Some(q))] + Repeat(YesClicked, 11))[1..] == Repeat(YesClicked, 11);
    }
    assert answered.correctAnswersCount == 11 && answered.currentQuestionIndex == 0 by {
      RepeatedRightAnswersAllCount(shown, 11);
    }
    var finished := Run(answered, Repeat(Advance, 10));
    assert finished.log == answered.log + Requests(9) + [Store(11, 10), ShowResults(11, 10)] by {
      TenAdvancesCompleteARound(answered);
    }
  }

  // ----- Loading ---------------------------------------------------------

  /**
   Before any question has arrived clicks do nothing, so a run of loading
   callbacks and clicks from start-up leaves both counters at zero; a failed
   load only shows the error.
   */
  lemma {:induction false} LoadingPhaseKeepsCounters(p: Presenter, events: seq<Event>)
    requires p.currentQuestion.None?
    requires forall i :: 0 <= i < |events| ==> events[i] in {DataLoaded, NoClicked, YesClicked} || events[i].LoadFailed?
    ensures Core(Run(p, events)) == Core(p)
    decreases |events|
  {
    if |events| > 0 {
      LoadingPhaseKeepsCounters(Step(p, events[0]), events[1..]);
    }
  }
}
