/**
 The value types the quiz passes around: the persisted outcome of one round
 and the question / step view model the presenter consumes and produces.
 */
module Models {

  /** Raw image payload (Swift `Data`). */
  type Bytes = seq<bv8>

  /**
   A question built by the question factory: the poster image, the prompt
   and whether "yes" is the right answer.
   */
  datatype QuizQuestion = QuizQuestion(image: Bytes, text: string, correctAnswer: bool)

  /** What the view shows for one question: image, prompt and "k/n" position. */
  datatype QuizStepViewModel = QuizStepViewModel(image: Bytes, question: string, questionNumber: string)

  /**
   The result of one completed round. `date` is the completion timestamp,
   kept as an opaque instant: nothing here compares or formats it.
   */
  datatype GameResult = GameResult(correct: int, total: int, date: int)

  /** One game is better than another iff it has strictly more correct answers. */
  predicate IsBetterThan(self: GameResult, another: GameResult) {
    self.correct > another.correct
  }

  /** Neither of two games with the same number of correct answers beats the other. */
  lemma TiesAreNeverBetter(a: GameResult, b: GameResult)
    requires a.correct == b.correct
    ensures !IsBetterThan(a, b) && !IsBetterThan(b, a)
  {
  }

  lemma IsBetterThanIrreflexive(a: GameResult)
    ensures !IsBetterThan(a, a)
  {
  }

  lemma IsBetterThanAsymmetric(a: GameResult, b: GameResult)
    ensures IsBetterThan(a, b) ==> !IsBetterThan(b, a)
  {
  }

  lemma IsBetterThanTransitive(a: GameResult, b: GameResult, c: GameResult)
    requires IsBetterThan(a, b) && IsBetterThan(b, c)
    ensures IsBetterThan(a, c)
  {
  }

  /** More correct answers always win, whatever the totals and dates. */
  lemma MoreCorrectIsBetter(a: GameResult, b: GameResult)
    requires a.correct > b.correct
    ensures IsBetterThan(a, b)
  {
  }

  /** Only the `correct` counts matter: `total` and `date` never change the outcome. */
  lemma IsBetterThanIgnoresTotalAndDate(a: GameResult, b: GameResult, a': GameResult, b': GameResult)
    requires a'.correct == a.correct && b'.correct == b.correct
    ensures IsBetterThan(a', b') == IsBetterThan(a, b)
  {
  }
}
