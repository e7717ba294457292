/** The review-scheduling engine: the question record and the pure state
    transition that one piece of recall feedback applies to it. Both copies of
    `UpdateReview` in the repository (the multi-tenant one and the CLI one)
    apply exactly this transition. Time is a whole number of seconds. */
module Schedule {
  import opened Common

  const Hour: int := 3600
  const Day: int := 24 * Hour

  /** Go's zero `time.Time` (0001-01-01 UTC) in seconds from the Unix epoch. */
  const ZeroTime: int := -62135596800

  /** A question and its learning state. `level` runs from 1 (proficient) to
      4 (completely forgotten). */
  datatype Question = Question(
    id: string,
    questionText: string,
    answerText: string,
    source: string,
    level: int,
    nextReview: int,
    reviewCount: int,
    correctCount: int,
    createdAt: int,
    lastReviewed: Option<int>)

  /** The invariant the data model documents for every stored question. */
  predicate Valid(q: Question)
  {
    1 <= q.level <= 4 && 0 <= q.correctCount <= q.reviewCount
  }

  /** The question is due for review at `now`. */
  predicate IsDue(q: Question, now: int)
  {
    q.nextReview <= now
  }

  function Min(a: int, b: int): (r: int)
    ensures r <= a && r <= b && (r == a || r == b)
  {
    if a < b then a else b
  }

  function Max(a: int, b: int): (r: int)
    ensures r >= a && r >= b && (r == a || r == b)
  {
    if a > b then a else b
  }

  /** The state `AddQuestion` gives a new question: completely forgotten,
      never reviewed, due at once. */
  function NewQuestion(id: string, question: string, answer: string, source: string, now: int): (r: Question)
    ensures Valid(r) && IsDue(r, now)
    ensures r.level == 4 && r.reviewCount == 0 && r.correctCount == 0
    ensures r.createdAt == r.nextReview == now && r.lastReviewed == None
    ensures r.id == id && r.questionText == question && r.answerText == answer && r.source == source
  {
    Question(id, question, answer, source, 4, now, 0, 0, now, None)
  }

  /** Feedback 1 (proficient) and 2 (fair) count as a correct answer. The
      source tests `feedback <= 2`, so zero and negative values count too. */
  predicate CountsAsCorrect(feedback: int)
  {
    feedback <= 2
  }

  /** The base interval in seconds. The source looks it up in a Go map, which
      yields the zero duration for any key other than 1..4. */
  function BaseInterval(feedback: int): int
  {
    match feedback
    case 1 => 7 * Day
    case 2 => 3 * Day
    case 3 => Day
    case 4 => 2 * Hour
    case _ => 0
  }

  /** The multiplier in tenths (2.5, 1.8, 1.3, 1.0), zero off the table. */
  function MultiplierTenths(feedback: int): int
  {
    match feedback
    case 1 => 25
    case 2 => 18
    case 3 => 13
    case 4 => 10
    case _ => 0
  }

  /** The accuracy bonus: more than 80% of the reviews were correct, written
      without division as 5 * correct > 4 * reviews. */
  predicate AccuracyBonus(reviews: int, correct: int)
  {
    reviews > 0 && 5 * correct > 4 * reviews
  }

  /** base * multiplier * (1.2 when the bonus applies), in whole seconds. */
  function IntervalSeconds(feedback: int, bonus: bool): (s: int)
    ensures s * 100 == BaseInterval(feedback) * MultiplierTenths(feedback) * (if bonus then 12 else 10)
    ensures 1 <= feedback <= 4 ==> s > 0
    ensures !(1 <= feedback <= 4) ==> s == 0
  {
    match feedback
    case 1 => if bonus then 1814400 else 1512000
    case 2 => if bonus then 559872 else 466560
    case 3 => if bonus then 134784 else 112320
    case 4 => if bonus then 8640 else 7200
    case _ => 0
  }

  /** The memory level after a review, given the updated correct count. */
  function NextLevel(level: int, feedback: int, correct: int): int
  {
    if CountsAsCorrect(feedback) then
      if correct >= 3 && level > 1 then Max(1, level - 1) else level
    else
      Min(4, level + 1)
  }

  /** One review of `q` with `feedback` at time `now`. */
  function Review(q: Question, feedback: int, now: int): (r: Question)
    // the counters move first, and only in these ways
    ensures r.reviewCount == q.reviewCount + 1
    ensures r.correctCount == (if CountsAsCorrect(feedback) then q.correctCount + 1 else q.correctCount)
    ensures r.lastReviewed == Some(now)
    // the bonus is decided on the counters that already include this review
    ensures r.nextReview == now + IntervalSeconds(feedback, AccuracyBonus(r.reviewCount, r.correctCount))
    ensures 1 <= feedback <= 4 ==> r.nextReview > now
    ensures !(1 <= feedback <= 4) ==> r.nextReview == now
    // level: one step worse after a miss, capped at 4
    ensures !CountsAsCorrect(feedback) ==> r.level == Min(4, q.level + 1)
    // level: one step better after a hit only from the third correct answer on
    ensures CountsAsCorrect(feedback) ==>
      (r.level == q.level - 1 <==> r.correctCount >= 3 && q.level > 1)
    ensures CountsAsCorrect(feedback) ==> r.level == q.level || r.level == q.level - 1
    ensures Valid(q) ==> Valid(r)
    // nothing else changes
    ensures r.id == q.id && r.questionText == q.questionText && r.answerText == q.answerText
    ensures r.source == q.source && r.createdAt == q.createdAt
  {
    var reviews := q.reviewCount + 1;
    var correct := if CountsAsCorrect(feedback) then q.correctCount + 1 else q.correctCount;
    var bonus := AccuracyBonus(reviews, correct);
    q.(reviewCount := reviews,
       correctCount := correct,
       lastReviewed := Some(now),
       nextReview := now + IntervalSeconds(feedback, bonus),
       level := NextLevel(q.level, feedback, correct))
  }

  // ----- Worked examples -----

  /** The interval table: 7d x 2.5 (x 1.2 = 21 days), 3d x 1.8, 1d x 1.3, 2h. */
  lemma IntervalTable()
    ensures IntervalSeconds(1, false) == 17 * Day + 12 * Hour && IntervalSeconds(1, true) == 21 * Day
    ensures IntervalSeconds(2, false) == 5 * Day + 9 * Hour + 36 * 60
    ensures IntervalSeconds(3, false) == Day + 7 * Hour + 12 * 60
    ensures IntervalSeconds(4, false) == 2 * Hour
  {
  }

  /** A fresh question answered "proficient": counts 1/1, the bonus applies
      (multiplier 3.0), next review in 21 days, level still 4. */
  lemma FreshProficientReview(id: string, question: string, answer: string, source: string, created: int, now: int)
    ensures var r := Review(NewQuestion(id, question, answer, source, created), 1, now);
      r.reviewCount == 1 && r.correctCount == 1 && r.nextReview == now + 21 * Day && r.level == 4
  {
  }

  /** Three "proficient" answers in a row from a fresh question lower the
      level from 4 to 3 on the third one, not before. */
  lemma ThreeProficientReviews(q: Question, t1: int, t2: int, t3: int)
    requires q.level == 4 && q.reviewCount == 0 && q.correctCount == 0
    ensures Review(q, 1, t1).level == 4
    ensures Review(Review(q, 1, t1), 1, t2).level == 4
    ensures Review(Review(Review(q, 1, t1), 1, t2), 1, t3).level == 3
  {
  }

  /** "Completely forgotten" on a best-known question: level 2, two hours,
      unless the accuracy after this review is still above 80%. */
  lemma ForgottenAtBestLevel(q: Question, now: int)
    requires q.level == 1 && 0 <= q.correctCount <= q.reviewCount
    ensures var r := Review(q, 4, now);
      r.level == 2 &&
      r.nextReview == now + (if 5 * q.correctCount > 4 * (q.reviewCount + 1) then 8640 else 2 * Hour)
  {
  }
}
