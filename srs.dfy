/**
 * `calculate_next_review`: a simplified SM-2 step from a card's review state
 * and the user's rating to the next state. The ease factor is kept in integer
 * hundredths (2.5 is 250), days are numbered, and "today" is a parameter.
 */
module Srs {
  import opened Wrappers

  /** 2.5, the ease of a card that has none yet. */
  const DefaultEase: int := 250
  /** 1.3, the floor of the ease factor. */
  const MinEase: int := 130
  /** Fall-back for a forgotten card (0.2). */
  const AgainPenalty: int := 20
  /** Raise for an easy answer (0.15). */
  const EasyBonus: int := 15
  /** About a hundred years, the longest interval. */
  const MaxInterval: int := 36500

  /** The stored state: any of the three keys may be missing. */
  datatype SrsState = SrsState(interval: Option<int>, easeFactor: Option<int>, status: Option<string>)

  /** The state `calculate_next_review` returns; `reviewDay` is the day number of `review_date`. */
  datatype Review = Review(interval: int, easeFactor: int, status: string, reviewDay: int)

  datatype RatingError = InvalidRating(rating: string)

  function IntervalOf(s: SrsState): int {
    if s.interval.Some? then s.interval.value else 0
  }

  function EaseOf(s: SrsState): int {
    if s.easeFactor.Some? then s.easeFactor.value else DefaultEase
  }

  function StatusOf(s: SrsState): string {
    if s.status.Some? then s.status.value else "new"
  }

  predicate IsRating(rating: string) {
    rating == "again" || rating == "good" || rating == "easy"
  }

  /** Still new or in learning (anything else counts as `review`). */
  predicate IsLearning(status: string) {
    status == "new" || status == "learning"
  }

  /** Python's `round(n / d)`: the nearest integer, ties to the even one. */
  function RoundHalfEven(n: int, d: int): (r: int)
    requires d > 0
    ensures -d <= 2 * (n - r * d) <= d
    ensures 2 * (n - r * d) == d ==> r % 2 == 0
    ensures 2 * (n - r * d) == -d ==> r % 2 == 0
  {
    var q, rem := n / d, n % d;
    if 2 * rem < d then q
    else if 2 * rem > d then q + 1
    else if q % 2 == 0 then q
    else q + 1
  }

  /** The ease after the floor clamp. */
  function FloorEase(ease: int): (e: int)
    ensures e >= MinEase && (ease >= MinEase ==> e == ease)
  {
    if ease < MinEase then MinEase else ease
  }

  /** The interval after clamping to `[1, MaxInterval]`. */
  function ClampInterval(interval: int): (i: int)
    ensures 1 <= i <= MaxInterval
    ensures 1 <= interval <= MaxInterval ==> i == interval
  {
    var capped := if interval > MaxInterval then MaxInterval else interval;
    if capped < 1 then 1 else capped
  }

  /** The clamps and the review date shared by every rating. */
  function Finish(interval: int, ease: int, status: string, today: int): Review {
    var i := ClampInterval(interval);
    Review(i, FloorEase(ease), status, today + i)
  }

  /** The interval `good` asks for from a card in review: `round(interval * ease)`. */
  function GoodReviewInterval(interval: int, ease: int): int {
    RoundHalfEven(interval * ease, 100)
  }

  /** The interval `easy` asks for from a card in review: `round(interval * ease * 1.3)`. */
  function EasyReviewInterval(interval: int, ease: int): int {
    RoundHalfEven(interval * ease * 13, 1000)
  }

  /** `calculate_next_review(state, rating)` on day `today`. */
  function NextReview(state: SrsState, rating: string, today: int): (r: Result<Review, RatingError>)
    ensures r.Failure? <==> !IsRating(rating)
    ensures r.Failure? ==> r.error == InvalidRating(rating)
    ensures r.Success? ==>
              && 1 <= r.value.interval <= MaxInterval
              && r.value.easeFactor >= MinEase
              && r.value.reviewDay == today + r.value.interval
    ensures rating == "again" ==>
              r == Success(Review(1, if EaseOf(state) - AgainPenalty > MinEase then EaseOf(state) - AgainPenalty else MinEase,
                                  "learning", today + 1))
    ensures rating == "good" ==>
              && r.value.status == "review"
              && r.value.easeFactor == FloorEase(EaseOf(state))
              && (IsLearning(StatusOf(state)) ==> r.value.interval == 1)
              && (!IsLearning(StatusOf(state)) ==>
                    r.value.interval == ClampInterval(GoodReviewInterval(IntervalOf(state), EaseOf(state))))
    ensures rating == "easy" ==>
              && r.value.status == "review"
              && r.value.easeFactor == FloorEase(EaseOf(state) + EasyBonus)
              && (IsLearning(StatusOf(state)) ==> r.value.interval == 4)
              && (!IsLearning(StatusOf(state)) ==>
                    r.value.interval == ClampInterval(EasyReviewInterval(IntervalOf(state), EaseOf(state))))
  {
    var interval, ease, status := IntervalOf(state), EaseOf(state), StatusOf(state);
    if rating == "again" then
      Success(Finish(1, if MinEase > ease - AgainPenalty then MinEase else ease - AgainPenalty, "learning", today))
    else if rating == "good" then
      Success(Finish(if IsLearning(status) then 1 else GoodReviewInterval(interval, ease), ease, "review", today))
    else if rating == "easy" then
      Success(Finish(if IsLearning(status) then 4 else EasyReviewInterval(interval, ease), ease + EasyBonus, "review", today))
    else
      Failure(InvalidRating(rating))
  }

  /** Missing keys behave exactly like interval 0, ease 2.5 and status `new`. */
  lemma MissingKeysDefault(rating: string, today: int)
    ensures NextReview(SrsState(None, None, None), rating, today)
         == NextReview(SrsState(Some(0), Some(DefaultEase), Some("new")), rating, today)
  {
  }

  /** There is only one integer nearest to `n / d` with ties to even: any `r`
      with the properties `RoundHalfEven` promises is its result. */
  lemma RoundHalfEvenUnique(n: int, d: int, r: int)
    requires d > 0
    requires -d <= 2 * (n - r * d) <= d
    requires 2 * (n - r * d) == d ==> r % 2 == 0
    requires 2 * (n - r * d) == -d ==> r % 2 == 0
    ensures r == RoundHalfEven(n, d)
  {
    // `r` is within half a step of `n / d`, so it is `n / d` or the integer after it.
    var q, rem := n / d, n % d;
    DivMod(n, d);
    Distribute(q, r, d);
    NearQuotient(q - r, d, rem);
  }

  /** A multiple `k * d` within half a step of `-rem` is `0` or `-d`. */
  lemma NearQuotient(k: int, d: int, rem: int)
    requires d > 0 && 0 <= rem < d
    requires -d <= 2 * (k * d + rem) <= d
    ensures (k == 0 && k * d == 0) || (k == -1 && k * d == -d)
  {
    MulBounds(k, d);
  }

  lemma DivMod(n: int, d: int)
    requires d > 0
    ensures n == (n / d) * d + n % d && 0 <= n % d < d
  {
  }

  lemma Distribute(q: int, r: int, d: int)
    ensures (q - r) * d == q * d - r * d
  {
  }

  /** A multiple of `d` by a non-zero integer is at least `d` away from zero. */
  lemma MulBounds(k: int, d: int)
    requires d > 0
    ensures k >= 1 ==> k * d >= d
    ensures k <= -2 ==> k * d <= -2 * d
  {
    if k >= 1 {
      assert (k - 1) * d >= 0;
    } else if k <= -2 {
      assert (-2 - k) * d >= 0;
    }
  }

  /** Rounding to the nearest thousandth never goes down as the value goes up. */
  lemma RoundMonotone(n1: int, n2: int)
    requires n1 <= n2
    ensures RoundHalfEven(n1, 1000) <= RoundHalfEven(n2, 1000)
  {
  }

  /** `x / 100` and `10x / 1000` are the same number, so they round the same. */
  lemma RoundScaled(x: int)
    ensures RoundHalfEven(x, 100) == RoundHalfEven(10 * x, 1000)
  {
    RoundHalfEvenUnique(10 * x, 1000, RoundHalfEven(x, 100));
  }

  /** A negative value rounds to at most zero. */
  lemma RoundNegative(n: int)
    requires n < 0
    ensures RoundHalfEven(n, 1000) <= 0
  {
  }

  /** From any state, `easy` schedules the card no sooner than `good` does, and
      leaves it an ease no lower. */
  lemma EasyNotSoonerThanGood(state: SrsState, today: int)
    ensures var good, easy := NextReview(state, "good", today).value, NextReview(state, "easy", today).value;
            good.interval <= easy.interval && good.easeFactor <= easy.easeFactor
  {
    if !IsLearning(StatusOf(state)) {
      var x := IntervalOf(state) * EaseOf(state);
      RoundScaled(x);
      assert x * 13 == 13 * x;
      if x >= 0 {
        RoundMonotone(10 * x, 13 * x);
      } else {
        RoundNegative(10 * x);
        RoundNegative(13 * x);
      }
    }
  }
}
