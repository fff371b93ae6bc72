/** The spaced-repetition step of `update_memory` (train_engine/views.py): a
    level counter clamped to 1..7, an error counter, and a next-review time
    read from a fixed table of minutes. The database row becomes a value:
    the step takes the stored state (or none) and returns the state to store. */
module Srs {
  import opened Wrappers
  import opened Models

  const MinLevel: int := 1
  const MaxLevel: int := 7
  /** Minutes used for a level the table does not list. */
  const FallbackMinutes: int := 60

  /** Minutes until the next review, by memory level. */
  const Intervals: map<int, int> :=
    map[1 := 10, 2 := 60, 3 := 1440, 4 := 4320, 5 := 10080, 6 := 20160, 7 := 43200]

  /** `intervals.get(level, 60)`. The fallback is only ever taken for a level
      outside 1..7. */
  function IntervalMinutes(level: int): (m: int)
    ensures m > 0
    ensures MinLevel <= level <= MaxLevel ==> level in Intervals && m == Intervals[level]
    ensures !(MinLevel <= level <= MaxLevel) ==> m == FallbackMinutes
  {
    if level in Intervals then Intervals[level] else FallbackMinutes
  }

  /** The table covers exactly the levels 1..7, and a higher level always
      waits strictly longer. */
  lemma IntervalTableShape()
    ensures forall l :: l in Intervals <==> MinLevel <= l <= MaxLevel
    ensures forall a, b :: MinLevel <= a < b <= MaxLevel ==> IntervalMinutes(a) < IntervalMinutes(b)
  {
  }

  /** The row `get_or_create` makes on a first answer: level 1, no errors,
      no review scheduled yet. */
  function DefaultState(now: int): MemoryState {
    MemoryState(MinLevel, 0, None, now)
  }

  /** The invariant a stored state keeps: level within 1..7, errors not negative. */
  predicate ValidState(s: MemoryState) {
    MinLevel <= s.level <= MaxLevel && s.errorCount >= 0
  }

  /** One graded answer at time `now` (minutes). A correct answer raises the
      level by one up to 7 and keeps the errors; a wrong one lowers the level
      by one down to 1 and counts one more error. The next review is `now`
      plus the new level's interval, and the row is marked updated at `now`. */
  function Transition(prior: Option<MemoryState>, correct: bool, now: int): (r: MemoryState)
    ensures var s := prior.GetOr(DefaultState(now));
      && (correct ==> r.level == (if s.level + 1 < MaxLevel then s.level + 1 else MaxLevel))
      && (correct ==> r.errorCount == s.errorCount)
      && (!correct ==> r.level == (if s.level - 1 > MinLevel then s.level - 1 else MinLevel))
      && (!correct ==> r.errorCount == s.errorCount + 1)
      && r.nextReview == Some(now + IntervalMinutes(r.level))
      && r.updatedAt == now
      && (ValidState(s) ==> ValidState(r))
  {
    var s := prior.GetOr(DefaultState(now));
    var level := if correct then Min(s.level + 1, MaxLevel) else Max(s.level - 1, MinLevel);
    var errors := if correct then s.errorCount else s.errorCount + 1;
    MemoryState(level, errors, Some(now + IntervalMinutes(level)), now)
  }

  function Min(a: int, b: int): int {
    if a < b then a else b
  }

  function Max(a: int, b: int): int {
    if a > b then a else b
  }

  /** First correct answer: level 2, no errors, review in an hour. */
  lemma FirstCorrectAnswer(now: int)
    ensures Transition(None, true, now) == MemoryState(2, 0, Some(now + 60), now)
  {
  }

  /** First wrong answer: level stays 1, one error, review in ten minutes. */
  lemma FirstWrongAnswer(now: int)
    ensures Transition(None, false, now) == MemoryState(1, 1, Some(now + 10), now)
  {
  }

  /** From the same state, a correct answer never schedules the next review
      earlier than a wrong one would. */
  lemma CorrectWaitsAtLeastAsLong(prior: Option<MemoryState>, now: int)
    requires prior == None || ValidState(prior.value)
    ensures Transition(prior, true, now).nextReview.value >= Transition(prior, false, now).nextReview.value
  {
  }

  /** A graded answer with the minute it was submitted. */
  datatype Answer = Answer(correct: bool, at: int)

  /** The state after grading `answers` in order, starting from `prior`. */
  function Replay(prior: Option<MemoryState>, answers: seq<Answer>): (r: Option<MemoryState>)
    ensures r.Some? <==> prior.Some? || |answers| > 0
    decreases |answers|
  {
    if |answers| == 0 then prior
    else Replay(Some(Transition(prior, answers[0].correct, answers[0].at)), answers[1..])
  }

  /** How many of `answers` were wrong. */
  function Wrongs(answers: seq<Answer>): nat
    decreases |answers|
  {
    if |answers| == 0 then 0
    else (if answers[0].correct then 0 else 1) + Wrongs(answers[1..])
  }

  /** Replaying any answers from a valid or absent state keeps the state valid,
      and the error count grows by exactly the number of wrong answers. */
  lemma {:induction false} ReplayKeepsValid(prior: Option<MemoryState>, answers: seq<Answer>)
    requires prior == None || ValidState(prior.value)
    ensures Replay(prior, answers).Some? ==>
              && ValidState(Replay(prior, answers).value)
              && Replay(prior, answers).value.errorCount
                 == (if prior.Some? then prior.value.errorCount else 0) + Wrongs(answers)
    decreases |answers|
  {
    if |answers| > 0 {
      ReplayKeepsValid(Some(Transition(prior, answers[0].correct, answers[0].at)), answers[1..]);
    }
  }

  lemma {:induction false} WrongsOfPrefix(answers: seq<Answer>, k: nat)
    requires k <= |answers|
    ensures Wrongs(answers[..k]) <= Wrongs(answers)
    decreases |answers|
  {
    if k > 0 {
      WrongsOfPrefix(answers[1..], k - 1);
      assert answers[..k][1..] == answers[1..][..k - 1];
    }
  }

  /** Starting from no state, the error count never goes down as answers
      accumulate: after any prefix it is at most what it is after all of them. */
  lemma ErrorCountNeverDecreases(answers: seq<Answer>, k: nat)
    requires 0 < k <= |answers|
    ensures Replay(None, answers[..k]).value.errorCount <= Replay(None, answers).value.errorCount
  {
    ReplayKeepsValid(None, answers[..k]);
    ReplayKeepsValid(None, answers);
    WrongsOfPrefix(answers, k);
  }

  /** `answers` are all correct. */
  predicate AllCorrect(answers: seq<Answer>) {
    forall i :: 0 <= i < |answers| ==> answers[i].correct
  }

  /** A run of `n` correct answers from a valid state raises the level by `n`,
      up to 7, and adds no error. */
  lemma {:induction false} CorrectStreak(s: MemoryState, answers: seq<Answer>)
    requires ValidState(s)
    requires AllCorrect(answers)
    ensures Replay(Some(s), answers).value.level == Min(s.level + |answers|, MaxLevel)
    ensures Replay(Some(s), answers).value.errorCount == s.errorCount
    decreases |answers|
  {
    if |answers| > 0 {
      CorrectStreak(Transition(Some(s), true, answers[0].at), answers[1..]);
    }
  }
}
