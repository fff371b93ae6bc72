# Drill engine of lang-engine, modelled in Dafny

lang-engine is a Django application for sentence drills. It serves exercises
built from a sentence's Chinese, Japanese and English texts. It grades the
user's answer and moves a per-user, per-sentence memory level through a
fixed spaced-repetition table. This project models the pure part of that
engine in `train_engine/views.py`. The Django and database wrappers are left
out.

The model has these parts:

- `normalize_text` (module `Normalize`): strip whitespace, lowercase,
  delete ASCII spaces.
- `is_correct_answer` (module `Grader`): a verdict per task-type string.
  `tell_*` types compare normalised text for equality. `cloze_jp` checks the
  raw answer for a substring. `cloze_en` checks the normalised answer for a
  substring. `ask_jp_yesno` checks membership in a fixed list. Any other type
  fails closed.
- The level, error and interval logic of `update_memory` (module `Srs`).
  It is a pure step `Transition(prior, correct, now)`. A missing row stands
  for the default row (level 1, no errors). Times are whole minutes, and
  `now` is an argument.
- `generate_tasks` (module `Tasks`): up to five candidate tasks, then a
  shuffle, then the first three. The shuffle's outcome is an argument
  `order`, which must be a permutation of the candidate positions.
- The Python string operations these rely on (module `Text`): `sub in s`,
  `s.replace(a, b)`, `s.split(sep)` and `sep.join(pieces)`.
- The records `SentenceItem` and `UserSentenceState` (module `Models`),
  reduced to the fields the engine reads or writes.
- Worked examples on one sentence, "締めてください" with a Chinese prompt and
  no English (module `Scenarios`).

Two details of `views.py` shape the model:

- Normalisation deletes only the ASCII space `" "` from inside the answer
  (`replace(" ", "")`), not all whitespace. A tab or an ideographic space
  inside an answer is kept. At the two ends it is stripped.
- Stored levels and error counts are plain integers with no range check in
  the code. `Transition` therefore accepts any stored level. It proves that
  the range 1..7 is kept once a state is in it, and that the 60-minute
  fallback only applies to a level outside 1..7.

## Model

| member | source | states |
|---|---|---|
| Text.ContainsIffOccurs | train_engine/views.py:37-40 | Python's `sub in s`, computed by scanning, holds exactly when `sub` occurs at some index of `s` |
| Text.ReplaceAll | train_engine/views.py:97 | `str.replace` leaves a string without the pattern unchanged |
| Text.ReplaceIsJoinOfSplit | train_engine/views.py:107 | the scanning `str.replace` equals `rep.join(s.split(pat))`, Python's own identity |
| Text.ReplaceRemovesPattern | train_engine/views.py:107 | after replacement by a non-empty text sharing no character with the pattern, the pattern occurs nowhere: no occurrence is missed and none is formed at a seam |
| Text.Split | train_engine/views.py:119 | `s.split(sep)` always returns at least one piece, so piece 0 exists for every English text |
| Text.SplitThenJoin | train_engine/views.py:119-124 | `sep.join(s.split(sep)) == s` for every string, where `Text.Join` is `sep.join` |
| Text.JoinThenSplit | train_engine/views.py:119-124 | for a one-character separator no piece contains, `split` after `join` gives the pieces back |
| Text.SplitPiecesAvoidSep | train_engine/views.py:119 | no piece of `s.split(" ")` contains a space |
| Normalize.Strip | train_engine/views.py:24 | `strip()` returns a slice of the input whose cut-off ends are all whitespace, and the slice neither starts nor ends with whitespace |
| Normalize.StripUnique | train_engine/views.py:24 | any slice of the input with whitespace-only cut-off ends and no whitespace at its own ends is exactly the result of `strip()` |
| Normalize.LowerChar | train_engine/views.py:24 | `lower()` on one character: a capital A..Z becomes the letter 32 code points later (a..z), every other character is kept, and whitespace stays whitespace |
| Normalize.Lower | train_engine/views.py:24 | `lower()` on a string keeps its length and lowercases each position on its own |
| Normalize.NormalizeText | train_engine/views.py:21-24 | a missing or empty text gives `""`; every result has no ASCII space, no ASCII capital, and no whitespace at either end (how the result follows the input: `StripUnique`, `LowerChar`, `CaseIgnored`, `SurroundingSpaceIgnored`, `SpaceIgnored`, `NormalizeDeletesSpacesFirst`) |
| Normalize.FixedIffNormal | train_engine/views.py:21-24 | a string is left unchanged by the normaliser if and only if it has no space, no capital and no whitespace at its ends |
| Normalize.NormalizeIdempotent | train_engine/views.py:21-24 | normalising twice equals normalising once |
| Normalize.SurroundingSpaceIgnored | train_engine/views.py:24 | whitespace padding on either side of a text never changes its normal form |
| Normalize.CaseIgnored | train_engine/views.py:24 | two texts that agree position by position once lowercased have the same normal form |
| Normalize.InnerSpaceIgnored | train_engine/views.py:24 | an ASCII space between two normal, non-empty words is deleted: the answer normalises to the words run together |
| Normalize.NormalizeDeletesSpacesFirst | train_engine/views.py:24 | the normal form equals lowercasing the strip of the text after every ASCII space has been deleted, so the three steps may be reordered |
| Normalize.SpaceIgnored | train_engine/views.py:24 | every ASCII space anywhere in a text is ignored: `a + " " + b` and `a + b` have the same normal form for all `a`, `b` |
| Grader.GradeAsWritten | train_engine/views.py:27-45 | `is_correct_answer` as written raises exactly when a `cloze_jp` answer is `null` |
| Grader.Grade | train_engine/views.py:27-45 | per type: `tell_*` is normalised equality with the Japanese or English text; `cloze_jp` is "締め" or "しめ" occurring in the raw answer; `cloze_en` is "fasten" occurring in the normalised answer; `ask_jp_yesno` is membership of the normalised answer in the three replies; any other type is false |
| Grader.GradeAgreesWithAsWritten | train_engine/views.py:27-45 | except for a `null` answer to `cloze_jp`, the corrected `Grade` and the code as written give the same verdict |
| Grader.NullClozeJpAnswerRaises | train_engine/views.py:36-37 | a `null` answer to `cloze_jp` raises in the code as written and is graded wrong by the corrected `Grade` |
| Grader.GradeSeesOnlyNormalForm | train_engine/views.py:28-43 | for every type except `cloze_jp`, normalising the answer first never changes the verdict |
| Grader.TellJpIgnoresInnerSpace | train_engine/views.py:28-31 | a `tell_jp_from_zh` answer with a space between two words is accepted when the Japanese text is the words run together |
| Grader.SpacesInAnswerIgnored | train_engine/views.py:27-43 | for every type except `cloze_jp`, deleting an ASCII space anywhere in the answer never changes the verdict: "fasten your seat belt" grades as "fastenyourseatbelt" |
| Grader.TellEnIgnoresCaseAndPadding | train_engine/views.py:27-34 | a `tell_en_from_zh` answer equal to the English text up to letter case, with any whitespace around it, is graded correct |
| Srs.IntervalMinutes | train_engine/views.py:65-75 | levels 1..7 read the table; only a level outside 1..7 takes the 60-minute fallback; every interval is positive |
| Srs.IntervalTableShape | train_engine/views.py:65-73 | the table's keys are exactly 1..7, and the intervals strictly increase with the level |
| Srs.Transition | train_engine/views.py:52-79 | a missing row counts as `Srs.DefaultState`, level 1 with no errors (the `get_or_create` defaults); correct gives `min(L+1, 7)` with errors kept; wrong gives `max(L-1, 1)` with one more error; next review is `now` plus the new level's interval; updated at `now`; a valid state stays valid |
| Srs.FirstCorrectAnswer | train_engine/views.py:53-76 | a first correct answer gives level 2, no errors, review 60 minutes later |
| Srs.FirstWrongAnswer | train_engine/views.py:53-76 | a first wrong answer gives level 1, one error, review 10 minutes later |
| Srs.CorrectWaitsAtLeastAsLong | train_engine/views.py:59-76 | from the same valid or missing state, a correct answer never schedules the review earlier than a wrong one |
| Srs.Replay | train_engine/views.py:52-79 | grading a sequence of answers yields a state exactly when a state existed or some answer was graded |
| Srs.ReplayKeepsValid | train_engine/views.py:52-79 | any sequence of answers from a valid or missing state keeps the level in 1..7, and the error count grows by exactly the number of wrong answers |
| Srs.ErrorCountNeverDecreases | train_engine/views.py:59-63 | starting with no state, the error count after a prefix of the answers is at most the count after all of them |
| Srs.CorrectStreak | train_engine/views.py:59-60 | `n` correct answers in a row from a valid state raise the level to `min(L+n, 7)` and add no error |
| Tasks.YesNoQuestion | train_engine/views.py:97 | no "ください" is left in the question, and a text without it is asked unchanged |
| Tasks.ClozeJpText | train_engine/views.py:107 | no "締め" is left in the cloze text, and a text without it is shown unchanged |
| Tasks.ClozeJpBlanksLeadingSlot | train_engine/views.py:107 | a text made of "締め" followed by a rest with no "締" becomes the blank followed by that rest, so "締めてください" becomes "_____てください" |
| Tasks.ClozeEnText | train_engine/views.py:119-124 | with at most two space-separated pieces the text is unchanged; otherwise the result splits into the original pieces with only piece 1 replaced by the blank |
| Tasks.Candidates | train_engine/views.py:86-126 | each of the five tasks, with exactly its fields, is a candidate if and only if its source texts are non-empty; no other task is; candidates keep the fixed order, so none repeats |
| Tasks.IdentityIsPermutation | train_engine/views.py:128 | a permutation of the candidate positions always exists, so every sentence can be served |
| Tasks.PermuteKeepsMultiset | train_engine/views.py:128 | reordering any list by a permutation keeps every element exactly as often as before |
| Tasks.Shuffle | train_engine/views.py:128 | the shuffled list is a permutation of the candidates: the same multiset of tasks, hence the same length and members, and free of repeats when the input is |
| Tasks.Truncate | train_engine/views.py:129 | `tasks[:3]` is the prefix of the input of length `min(3, n)`, the input itself when it is short enough |
| Tasks.GenerateTasks | train_engine/views.py:86-129 | the result has `min(3, #candidates)` tasks, all candidates, none repeated; with at most three candidates every one is served |
| Tasks.GeneratedTasksNeedTheirTexts | train_engine/views.py:89-118 | a served task's source texts are non-empty: `tell_jp_from_zh` needs Chinese and Japanese, `ask_jp_yesno` and `cloze_jp` need Japanese, `tell_en_from_zh` needs Chinese and English, `cloze_en` needs English |
| Tasks.CandidateAnswersAreAccepted | train_engine/views.py:90-126 | the stored answer of every candidate is graded correct for the candidate's type |
| Tasks.GeneratedAnswersAreAccepted | train_engine/views.py:86-129 | the stored answer of every served task is graded correct for its type |
| Scenarios.YesNoQuestionOfRequest | train_engine/views.py:97 | "締めてください" becomes the question "締めてましたか？" |
| Scenarios.ClozeJpAcceptsKana | train_engine/views.py:36-37 | the kana answer "しめ" is accepted for `cloze_jp`, and "open" is rejected |
| Tasks.JapaneseOnlySentence | train_engine/views.py:86-129 | a sentence with Chinese and Japanese but no English has exactly three candidates, and every shuffle serves all three Japanese-based tasks and no English task |

## Left out

- Request handling in `get_next_training` and `submit_answer`
  (train_engine/views.py:136-193) is left out. This covers JSON parsing, the
  login and CSRF decorators, random row selection with `order_by("?")`, and
  the `StudyLog` and `DailyCheckin` writes. These are database and HTTP I/O.
  The race between concurrent `get_or_create` calls belongs to the database.
- `wrong_book`, `dashboard_view`, `train_page` and `home_page`
  (train_engine/views.py:200-274) are left out. They are queries and
  template rendering; the accuracy figure uses floating point.
- `train_engine/models.py` appears only as the shape of `SentenceItem` and
  `MemoryState`. The Korean text, the pattern link, the audio files, `Course`, `Lesson` and
  `UserPlan` are not read by the engine.
- `train_engine/admin.py`, the CSV import command and `lang_engine/urls.py`
  are not part of this model. They are admin display, file I/O and routing.
- Normalize.Lower, Normalize.LowerChar: Python's `str.lower()` is modelled for ASCII only.
  A..Z become a..z and every other character is kept. The Unicode case
  table, and mappings that change a string's length, are not encoded.
- `random.shuffle` is not modelled. Its outcome is the `order` argument,
  and the model proves properties for every permutation.
- `timezone.now()` is the argument `now`, in whole minutes. Seconds and time
  zones are not modelled. The two clock reads of one update (the
  `next_review` computation and the `auto_now` save) are taken as the same
  minute.
- Stored integers are unbounded. The 32-bit database column limit on
  `memory_level` and `error_count` is not modelled.
- An answer is a JSON string or `null`. Other JSON values are not modelled.
  A non-empty one, such as the number `3`, raises at `text.strip()`
  (train_engine/views.py:24). A falsy one (`0`, `false`, `[]`, `{}`) takes
  `if not text: return ""` (train_engine/views.py:22-23), so it acts as a
  missing answer in every normalising branch. The `cloze_jp` branch then
  differs per value: `[]` and `{}` are graded wrong, and `0` and `false` raise
  at train_engine/views.py:37.
- Text.ReplaceAll, Text.Split: an empty pattern or separator is excluded by
  `requires`. The source only uses fixed non-empty literals.
- A missing JSON key or an unknown `item_id` raises in `submit_answer`.
  That belongs to the request layer above.

## Findings

| source | as written | input that shows it | evidently intended | confidence | as-written member | corrected member |
|---|---|---|---|---|---|---|
| train_engine/views.py:37 | the `cloze_jp` branch tests `"締め" in user_answer` on the raw answer | task type `cloze_jp` with answer `null`: `"締め" in None` raises `TypeError` | a missing answer is graded wrong, as in every other branch, because `normalize_text` already maps a missing answer to `""` | medium; not executed | Grader.GradeAsWritten, Grader.NullClozeJpAnswerRaises | Grader.Grade, Grader.GradeAgreesWithAsWritten |
