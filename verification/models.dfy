/** The two records the drill engine reads and writes (train_engine/models.py),
    reduced to the fields the engine uses. */
module Models {
  import opened Wrappers

  /** A shared sentence with its parallel translations (`SentenceItem`).
      Every text field is a blank-able text column, so it is a string that may
      be empty but is never missing. */
  datatype SentenceItem = SentenceItem(
    textZh: string,
    textEn: string,
    textJp: string)

  /** One user's memory of one sentence (`UserSentenceState`). Times are
      whole minutes; `nextReview` is empty until the first graded answer. */
  datatype MemoryState = MemoryState(
    level: int,
    errorCount: int,
    nextReview: Option<int>,
    updatedAt: int)
}
