/** The answer check `is_correct_answer` (train_engine/views.py): it
    dispatches on the task-type string and returns a verdict. */
module Grader {
  import opened Wrappers
  import opened Text
  import opened Normalize
  import opened Models

  const TellJpFromZh: string := "tell_jp_from_zh"
  const TellEnFromZh: string := "tell_en_from_zh"
  const ClozeJp: string := "cloze_jp"
  const ClozeEn: string := "cloze_en"
  const AskJpYesNo: string := "ask_jp_yesno"

  /** The five task types `is_correct_answer` recognises. */
  const KnownTaskTypes: set<string> := {TellJpFromZh, TellEnFromZh, ClozeJp, ClozeEn, AskJpYesNo}

  /** The slot answer of the Japanese cloze, and its kana spelling. */
  const ClozeJpKanji: string := "締め"
  const ClozeJpKana: string := "しめ"
  /** The keyword the English cloze looks for. */
  const ClozeEnKeyword: string := "fasten"
  /** The accepted replies to the yes/no question. */
  const YesNoReplies: seq<string> := ["はい", "いいえ", "はい締めました"]

  /** The exception `is_correct_answer` can raise: `"締め" in None`. */
  datatype GradeError = TypeError

  /** `is_correct_answer` as written. The answer is the JSON value the client
      sent, a string or `null`. The `cloze_jp` branch tests the raw answer,
      so a `null` answer makes it raise instead of returning a verdict. */
  function GradeAsWritten(taskType: string, answer: Option<string>, item: SentenceItem): (r: Result<bool, GradeError>)
    ensures r.Failure? <==> taskType == ClozeJp && answer == None
  {
    var ans := NormalizeText(answer);
    if taskType == TellJpFromZh then Success(ans == NormalizeText(Some(item.textJp)))
    else if taskType == TellEnFromZh then Success(ans == NormalizeText(Some(item.textEn)))
    else if taskType == ClozeJp then
      match answer
      case None => Failure(TypeError)
      case Some(raw) => Success(Contains(raw, ClozeJpKanji) || Contains(raw, ClozeJpKana))
    else if taskType == ClozeEn then Success(Contains(ans, ClozeEnKeyword))
    else if taskType == AskJpYesNo then Success(ans in YesNoReplies)
    else Success(false)
  }

  /** `is_correct_answer` with the `null` answer graded wrong for `cloze_jp`,
      as every other branch already does. Each task type has its own rule,
      and an unknown type fails closed. */
  function Grade(taskType: string, answer: Option<string>, item: SentenceItem): (ok: bool)
    ensures taskType == TellJpFromZh ==> (ok <==> NormalizeText(answer) == NormalizeText(Some(item.textJp)))
    ensures taskType == TellEnFromZh ==> (ok <==> NormalizeText(answer) == NormalizeText(Some(item.textEn)))
    ensures taskType == ClozeJp ==>
              (ok <==> answer.Some? && (exists i :: OccursAt(answer.value, ClozeJpKanji, i) || OccursAt(answer.value, ClozeJpKana, i)))
    ensures taskType == ClozeEn ==> (ok <==> exists i :: OccursAt(NormalizeText(answer), ClozeEnKeyword, i))
    ensures taskType == AskJpYesNo ==> (ok <==> NormalizeText(answer) in {"はい", "いいえ", "はい締めました"})
    ensures taskType !in KnownTaskTypes ==> !ok
  {
    var ans := NormalizeText(answer);
    if taskType == TellJpFromZh then ans == NormalizeText(Some(item.textJp))
    else if taskType == TellEnFromZh then ans == NormalizeText(Some(item.textEn))
    else if taskType == ClozeJp then
      match answer
      case None => false
      case Some(raw) =>
        ContainsIffOccurs(raw, ClozeJpKanji);
        ContainsIffOccurs(raw, ClozeJpKana);
        Contains(raw, ClozeJpKanji) || Contains(raw, ClozeJpKana)
    else if taskType == ClozeEn then
      ContainsIffOccurs(ans, ClozeEnKeyword);
      Contains(ans, ClozeEnKeyword)
    else if taskType == AskJpYesNo then ans in YesNoReplies
    else false
  }

  /** Apart from a `null` answer to `cloze_jp`, the code as written and the
      corrected `Grade` give the same verdict. */
  lemma GradeAgreesWithAsWritten(taskType: string, answer: Option<string>, item: SentenceItem)
    requires answer.Some? || taskType != ClozeJp
    ensures GradeAsWritten(taskType, answer, item) == Success(Grade(taskType, answer, item))
  {
  }

  /** The input that shows the discrepancy: a `null` answer to a `cloze_jp`
      task raises in the code as written, and is graded wrong by `Grade`. */
  lemma NullClozeJpAnswerRaises(item: SentenceItem)
    ensures GradeAsWritten(ClozeJp, None, item) == Failure(TypeError)
    ensures !Grade(ClozeJp, None, item)
  {
  }

  /** Every type except `cloze_jp` grades the normalised answer: normalising
      the answer first never changes the verdict. */
  lemma GradeSeesOnlyNormalForm(taskType: string, answer: Option<string>, item: SentenceItem)
    requires taskType != ClozeJp
    ensures Grade(taskType, Some(NormalizeText(answer)), item) == Grade(taskType, answer, item)
  {
    NormalizeIdempotent(answer);
  }

  /** A translation answer with a space between two words is accepted when
      the expected text is those words run together, as Japanese is written. */
  lemma TellJpIgnoresInnerSpace(left: string, right: string, item: SentenceItem)
    requires IsNormal(left) && IsNormal(right) && left != [] && right != []
    requires item.textJp == left + right
    ensures Grade(TellJpFromZh, Some(left + " " + right), item)
  {
    InnerSpaceIgnored(left, right);
    var joined := left + right;
    assert IsNormal(joined) by {
      assert forall i :: 0 <= i < |joined| ==> joined[i] == if i < |left| then left[i] else right[i - |left|];
    }
    NormalIsFixed(joined);
  }

  /** A translation answer is accepted whatever its letter case and however
      much whitespace surrounds it: "  Fasten It " is right for "fasten it". */
  lemma TellEnIgnoresCaseAndPadding(w: string, answer: string, w': string, item: SentenceItem)
    requires forall k :: 0 <= k < |w| ==> IsSpace(w[k])
    requires forall k :: 0 <= k < |w'| ==> IsSpace(w'[k])
    requires SameUpToCase(answer, item.textEn)
    ensures Grade(TellEnFromZh, Some(w + answer + w'), item)
  {
    SurroundingSpaceIgnored(w, answer, w');
    CaseIgnored(answer, item.textEn);
  }

  /** Every type except `cloze_jp` ignores the ASCII spaces of an answer:
      "fasten your seat belt" grades as "fastenyourseatbelt". */
  lemma SpacesInAnswerIgnored(taskType: string, a: string, b: string, item: SentenceItem)
    requires taskType != ClozeJp
    ensures Grade(taskType, Some(a + " " + b), item) == Grade(taskType, Some(a + b), item)
  {
    SpaceIgnored(a, b);
  }
}
