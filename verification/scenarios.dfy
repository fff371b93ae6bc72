/** Worked examples of the drill engine on one concrete sentence. */
module Scenarios {
  import opened Wrappers
  import opened Text
  import opened Models
  import Grader
  import Tasks

  /** "Please fasten it": Chinese prompt and Japanese text, no English. */
  const Fasten: SentenceItem := SentenceItem("请系好", "", "締めてください")

  /** The yes/no question turns the request into a past-tense question. */
  lemma YesNoQuestionOfRequest()
    ensures Tasks.YesNoQuestion(Fasten.textJp) == "締めてましたか？"
  {
    var front := "締めて";
    assert Fasten.textJp == front + Tasks.RequestEnding;
    ReplaceSkipsFront(front, Tasks.RequestEnding, Tasks.RequestEnding, Tasks.QuestionEnding);
    ReplaceAtFront(Tasks.RequestEnding, [], Tasks.QuestionEnding);
    assert Tasks.RequestEnding + [] == Tasks.RequestEnding;
  }

  /** The kana spelling is accepted for the cloze, an unrelated word is not. */
  lemma ClozeJpAcceptsKana()
    ensures Grader.Grade(Grader.ClozeJp, Some("しめ"), Fasten)
    ensures !Grader.Grade(Grader.ClozeJp, Some("open"), Fasten)
  {
    assert IsPrefix(Grader.ClozeJpKana, "しめ");
    AbsentFirstChar("open", Grader.ClozeJpKanji);
    AbsentFirstChar("open", Grader.ClozeJpKana);
  }
}
