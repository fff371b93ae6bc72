/** The task generator `generate_tasks` (train_engine/views.py): up to five
    candidate exercises built from a sentence's non-empty translations, put in
    a random order and cut to three. The random order is an argument: a
    permutation of the candidate positions chosen by the caller. */
module Tasks {
  import opened Wrappers
  import opened Text
  import opened Normalize
  import opened Models
  import Grader

  /** The blank marker that replaces a hidden word. */
  const Blank: string := "_____"
  /** The polite request ending the yes/no question rewrites, and its past-tense question form. */
  const RequestEnding: string := "ください"
  const QuestionEnding: string := "ましたか？"
  /** The stored answer of the yes/no question. */
  const Yes: string := "はい"
  /** The separator the English cloze splits on. */
  const Space: string := " "

  /** One generated exercise; the Python dictionary's `type` key is the
      constructor, the other keys are its fields. */
  datatype Task =
    | TellJpFromZh(prompt: string, answer: string)
    | AskJpYesNo(question: string, answer: string)
    | ClozeJp(text: string, answer: string)
    | TellEnFromZh(prompt: string, answer: string)
    | ClozeEn(text: string, answer: string)
  {
    /** The `type` string the client sends back with its answer. */
    function TypeName(): (name: string)
      ensures name in Grader.KnownTaskTypes
    {
      match this
      case TellJpFromZh(_, _) => Grader.TellJpFromZh
      case AskJpYesNo(_, _) => Grader.AskJpYesNo
      case ClozeJp(_, _) => Grader.ClozeJp
      case TellEnFromZh(_, _) => Grader.TellEnFromZh
      case ClozeEn(_, _) => Grader.ClozeEn
    }

    /** Position of this kind in the fixed candidate order. */
    function Rank(): nat {
      match this
      case TellJpFromZh(_, _) => 0
      case AskJpYesNo(_, _) => 1
      case ClozeJp(_, _) => 2
      case TellEnFromZh(_, _) => 3
      case ClozeEn(_, _) => 4
    }
  }

  /** The yes/no question: every "ください" becomes "ましたか？". None is left
      behind, and a sentence without the ending is asked as it is. */
  function YesNoQuestion(jp: string): (q: string)
    ensures !Contains(q, RequestEnding)
    ensures !Contains(jp, RequestEnding) ==> q == jp
  {
    ReplaceRemovesPattern(jp, RequestEnding, QuestionEnding);
    ReplaceAll(jp, RequestEnding, QuestionEnding)
  }

  /** The Japanese cloze text: every "締め" becomes the blank. None is left
      behind, and a sentence without the slot word is shown unchanged. */
  function ClozeJpText(jp: string): (t: string)
    ensures !Contains(t, Grader.ClozeJpKanji)
    ensures !Contains(jp, Grader.ClozeJpKanji) ==> t == jp
  {
    ReplaceRemovesPattern(jp, Grader.ClozeJpKanji, Blank);
    ReplaceAll(jp, Grader.ClozeJpKanji, Blank)
  }

  /** A text that opens with the slot word and has no other "締" is shown
      as the blank followed by the rest: "締めてください" becomes "_____てください". */
  lemma ClozeJpBlanksLeadingSlot(rest: string)
    requires Grader.ClozeJpKanji[0] !in rest
    ensures ClozeJpText(Grader.ClozeJpKanji + rest) == Blank + rest
  {
    ReplaceAtFront(Grader.ClozeJpKanji, rest, Blank);
    AbsentFirstChar(rest, Grader.ClozeJpKanji);
  }

  /** The English cloze text: split on single spaces; with more than two
      pieces, piece 1 becomes the blank; join again with single spaces. With
      two pieces or fewer the text comes back unchanged, and otherwise the
      result splits into exactly the original pieces with piece 1 blanked. */
  function ClozeEnText(en: string): (t: string)
    ensures |Split(en, Space)| <= 2 ==> t == en
    ensures |Split(en, Space)| > 2 ==> Split(t, Space) == Split(en, Space)[1 := Blank]
  {
    var words := Split(en, Space);
    if |words| > 2 then
      var blanked := words[1 := Blank];
      SplitPiecesAvoidSep(en, Space);
      assert forall i :: 0 <= i < |blanked| ==> ' ' !in blanked[i];
      JoinThenSplit(blanked, Space);
      Join(blanked, Space)
    else
      SplitThenJoin(en, Space);
      Join(words, Space)
  }

  /** Tasks listed in strictly increasing rank, hence all distinct. */
  predicate Ranked(c: seq<Task>) {
    forall i, j :: 0 <= i < j < |c| ==> c[i].Rank() < c[j].Rank()
  }

  /** Append `t` when `keep` holds (one `if ...: tasks.append(...)`). */
  function AppendIf(c: seq<Task>, keep: bool, t: Task): (r: seq<Task>)
    requires Ranked(c)
    requires forall x :: x in c ==> x.Rank() < t.Rank()
    ensures Ranked(r)
    ensures forall x :: x in r <==> x in c || (keep && x == t)
    ensures forall x :: x in r ==> x.Rank() <= t.Rank()
  {
    if keep then c + [t] else c
  }

  /** The candidate tasks of a sentence, before shuffling. Each kind appears,
      with exactly these fields, precisely when its source texts are non-empty;
      nothing else appears; and the kinds keep their fixed order. */
  function Candidates(item: SentenceItem): (c: seq<Task>)
    ensures TellJpFromZh(item.textZh, item.textJp) in c <==> item.textZh != [] && item.textJp != []
    ensures AskJpYesNo(YesNoQuestion(item.textJp), Yes) in c <==> item.textJp != []
    ensures ClozeJp(ClozeJpText(item.textJp), Grader.ClozeJpKanji) in c <==> item.textJp != []
    ensures TellEnFromZh(item.textZh, item.textEn) in c <==> item.textZh != [] && item.textEn != []
    ensures ClozeEn(ClozeEnText(item.textEn), Grader.ClozeEnKeyword) in c <==> item.textEn != []
    ensures forall t :: t in c ==>
              || t == TellJpFromZh(item.textZh, item.textJp)
              || t == AskJpYesNo(YesNoQuestion(item.textJp), Yes)
              || t == ClozeJp(ClozeJpText(item.textJp), Grader.ClozeJpKanji)
              || t == TellEnFromZh(item.textZh, item.textEn)
              || t == ClozeEn(ClozeEnText(item.textEn), Grader.ClozeEnKeyword)
    ensures Ranked(c)
  {
    var zh, jp, en := item.textZh, item.textJp, item.textEn;
    var c1 := AppendIf([], zh != [] && jp != [], TellJpFromZh(zh, jp));
    var c2 := AppendIf(c1, jp != [], AskJpYesNo(YesNoQuestion(jp), Yes));
    var c3 := AppendIf(c2, jp != [], ClozeJp(ClozeJpText(jp), Grader.ClozeJpKanji));
    var c4 := AppendIf(c3, zh != [] && en != [], TellEnFromZh(zh, en));
    AppendIf(c4, en != [], ClozeEn(ClozeEnText(en), Grader.ClozeEnKeyword))
  }

  /** At most this many tasks are served per sentence. */
  const MaxTasks: nat := 3

  /** No task occurs twice. */
  predicate Distinct(c: seq<Task>) {
    forall i, j :: 0 <= i < j < |c| ==> c[i] != c[j]
  }

  /** `order` lists every position 0..n-1 exactly once. */
  predicate IsPermutation(order: seq<nat>, n: nat) {
    && |order| == n
    && (forall i :: 0 <= i < n ==> order[i] < n)
    && (forall i, j :: 0 <= i < j < n ==> order[i] != order[j])
    && (forall k :: 0 <= k < n ==> k in order)
  }

  /** The identity order is a permutation, so every sentence can be served. */
  lemma IdentityIsPermutation(n: nat)
    ensures IsPermutation(seq(n, i => i), n)
  {
    var id := seq(n, i => i);
    forall k | 0 <= k < n
      ensures k in id
    {
      assert id[k] == k;
    }
  }

  /** Position `i` of the result holds element `order[i]` of `c`. */
  function Permute<T>(c: seq<T>, order: seq<nat>): (r: seq<T>)
    requires IsPermutation(order, |c|)
    ensures |r| == |c|
    ensures forall i :: 0 <= i < |c| ==> r[i] == c[order[i]]
  {
    seq(|c|, i requires 0 <= i < |c| => c[order[i]])
  }

  /** Taking out the position that holds the largest index leaves a
      permutation of the smaller positions. */
  lemma DropLast(order: seq<nat>, n: nat, k: nat)
    requires IsPermutation(order, n)
    requires k < n && order[k] == n - 1
    ensures IsPermutation(order[..k] + order[k + 1..], n - 1)
  {
    var order' := order[..k] + order[k + 1..];
    assert forall i :: 0 <= i < n - 1 ==> order'[i] == if i < k then order[i] else order[i + 1];
    forall j | 0 <= j < n - 1
      ensures j in order'
    {
      assert j in order;
      var i :| 0 <= i < n && order[i] == j;
      if i < k { assert order'[i] == j; } else { assert order'[i - 1] == j; }
    }
  }

  /** Reordering `c` by `order` puts the last element at position `k` and
      the others in the order the shortened permutation gives them. */
  lemma PermuteLast<T>(c: seq<T>, order: seq<nat>, k: nat)
    requires |c| > 0 && IsPermutation(order, |c|)
    requires k < |c| && order[k] == |c| - 1
    requires IsPermutation(order[..k] + order[k + 1..], |c| - 1)
    ensures var a := Permute(c[..|c| - 1], order[..k] + order[k + 1..]);
      Permute(c, order) == a[..k] + [c[|c| - 1]] + a[k..]
  {
    var n := |c|;
    var order' := order[..k] + order[k + 1..];
    var a := Permute(c[..n - 1], order');
    var r := Permute(c, order);
    forall i | 0 <= i < n
      ensures r[i] == (a[..k] + [c[n - 1]] + a[k..])[i]
    {
      if i < k {
        assert order'[i] == order[i];
      } else if i > k {
        assert order'[i - 1] == order[i];
      }
    }
  }

  /** Reordering by a permutation keeps every element exactly as often as
      before. The proof takes out the position that picks the last element. */
  lemma {:induction false} PermuteKeepsMultiset<T>(c: seq<T>, order: seq<nat>)
    requires IsPermutation(order, |c|)
    ensures multiset(Permute(c, order)) == multiset(c)
  {
    var n := |c|;
    if n > 0 {
      var k := PositionOfLast(order, n);
      var order' := order[..k] + order[k + 1..];
      var init, x := c[..n - 1], c[n - 1];
      DropLast(order, n, k);
      PermuteKeepsMultiset(init, order');
      PermuteLast(c, order, k);
      var a := Permute(init, order');
      MultisetInsert(a, k, x);
      assert multiset(Permute(c, order)) == multiset(init) + multiset{x};
      assert c == init + [x];
    }
  }

  /** The position at which a permutation picks the largest index. */
  lemma PositionOfLast(order: seq<nat>, n: nat) returns (k: nat)
    requires n > 0 && IsPermutation(order, n)
    ensures k < n && order[k] == n - 1
  {
    assert n - 1 in order;
    k :| 0 <= k < n && order[k] == n - 1;
  }

  /** Inserting one element anywhere adds it once to the multiset. */
  lemma MultisetInsert<T>(a: seq<T>, k: nat, x: T)
    requires k <= |a|
    ensures multiset(a[..k] + [x] + a[k..]) == multiset(a) + multiset{x}
  {
    assert a == a[..k] + a[k..];
  }

  /** `random.shuffle`, with the random outcome given as `order`: position
      `i` of the result holds candidate `order[i]`. The result has the same
      tasks, each as often as before. */
  function Shuffle(c: seq<Task>, order: seq<nat>): (r: seq<Task>)
    requires IsPermutation(order, |c|)
    ensures |r| == |c|
    ensures multiset(r) == multiset(c)
    ensures forall t :: t in r <==> t in c
    ensures Distinct(c) ==> Distinct(r)
  {
    var r := Permute(c, order);
    PermuteKeepsMultiset(c, order);
    assert forall t :: t in r <==> t in c by {
      forall t
        ensures t in r <==> t in c
      {
        assert t in multiset(r) <==> t in multiset(c);
      }
    }
    r
  }

  /** `tasks[:limit]`: the first `limit` tasks, or all of them when there
      are fewer. */
  function Truncate(c: seq<Task>, limit: nat): (r: seq<Task>)
    ensures |r| == if |c| < limit then |c| else limit
    ensures forall t :: t in r ==> t in c
    ensures Distinct(c) ==> Distinct(r)
    ensures |c| <= limit ==> r == c
    ensures r == c[..|r|]
  {
    if |c| <= limit then c else c[..limit]
  }

  /** `generate_tasks`: shuffle the candidates by `order` and keep the first
      three. The result has three tasks, or all candidates when there are
      fewer; each is a candidate, none is repeated, and when no more than
      three qualify every one of them is served. */
  function GenerateTasks(item: SentenceItem, order: seq<nat>): (tasks: seq<Task>)
    requires IsPermutation(order, |Candidates(item)|)
    ensures |tasks| == if |Candidates(item)| < MaxTasks then |Candidates(item)| else MaxTasks
    ensures forall t :: t in tasks ==> t in Candidates(item)
    ensures Distinct(tasks)
    ensures |Candidates(item)| <= MaxTasks ==> forall t :: t in Candidates(item) ==> t in tasks
  {
    var c := Candidates(item);
    RankedIsDistinct(c);
    Truncate(Shuffle(c, order), MaxTasks)
  }

  lemma RankedIsDistinct(c: seq<Task>)
    requires Ranked(c)
    ensures Distinct(c)
  {
  }

  /** Every generated task needs its source texts: with a translation
      missing, the tasks built from it are never served, and a partially
      empty sentence simply yields fewer tasks. */
  lemma GeneratedTasksNeedTheirTexts(item: SentenceItem, order: seq<nat>)
    requires IsPermutation(order, |Candidates(item)|)
    ensures forall t :: t in GenerateTasks(item, order) ==>
              && (t.TellJpFromZh? ==> item.textZh != [] && item.textJp != [])
              && (t.AskJpYesNo? ==> item.textJp != [])
              && (t.ClozeJp? ==> item.textJp != [])
              && (t.TellEnFromZh? ==> item.textZh != [] && item.textEn != [])
              && (t.ClozeEn? ==> item.textEn != [])
  {
    var tasks := GenerateTasks(item, order);
    forall t | t in tasks
      ensures && (t.TellJpFromZh? ==> item.textZh != [] && item.textJp != [])
              && (t.AskJpYesNo? ==> item.textJp != [])
              && (t.ClozeJp? ==> item.textJp != [])
              && (t.TellEnFromZh? ==> item.textZh != [] && item.textEn != [])
              && (t.ClozeEn? ==> item.textEn != [])
    {
      CandidateNeedsItsTexts(item, t);
    }
  }

  /** A candidate's kind tells which texts of the sentence are non-empty. */
  lemma CandidateNeedsItsTexts(item: SentenceItem, t: Task)
    requires t in Candidates(item)
    ensures && (t.TellJpFromZh? ==> item.textZh != [] && item.textJp != [])
            && (t.AskJpYesNo? ==> item.textJp != [])
            && (t.ClozeJp? ==> item.textJp != [])
            && (t.TellEnFromZh? ==> item.textZh != [] && item.textEn != [])
            && (t.ClozeEn? ==> item.textEn != [])
  {
  }

  lemma YesIsAccepted(item: SentenceItem)
    ensures Grader.Grade(Grader.AskJpYesNo, Some(Yes), item)
  {
    assert IsNormal(Yes);
    NormalIsFixed(Yes);
  }

  lemma ClozeJpAnswerIsAccepted(item: SentenceItem)
    ensures Grader.Grade(Grader.ClozeJp, Some(Grader.ClozeJpKanji), item)
  {
    assert IsPrefix(Grader.ClozeJpKanji, Grader.ClozeJpKanji);
  }

  lemma ClozeEnAnswerIsAccepted(item: SentenceItem)
    ensures Grader.Grade(Grader.ClozeEn, Some(Grader.ClozeEnKeyword), item)
  {
    assert IsNormal(Grader.ClozeEnKeyword);
    NormalIsFixed(Grader.ClozeEnKeyword);
    assert IsPrefix(Grader.ClozeEnKeyword, Grader.ClozeEnKeyword);
  }

  /** The stored answer of every candidate is graded correct for
      that candidate's type. */
  lemma CandidateAnswersAreAccepted(item: SentenceItem)
    ensures forall t :: t in Candidates(item) ==> Grader.Grade(t.TypeName(), Some(t.answer), item)
  {
    YesIsAccepted(item);
    ClozeJpAnswerIsAccepted(item);
    ClozeEnAnswerIsAccepted(item);
  }

  /** The stored answer of every generated task is graded correct
      for that task's type. */
  lemma GeneratedAnswersAreAccepted(item: SentenceItem, order: seq<nat>)
    requires IsPermutation(order, |Candidates(item)|)
    ensures forall t :: t in GenerateTasks(item, order) ==> Grader.Grade(t.TypeName(), Some(t.answer), item)
  {
    CandidateAnswersAreAccepted(item);
  }

  /** A sentence with Chinese and Japanese but no English has exactly the
      three Japanese-based candidates, so every shuffle serves all three and
      no English task. */
  lemma JapaneseOnlySentence(item: SentenceItem, order: seq<nat>)
    requires item.textZh != [] && item.textJp != [] && item.textEn == []
    requires IsPermutation(order, 3)
    ensures |Candidates(item)| == 3
    ensures var tasks := GenerateTasks(item, order);
      && TellJpFromZh(item.textZh, item.textJp) in tasks
      && AskJpYesNo(YesNoQuestion(item.textJp), Yes) in tasks
      && ClozeJp(ClozeJpText(item.textJp), Grader.ClozeJpKanji) in tasks
      && forall t :: t in tasks ==> !t.TellEnFromZh? && !t.ClozeEn?
  {
    var c := Candidates(item);
    var t1 := TellJpFromZh(item.textZh, item.textJp);
    var t2 := AskJpYesNo(YesNoQuestion(item.textJp), Yes);
    var t3 := ClozeJp(ClozeJpText(item.textJp), Grader.ClozeJpKanji);
    assert forall t :: t in c ==> t == t1 || t == t2 || t == t3;
    assert t1 in c && t2 in c && t3 in c;
    assert c == [t1, t2, t3];
  }
}
