/** The answer normaliser `normalize_text` (train_engine/views.py): strip the
    surrounding whitespace, lowercase, and delete every ASCII space. */
module Normalize {
  import opened Wrappers
  import opened Text

  /** Python's `str.isspace()`, the characters `str.strip()` removes by default:
      TAB..CR, the four information separators, SPACE, NEL, NO-BREAK SPACE,
      OGHAM SPACE MARK, EN QUAD..HAIR SPACE, the line and paragraph separators,
      NARROW NO-BREAK SPACE, MEDIUM MATHEMATICAL SPACE and IDEOGRAPHIC SPACE. */
  predicate IsSpace(c: char) {
    || '\U{0009}' <= c <= '\U{000D}'
    || '\U{001C}' <= c <= '\U{0020}'
    || c == '\U{0085}' || c == '\U{00A0}' || c == '\U{1680}'
    || '\U{2000}' <= c <= '\U{200A}'
    || c == '\U{2028}' || c == '\U{2029}' || c == '\U{202F}'
    || c == '\U{205F}' || c == '\U{3000}'
  }

  /** How many whitespace characters `s` starts with. */
  function LeadingSpaces(s: string): (n: nat)
    ensures n <= |s|
    ensures forall k :: 0 <= k < n ==> IsSpace(s[k])
    ensures n == |s| || !IsSpace(s[n])
    decreases |s|
  {
    if |s| > 0 && IsSpace(s[0]) then 1 + LeadingSpaces(s[1..]) else 0
  }

  /** How many whitespace characters `s` ends with. */
  function TrailingSpaces(s: string): (n: nat)
    ensures n <= |s|
    ensures forall k :: |s| - n <= k < |s| ==> IsSpace(s[k])
    ensures n == |s| || !IsSpace(s[|s| - 1 - n])
    decreases |s|
  {
    if |s| > 0 && IsSpace(s[|s| - 1]) then 1 + TrailingSpaces(s[..|s| - 1]) else 0
  }

  /** `r` is the slice `s[i..j]`, and everything outside that slice is whitespace. */
  ghost predicate IsTrimOf(s: string, r: string, i: int, j: int) {
    && 0 <= i <= j <= |s|
    && r == s[i..j]
    && (forall k :: 0 <= k < i ==> IsSpace(s[k]))
    && (forall k :: j <= k < |s| ==> IsSpace(s[k]))
  }

  /** Python's `s.strip()`: the slice of `s` left once the whitespace at both
      ends is cut away; it neither starts nor ends with whitespace. */
  function Strip(s: string): (r: string)
    ensures exists i, j :: IsTrimOf(s, r, i, j)
    ensures r == [] || (!IsSpace(r[0]) && !IsSpace(r[|r| - 1]))
  {
    var i := LeadingSpaces(s);
    var j := |s| - TrailingSpaces(s[i..]);
    assert IsTrimOf(s, s[i..j], i, j) by {
      forall k | j <= k < |s|
        ensures IsSpace(s[k])
      {
        assert s[k] == s[i..][k - i];
      }
    }
    s[i..j]
  }

  /** `strip()` has exactly one possible result: any slice of `s` whose
      cut-off ends are whitespace and which neither starts nor ends with
      whitespace is `Strip(s)`. */
  lemma StripUnique(s: string, r: string, i: int, j: int)
    requires IsTrimOf(s, r, i, j)
    requires r == [] || (!IsSpace(r[0]) && !IsSpace(r[|r| - 1]))
    ensures r == Strip(s)
  {
    var q := Strip(s);
    var i', j' :| IsTrimOf(s, q, i', j');
    if r != [] && q != [] {
      assert s[i] == r[0] && s[i'] == q[0];
      assert s[j - 1] == r[|r| - 1] && s[j' - 1] == q[|q| - 1];
      assert i == i' && j == j';
    }
  }

  /** ASCII upper-case letters. */
  predicate IsUpper(c: char) {
    'A' <= c <= 'Z'
  }

  /** `str.lower()` restricted to ASCII: A..Z become a..z, all else is kept. */
  function LowerChar(c: char): (d: char)
    ensures !IsUpper(d)
    ensures IsUpper(c) ==> d as int == c as int + 32
    ensures !IsUpper(c) ==> d == c
    ensures IsSpace(d) <==> IsSpace(c)
  {
    if IsUpper(c) then (c as int + 32) as char else c
  }

  function Lower(s: string): (r: string)
    ensures |r| == |s|
    ensures forall i :: 0 <= i < |s| ==> r[i] == LowerChar(s[i])
  {
    seq(|s|, i requires 0 <= i < |s| => LowerChar(s[i]))
  }

  /** Lowercasing a string without ASCII capitals changes nothing. */
  lemma LowerKeepsLowercase(s: string)
    requires forall i :: 0 <= i < |s| ==> !IsUpper(s[i])
    ensures Lower(s) == s
  {
  }

  /** A string `normalize_text` leaves as it is: no ASCII space, no ASCII
      capital, and no whitespace at either end. */
  predicate IsNormal(s: string) {
    && ' ' !in s
    && (forall i :: 0 <= i < |s| ==> !IsUpper(s[i]))
    && (s == [] || (!IsSpace(s[0]) && !IsSpace(s[|s| - 1])))
  }

  /** `normalize_text(text)`: a missing or empty text gives the empty string;
      otherwise strip, lowercase and delete the ASCII spaces (`replace(" ", "")`). */
  function NormalizeText(text: Option<string>): (r: string)
    ensures text == None || text == Some([]) ==> r == []
    ensures IsNormal(r)
  {
    match text
    case None => []
    case Some(t) =>
      if t == [] then []
      else
        var l := Lower(Strip(t));
        DeleteSpacesGivesNormal(l);
        ReplaceAll(l, " ", [])
  }

  /** Deleting the ASCII spaces from a lowercased string that has no
      whitespace at either end gives a normal string. */
  lemma DeleteSpacesGivesNormal(l: string)
    requires forall i :: 0 <= i < |l| ==> !IsUpper(l[i])
    requires l == [] || (!IsSpace(l[0]) && !IsSpace(l[|l| - 1]))
    ensures IsNormal(ReplaceAll(l, " ", []))
  {
    DeleteSpacesKeepsLetters(l);
    if l != [] {
      DeleteSpacesKeepsEnds(l);
    }
  }

  lemma DeleteSpacesKeepsLetters(l: string)
    requires forall i :: 0 <= i < |l| ==> !IsUpper(l[i])
    ensures ' ' !in ReplaceAll(l, " ", [])
    ensures forall i :: 0 <= i < |ReplaceAll(l, " ", [])| ==> !IsUpper(ReplaceAll(l, " ", [])[i])
  {
    var r := ReplaceAll(l, " ", []);
    ReplaceCharMembers(l, " ", []);
    forall i | 0 <= i < |r|
      ensures !IsUpper(r[i])
    {
      assert r[i] in r;
      var k :| 0 <= k < |l| && l[k] == r[i];
    }
  }

  lemma DeleteSpacesKeepsEnds(l: string)
    requires l != [] && l[0] != ' ' && l[|l| - 1] != ' '
    ensures var r := ReplaceAll(l, " ", []);
      r != [] && r[0] == l[0] && r[|r| - 1] == l[|l| - 1]
  {
    var n := |l|;
    var front, last := l[..n - 1], [l[n - 1]];
    ReplaceCharAppend(front, last, " ", []);
    assert l == front + last;
    assert ReplaceAll(last, " ", []) == last;
  }

  /** A normal string is its own normal form. */
  lemma NormalIsFixed(s: string)
    requires IsNormal(s)
    ensures NormalizeText(Some(s)) == s
  {
    if s != [] {
      assert LeadingSpaces(s) == 0;
      assert TrailingSpaces(s) == 0;
      assert Strip(s) == s;
      LowerKeepsLowercase(s);
      ContainsChar(s, ' ');
      assert ReplaceAll(s, " ", []) == s;
    }
  }

  /** The fixed points of `normalize_text` are exactly the normal strings. */
  lemma FixedIffNormal(s: string)
    ensures NormalizeText(Some(s)) == s <==> IsNormal(s)
  {
    if IsNormal(s) {
      NormalIsFixed(s);
    }
  }

  /** Normalising twice is normalising once. */
  lemma NormalizeIdempotent(text: Option<string>)
    ensures NormalizeText(Some(NormalizeText(text))) == NormalizeText(text)
  {
    NormalIsFixed(NormalizeText(text));
  }

  /** Deleting the one space between two space-free parts joins them. */
  lemma DeleteOneSpace(left: string, right: string)
    requires ' ' !in left && ' ' !in right
    ensures ReplaceAll(left + " " + right, " ", []) == left + right
  {
    var tail := " " + right;
    assert ReplaceAll(tail, " ", []) == right by {
      ReplaceCharAppend(" ", right, " ", []);
      assert ReplaceAll(" ", " ", []) == [];
      ContainsChar(right, ' ');
    }
    assert ReplaceAll(left + tail, " ", []) == left + right by {
      ReplaceCharAppend(left, tail, " ", []);
      ContainsChar(left, ' ');
    }
    assert left + " " + right == left + tail;
  }

  /** A space typed between two normal words is ignored: the answer
      normalises to the words run together. */
  lemma InnerSpaceIgnored(left: string, right: string)
    requires IsNormal(left) && IsNormal(right) && left != [] && right != []
    ensures NormalizeText(Some(left + " " + right)) == left + right
  {
    var s := left + " " + right;
    assert s[0] == left[0] && s[|s| - 1] == right[|right| - 1];
    assert LeadingSpaces(s) == 0;
    assert TrailingSpaces(s) == 0;
    assert Strip(s) == s;
    assert forall i :: 0 <= i < |s| ==> !IsUpper(s[i]) by {
      forall i | 0 <= i < |s|
        ensures !IsUpper(s[i])
      {
        if i < |left| {
          assert s[i] == left[i];
        } else if i > |left| {
          assert s[i] == right[i - |left| - 1];
        }
      }
    }
    LowerKeepsLowercase(s);
    DeleteOneSpace(left, right);
  }

  /** Padding a text with whitespace moves its trimmed slice but keeps it
      a trim of the padded text. */
  lemma PadKeepsTrim(w: string, t: string, w': string, q: string, a: int, b: int)
    requires forall k :: 0 <= k < |w| ==> IsSpace(w[k])
    requires forall k :: 0 <= k < |w'| ==> IsSpace(w'[k])
    requires IsTrimOf(t, q, a, b)
    ensures IsTrimOf(w + t + w', q, |w| + a, |w| + b)
  {
    var s := w + t + w';
    assert q == s[|w| + a..|w| + b];
    forall k | 0 <= k < |w| + a
      ensures IsSpace(s[k])
    {
      if k >= |w| { assert s[k] == t[k - |w|]; }
    }
    forall k | |w| + b <= k < |s|
      ensures IsSpace(s[k])
    {
      if k < |w| + |t| { assert s[k] == t[k - |w|]; } else { assert s[k] == w'[k - |w| - |t|]; }
    }
  }

  /** `strip()` removes any whitespace padding. */
  lemma StripPadded(w: string, t: string, w': string)
    requires forall k :: 0 <= k < |w| ==> IsSpace(w[k])
    requires forall k :: 0 <= k < |w'| ==> IsSpace(w'[k])
    ensures Strip(w + t + w') == Strip(t)
  {
    var q := Strip(t);
    var a, b :| IsTrimOf(t, q, a, b);
    PadKeepsTrim(w, t, w', q, a, b);
    StripUnique(w + t + w', q, |w| + a, |w| + b);
  }

  /** Whitespace around the answer is ignored: padding a text on either side
      with whitespace does not change its normal form. */
  lemma SurroundingSpaceIgnored(w: string, t: string, w': string)
    requires forall k :: 0 <= k < |w| ==> IsSpace(w[k])
    requires forall k :: 0 <= k < |w'| ==> IsSpace(w'[k])
    ensures NormalizeText(Some(w + t + w')) == NormalizeText(Some(t))
  {
    var s := w + t + w';
    StripPadded(w, t, w');
    if t == [] && s != [] {
      assert Lower(Strip(s)) == [];
    }
  }

  /** Two texts that agree once lowercased: `CaseIgnored` relates their
      normal forms. */
  predicate SameUpToCase(s: string, t: string) {
    |s| == |t| && forall k :: 0 <= k < |s| ==> LowerChar(s[k]) == LowerChar(t[k])
  }

  /** Texts equal up to case have whitespace at the same positions. */
  lemma SameSpaces(s: string, t: string)
    requires SameUpToCase(s, t)
    ensures forall k :: 0 <= k < |s| ==> (IsSpace(s[k]) <==> IsSpace(t[k]))
  {
    forall k | 0 <= k < |s|
      ensures IsSpace(s[k]) <==> IsSpace(t[k])
    {
      assert IsSpace(LowerChar(s[k])) <==> IsSpace(s[k]);
      assert IsSpace(LowerChar(t[k])) <==> IsSpace(t[k]);
    }
  }

  /** The same cut trims both of two texts with whitespace at the same
      positions. */
  lemma TrimTransfers(s: string, t: string, q: string, i: int, j: int)
    requires |s| == |t|
    requires forall k :: 0 <= k < |s| ==> (IsSpace(s[k]) <==> IsSpace(t[k]))
    requires IsTrimOf(s, q, i, j)
    requires q == [] || (!IsSpace(q[0]) && !IsSpace(q[|q| - 1]))
    ensures Strip(t) == t[i..j]
  {
    var q' := t[i..j];
    if q != [] {
      assert q[0] == s[i] && q'[0] == t[i];
      assert q[|q| - 1] == s[j - 1] && q'[|q'| - 1] == t[j - 1];
    }
    StripUnique(t, q', i, j);
  }

  /** Slices at the same place of texts equal up to case are equal up to case. */
  lemma SliceSameUpToCase(s: string, t: string, i: int, j: int)
    requires SameUpToCase(s, t) && 0 <= i <= j <= |s|
    ensures SameUpToCase(s[i..j], t[i..j])
  {
    forall k | 0 <= k < j - i
      ensures LowerChar(s[i..j][k]) == LowerChar(t[i..j][k])
    {
      assert s[i..j][k] == s[i + k] && t[i..j][k] == t[i + k];
    }
  }

  /** Texts equal up to case have the same whitespace, so `strip()` cuts
      them at the same places. */
  lemma StripSameUpToCase(s: string, t: string)
    requires SameUpToCase(s, t)
    ensures SameUpToCase(Strip(s), Strip(t))
  {
    SameSpaces(s, t);
    var q := Strip(s);
    var i, j :| IsTrimOf(s, q, i, j);
    TrimTransfers(s, t, q, i, j);
    SliceSameUpToCase(s, t, i, j);
  }

  /** The answer check ignores letter case: two texts that agree once each
      character is lowercased have the same normal form. */
  lemma CaseIgnored(s: string, t: string)
    requires SameUpToCase(s, t)
    ensures NormalizeText(Some(s)) == NormalizeText(Some(t))
  {
    if s != [] {
      StripSameUpToCase(s, t);
      assert Lower(Strip(s)) == Lower(Strip(t));
    }
  }

  /** `replace(" ", "")`: the text with every ASCII space deleted. */
  function DeleteSpaces(s: string): string {
    ReplaceAll(s, " ", [])
  }

  lemma DeleteSpacesAppend(x: string, y: string)
    ensures DeleteSpaces(x + y) == DeleteSpaces(x) + DeleteSpaces(y)
  {
    ReplaceCharAppend(x, y, " ", []);
  }

  /** Deleting the spaces of one character: nothing for a space, the
      character itself otherwise. */
  lemma DeleteSpacesOfChar(c: char)
    ensures DeleteSpaces([c]) == if c == ' ' then [] else [c]
  {
    assert [c][1..] == [];
  }

  lemma LowerAppend(x: string, y: string)
    ensures Lower(x + y) == Lower(x) + Lower(y)
  {
  }

  /** Lowercasing and deleting the ASCII spaces can be done in either order. */
  lemma {:induction false} LowerDeleteSpacesCommute(x: string)
    ensures Lower(DeleteSpaces(x)) == DeleteSpaces(Lower(x))
    decreases |x|
  {
    if x != [] {
      var init, c := x[..|x| - 1], x[|x| - 1];
      var d := LowerChar(c);
      assert x == init + [c];
      calc {
        Lower(DeleteSpaces(x));
        { DeleteSpacesAppend(init, [c]); }
        Lower(DeleteSpaces(init) + DeleteSpaces([c]));
        { LowerAppend(DeleteSpaces(init), DeleteSpaces([c])); }
        Lower(DeleteSpaces(init)) + Lower(DeleteSpaces([c]));
        { LowerDeleteSpacesCommute(init); }
        DeleteSpaces(Lower(init)) + Lower(DeleteSpaces([c]));
        { DeleteSpacesOfChar(c); DeleteSpacesOfChar(d); }
        DeleteSpaces(Lower(init)) + DeleteSpaces([d]);
        { DeleteSpacesAppend(Lower(init), [d]); }
        DeleteSpaces(Lower(init) + [d]);
        { LowerAppend(init, [c]); assert Lower([c]) == [d]; }
        DeleteSpaces(Lower(x));
      }
    }
  }

  /** Deleting the ASCII spaces from whitespace leaves whitespace. */
  lemma DeleteSpacesOfWhitespace(w: string)
    requires forall k :: 0 <= k < |w| ==> IsSpace(w[k])
    ensures forall k :: 0 <= k < |DeleteSpaces(w)| ==> IsSpace(DeleteSpaces(w)[k])
  {
    var r := DeleteSpaces(w);
    ReplaceCharMembers(w, " ", []);
    forall k | 0 <= k < |r|
      ensures IsSpace(r[k])
    {
      assert r[k] in r;
    }
  }

  /** Deleting the spaces of a trimmed slice keeps it trimmed. */
  lemma DeleteSpacesKeepsTrimmedEnds(q: string)
    requires q == [] || (!IsSpace(q[0]) && !IsSpace(q[|q| - 1]))
    ensures var d := DeleteSpaces(q);
      d == [] || (!IsSpace(d[0]) && !IsSpace(d[|d| - 1]))
  {
    if q != [] {
      assert IsSpace(' ');
      DeleteSpacesKeepsEnds(q);
    }
  }

  /** A text without whitespace at its ends is its own strip. */
  lemma StripOfTrimmed(q: string)
    requires q == [] || (!IsSpace(q[0]) && !IsSpace(q[|q| - 1]))
    ensures Strip(q) == q
  {
    assert IsTrimOf(q, q, 0, |q|);
    StripUnique(q, q, 0, |q|);
  }

  /** A text is its whitespace head, its stripped body and its whitespace tail. */
  lemma StripParts(t: string) returns (w: string, w': string)
    ensures t == w + Strip(t) + w'
    ensures forall k :: 0 <= k < |w| ==> IsSpace(w[k])
    ensures forall k :: 0 <= k < |w'| ==> IsSpace(w'[k])
  {
    var q := Strip(t);
    var i, j :| IsTrimOf(t, q, i, j);
    w, w' := t[..i], t[j..];
    assert t == w + q + w';
  }

  /** Stripping and deleting the ASCII spaces can be done in either order. */
  lemma StripDeleteSpacesCommute(t: string)
    ensures Strip(DeleteSpaces(t)) == DeleteSpaces(Strip(t))
  {
    var q := Strip(t);
    var w, w' := StripParts(t);
    DeleteSpacesAppend(w + q, w');
    DeleteSpacesAppend(w, q);
    var dw, dq, dw' := DeleteSpaces(w), DeleteSpaces(q), DeleteSpaces(w');
    DeleteSpacesOfWhitespace(w);
    DeleteSpacesOfWhitespace(w');
    StripPadded(dw, dq, dw');
    DeleteSpacesKeepsTrimmedEnds(q);
    StripOfTrimmed(dq);
  }

  /** The normal form is the lowercased strip of the text with its ASCII
      spaces already deleted. */
  lemma NormalizeDeletesSpacesFirst(t: string)
    ensures NormalizeText(Some(t)) == Lower(Strip(DeleteSpaces(t)))
  {
    if t != [] {
      StripDeleteSpacesCommute(t);
      LowerDeleteSpacesCommute(Strip(t));
    } else {
      assert DeleteSpaces(t) == [];
    }
  }

  /** Every ASCII space in an answer is ignored: deleting one anywhere does
      not change the normal form. */
  lemma SpaceIgnored(a: string, b: string)
    ensures NormalizeText(Some(a + " " + b)) == NormalizeText(Some(a + b))
  {
    assert a + " " + b == a + (" " + b);
    DeleteSpacesAppend(a, " " + b);
    DeleteSpacesAppend(" ", b);
    DeleteSpacesAppend(a, b);
    DeleteSpacesOfChar(' ');
    assert DeleteSpaces(a + " " + b) == DeleteSpaces(a + b);
    NormalizeDeletesSpacesFirst(a + " " + b);
    NormalizeDeletesSpacesFirst(a + b);
  }
}
