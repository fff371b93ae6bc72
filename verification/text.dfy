/** The Python `str` operations the drill engine relies on, over `seq<char>`:
    substring containment (`sub in s`), `s.replace(pat, rep)`, `s.split(sep)`
    and `sep.join(pieces)`, each for a non-empty pattern or separator. */
module Text {

  /** `p` is a prefix of `s`. */
  predicate IsPrefix(p: string, s: string) {
    |p| <= |s| && s[..|p|] == p
  }

  /** `sub` occurs in `s` at index `i`. */
  ghost predicate OccursAt(s: string, sub: string, i: int) {
    0 <= i && i + |sub| <= |s| && s[i..i + |sub|] == sub
  }

  /** Python's `sub in s`, computed by trying every start position in turn. */
  function Contains(s: string, sub: string): bool
    decreases |s|
  {
    if IsPrefix(sub, s) then true
    else if |s| == 0 then false
    else Contains(s[1..], sub)
  }

  /** The scanning definition of `Contains` agrees with "occurs at some index". */
  lemma {:induction false} ContainsIffOccurs(s: string, sub: string)
    ensures Contains(s, sub) <==> exists i :: OccursAt(s, sub, i)
    decreases |s|
  {
    if IsPrefix(sub, s) {
      assert OccursAt(s, sub, 0);
    } else if |s| == 0 {
    } else {
      ContainsIffOccurs(s[1..], sub);
      if exists i :: OccursAt(s, sub, i) {
        var i :| OccursAt(s, sub, i);
        if i > 0 {
          assert s[1..][i - 1..i - 1 + |sub|] == s[i..i + |sub|];
          assert OccursAt(s[1..], sub, i - 1);
        }
      }
      if exists i :: OccursAt(s[1..], sub, i) {
        var i :| OccursAt(s[1..], sub, i);
        assert s[1..][i..i + |sub|] == s[i + 1..i + 1 + |sub|];
        assert OccursAt(s, sub, i + 1);
      }
    }
  }

  /** For a one-character pattern, containment is plain membership. */
  lemma {:induction false} ContainsChar(s: string, c: char)
    ensures Contains(s, [c]) <==> c in s
    decreases |s|
  {
    if |s| > 0 {
      ContainsChar(s[1..], c);
      assert s == [s[0]] + s[1..];
    }
  }

  /** A string without the first character of `sub` does not contain `sub`. */
  lemma AbsentFirstChar(s: string, sub: string)
    requires |sub| > 0 && sub[0] !in s
    ensures !Contains(s, sub)
  {
    ContainsIffOccurs(s, sub);
  }

  /** Python's `s.replace(pat, rep)`: scan left to right and replace every
      non-overlapping occurrence of `pat`, leftmost first. A string without
      `pat` passes through unchanged. */
  function ReplaceAll(s: string, pat: string, rep: string): (r: string)
    requires |pat| > 0
    ensures !Contains(s, pat) ==> r == s
    decreases |s|
  {
    if |s| == 0 then []
    else if IsPrefix(pat, s) then rep + ReplaceAll(s[|pat|..], pat, rep)
    else [s[0]] + ReplaceAll(s[1..], pat, rep)
  }

  /** A pattern at the front is replaced and the scan resumes after it. */
  lemma ReplaceAtFront(pat: string, rest: string, rep: string)
    requires |pat| > 0
    ensures ReplaceAll(pat + rest, pat, rep) == rep + ReplaceAll(rest, pat, rep)
  {
    assert (pat + rest)[..|pat|] == pat;
    assert (pat + rest)[|pat|..] == rest;
  }

  /** A front part without the pattern's first character is kept as it is. */
  lemma {:induction false} ReplaceSkipsFront(front: string, t: string, pat: string, rep: string)
    requires |pat| > 0 && pat[0] !in front
    ensures ReplaceAll(front + t, pat, rep) == front + ReplaceAll(t, pat, rep)
    decreases |front|
  {
    if |front| > 0 {
      var s := front + t;
      assert s[0] == front[0];
      assert s[1..] == front[1..] + t;
      ReplaceSkipsFront(front[1..], t, pat, rep);
    } else {
      assert front + t == t;
    }
  }

  /** Replacing a pattern by itself changes nothing. */
  lemma {:induction false} ReplaceWithItself(s: string, pat: string)
    requires |pat| > 0
    ensures ReplaceAll(s, pat, pat) == s
    decreases |s|
  {
    if |s| == 0 {
    } else if IsPrefix(pat, s) {
      ReplaceWithItself(s[|pat|..], pat);
      assert s == s[..|pat|] + s[|pat|..];
    } else {
      ReplaceWithItself(s[1..], pat);
      assert s == [s[0]] + s[1..];
    }
  }

  /** `s.split(sep)` carrying the piece collected so far. */
  function SplitFrom(s: string, sep: string, piece: string): (r: seq<string>)
    requires |sep| > 0
    ensures |r| >= 1
    decreases |s|
  {
    if |s| == 0 then [piece]
    else if IsPrefix(sep, s) then [piece] + SplitFrom(s[|sep|..], sep, [])
    else SplitFrom(s[1..], sep, piece + [s[0]])
  }

  /** Python's `s.split(sep)` for an explicit, non-empty separator: adjacent
      separators give empty pieces, and there is always at least one piece. */
  function Split(s: string, sep: string): (r: seq<string>)
    requires |sep| > 0
    ensures |r| >= 1
  {
    SplitFrom(s, sep, [])
  }

  /** Python's `sep.join(pieces)`. */
  function Join(pieces: seq<string>, sep: string): string
    decreases |pieces|
  {
    if |pieces| == 0 then []
    else if |pieces| == 1 then pieces[0]
    else pieces[0] + sep + Join(pieces[1..], sep)
  }

  lemma JoinCons(p: string, ps: seq<string>, sep: string)
    requires |ps| >= 1
    ensures Join([p] + ps, sep) == p + sep + Join(ps, sep)
  {
    assert ([p] + ps)[1..] == ps;
  }

  lemma JoinSplitPrefixStep(s: string, pat: string, rep: string, piece: string)
    requires |pat| > 0 && IsPrefix(pat, s) && |s| > 0
    requires Join(SplitFrom(s[|pat|..], pat, []), rep) == ReplaceAll(s[|pat|..], pat, rep)
    ensures Join(SplitFrom(s, pat, piece), rep) == piece + ReplaceAll(s, pat, rep)
  {
    var rest := s[|pat|..];
    var tail := SplitFrom(rest, pat, []);
    assert SplitFrom(s, pat, piece) == [piece] + tail;
    JoinCons(piece, tail, rep);
    assert ReplaceAll(s, pat, rep) == rep + ReplaceAll(rest, pat, rep);
  }

  lemma JoinSplitSkipStep(s: string, pat: string, rep: string, piece: string)
    requires |pat| > 0 && !IsPrefix(pat, s) && |s| > 0
    requires Join(SplitFrom(s[1..], pat, piece + [s[0]]), rep) == piece + [s[0]] + ReplaceAll(s[1..], pat, rep)
    ensures Join(SplitFrom(s, pat, piece), rep) == piece + ReplaceAll(s, pat, rep)
  {
    assert SplitFrom(s, pat, piece) == SplitFrom(s[1..], pat, piece + [s[0]]);
    assert ReplaceAll(s, pat, rep) == [s[0]] + ReplaceAll(s[1..], pat, rep);
  }

  lemma {:induction false} JoinSplitFromIsReplace(s: string, pat: string, rep: string, piece: string)
    requires |pat| > 0
    ensures Join(SplitFrom(s, pat, piece), rep) == piece + ReplaceAll(s, pat, rep)
    decreases |s|
  {
    if |s| == 0 {
    } else if IsPrefix(pat, s) {
      JoinSplitFromIsReplace(s[|pat|..], pat, rep, []);
      assert [] + ReplaceAll(s[|pat|..], pat, rep) == ReplaceAll(s[|pat|..], pat, rep);
      JoinSplitPrefixStep(s, pat, rep, piece);
    } else {
      JoinSplitFromIsReplace(s[1..], pat, rep, piece + [s[0]]);
      JoinSplitSkipStep(s, pat, rep, piece);
    }
  }

  /** Python's identity `s.replace(pat, rep) == rep.join(s.split(pat))`:
      replacement is splitting at the pattern and gluing with the replacement. */
  lemma ReplaceIsJoinOfSplit(s: string, pat: string, rep: string)
    requires |pat| > 0
    ensures ReplaceAll(s, pat, rep) == Join(Split(s, pat), rep)
  {
    JoinSplitFromIsReplace(s, pat, rep, []);
  }

  /** Joining the pieces of a split with the same separator gives the string back. */
  lemma SplitThenJoin(s: string, sep: string)
    requires |sep| > 0
    ensures Join(Split(s, sep), sep) == s
  {
    ReplaceIsJoinOfSplit(s, sep, sep);
    ReplaceWithItself(s, sep);
  }

  lemma {:induction false} SplitFromSkipsPiece(p: string, t: string, sep: string, piece: string)
    requires |sep| == 1
    requires sep[0] !in p
    ensures SplitFrom(p + t, sep, piece) == SplitFrom(t, sep, piece + p)
    decreases |p|
  {
    if |p| > 0 {
      assert (p + t)[..1] == [p[0]];
      assert (p + t)[1..] == p[1..] + t;
      SplitFromSkipsPiece(p[1..], t, sep, piece + [p[0]]);
      assert piece + [p[0]] + p[1..] == piece + p;
    } else {
      assert p + t == t;
      assert piece + p == piece;
    }
  }

  /** For a one-character separator that no piece contains, splitting a join
      gives the pieces back. */
  lemma {:induction false} JoinThenSplit(pieces: seq<string>, sep: string)
    requires |sep| == 1
    requires |pieces| >= 1
    requires forall i :: 0 <= i < |pieces| ==> sep[0] !in pieces[i]
    ensures Split(Join(pieces, sep), sep) == pieces
    decreases |pieces|
  {
    var p := pieces[0];
    if |pieces| == 1 {
      SplitFromSkipsPiece(p, [], sep, []);
      assert p + [] == p;
      assert [] + p == p;
    } else {
      var rest := Join(pieces[1..], sep);
      SplitFromSkipsPiece(p, sep + rest, sep, []);
      assert [] + p == p;
      assert (sep + rest)[..|sep|] == sep;
      assert (sep + rest)[|sep|..] == rest;
      JoinThenSplit(pieces[1..], sep);
      assert Join(pieces, sep) == p + (sep + rest);
      assert SplitFrom(sep + rest, sep, p) == [p] + Split(rest, sep);
      assert pieces == [p] + pieces[1..];
    }
  }

  lemma {:induction false} SplitFromPiecesAvoidSep(s: string, sep: string, piece: string)
    requires |sep| == 1
    requires sep[0] !in piece
    ensures forall i :: 0 <= i < |SplitFrom(s, sep, piece)| ==> sep[0] !in SplitFrom(s, sep, piece)[i]
    decreases |s|
  {
    if |s| == 0 {
    } else if IsPrefix(sep, s) {
      SplitFromPiecesAvoidSep(s[|sep|..], sep, []);
    } else {
      assert s[..1] == [s[0]];
      SplitFromPiecesAvoidSep(s[1..], sep, piece + [s[0]]);
    }
  }

  /** No piece of a split at a one-character separator contains that character. */
  lemma SplitPiecesAvoidSep(s: string, sep: string)
    requires |sep| == 1
    ensures forall i :: 0 <= i < |Split(s, sep)| ==> sep[0] !in Split(s, sep)[i]
  {
    SplitFromPiecesAvoidSep(s, sep, []);
  }

  lemma {:induction false} ReplaceKeepsPrefix(u: string, w: string, pat: string, rep: string)
    requires |pat| > 0 && |rep| > 0
    requires rep[0] !in w
    requires IsPrefix(w, ReplaceAll(u, pat, rep))
    ensures IsPrefix(w, u)
    decreases |u|
  {
    if |w| > 0 {
      var head := rep[0];
      assert ReplaceAll(u, pat, rep)[0] == if IsPrefix(pat, u) then head else u[0];
      ReplaceKeepsPrefix(u[1..], w[1..], pat, rep);
      assert w == [w[0]] + w[1..];
      assert u[..|w|] == [u[0]] + u[1..][..|w| - 1];
    }
  }

  lemma {:induction false} ReplaceLeavesNoOccurrenceAt(s: string, pat: string, rep: string, j: int)
    requires |pat| > 0 && |rep| > 0
    requires forall k :: 0 <= k < |rep| ==> rep[k] !in pat
    ensures !OccursAt(ReplaceAll(s, pat, rep), pat, j)
    decreases |s|
  {
    var r := ReplaceAll(s, pat, rep);
    if OccursAt(r, pat, j) {
      assert r[j] == pat[0];
      if IsPrefix(pat, s) {
        var tail := ReplaceAll(s[|pat|..], pat, rep);
        if j >= |rep| {
          ReplaceLeavesNoOccurrenceAt(s[|pat|..], pat, rep, j - |rep|);
        }
      } else if j > 0 {
        var tail := ReplaceAll(s[1..], pat, rep);
        ReplaceLeavesNoOccurrenceAt(s[1..], pat, rep, j - 1);
      } else {
        var tail := ReplaceAll(s[1..], pat, rep);
        assert IsPrefix(pat[1..], tail) by {
          assert tail[..|pat| - 1] == r[1..|pat|];
        }
        assert rep[0] !in pat;
        ReplaceKeepsPrefix(s[1..], pat[1..], pat, rep);
      }
      assert false;
    }
  }

  /** Replacing with a non-empty text that shares no character with the
      pattern leaves no occurrence of the pattern behind: every occurrence was
      replaced, and no new one was formed at a seam. */
  lemma ReplaceRemovesPattern(s: string, pat: string, rep: string)
    requires |pat| > 0 && |rep| > 0
    requires forall k :: 0 <= k < |rep| ==> rep[k] !in pat
    ensures !Contains(ReplaceAll(s, pat, rep), pat)
  {
    var r := ReplaceAll(s, pat, rep);
    forall j | true
      ensures !OccursAt(r, pat, j)
    {
      ReplaceLeavesNoOccurrenceAt(s, pat, rep, j);
    }
    ContainsIffOccurs(r, pat);
  }

  /** With a one-character pattern, replacement distributes over concatenation. */
  lemma {:induction false} ReplaceCharAppend(s: string, t: string, pat: string, rep: string)
    requires |pat| == 1
    ensures ReplaceAll(s + t, pat, rep) == ReplaceAll(s, pat, rep) + ReplaceAll(t, pat, rep)
    decreases |s|
  {
    if |s| == 0 {
      assert s + t == t;
    } else {
      assert (s + t)[..1] == s[..1];
      assert (s + t)[1..] == s[1..] + t;
      ReplaceCharAppend(s[1..], t, pat, rep);
    }
  }

  /** With a one-character pattern, each character of the result comes from
      the replacement or is a character of the input other than the pattern. */
  lemma {:induction false} ReplaceCharMembers(s: string, pat: string, rep: string)
    requires |pat| == 1
    ensures forall c :: c in ReplaceAll(s, pat, rep) ==> c in rep || (c in s && c != pat[0])
    decreases |s|
  {
    if |s| > 0 {
      ReplaceCharMembers(s[1..], pat, rep);
      assert s[..1] == [s[0]];
      assert forall c :: c in s[1..] ==> c in s;
    }
  }
}
