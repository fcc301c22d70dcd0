/** Character- and string-level behaviour the utility relies on: the blank-line predicate
    (`StringUtils.isBlank`, which applies `Character.isWhitespace` to every char) and
    the literal, left-to-right, non-overlapping replace-all that a `Pattern.LITERAL`
    matcher performs with a `Matcher.quoteReplacement` replacement. */
module Text {

  /** `Character.isWhitespace`: the Unicode space, line and paragraph separators except
      the three no-break spaces U+00A0, U+2007 and U+202F, plus U+0009..U+000D and
      U+001C..U+001F, as in JDK 9 and later (Unicode 8 onwards; JDK 8 also counts
      U+180E). The sentinel U+0001 is not whitespace. */
  predicate IsWhitespace(c: char) {
    ('\t' <= c <= '\r') || ('\U{1C}' <= c <= '\U{1F}') || c == ' ' || c == '\U{1680}'
    || ('\U{2000}' <= c <= '\U{2006}') || ('\U{2008}' <= c <= '\U{200A}')
    || c == '\U{2028}' || c == '\U{2029}' || c == '\U{205F}' || c == '\U{3000}'
  }

  /** `StringUtils.isBlank`: empty, or whitespace only. */
  predicate IsBlank(s: string) {
    forall i :: 0 <= i < |s| ==> IsWhitespace(s[i])
  }

  /** `s` holds a character on which `BufferedReader.readLine` ends a line. */
  predicate HasLineTerminator(s: string) {
    exists k :: 0 <= k < |s| && (s[k] == '\n' || s[k] == '\r')
  }

  /** Length of `s` in UTF-16 code units, which is what `String.toCharArray().length`
      counts: a character outside the Basic Multilingual Plane takes two. */
  function Utf16Units(s: string): (n: nat)
    ensures n >= |s|
    ensures n <= 2 * |s|
  {
    if s == [] then 0 else (if s[0] as int > 0xFFFF then 2 else 1) + Utf16Units(s[1..])
  }

  /** `pat` occurs in `s` starting at index `j`. */
  predicate MatchAt(s: string, pat: string, j: int) {
    0 <= j && j + |pat| <= |s| && s[j..j + |pat|] == pat
  }

  predicate Contains(s: string, pat: string) {
    exists j :: 0 <= j <= |s| && MatchAt(s, pat, j)
  }

  /** Literal replace-all: scan from the left; where `pat` matches, emit `rep` and resume
      after the match, otherwise emit one character and move on. */
  function ReplaceAll(s: string, pat: string, rep: string): string
    requires |pat| > 0
    decreases |s|
  {
    if |s| < |pat| then s
    else if s[..|pat|] == pat then rep + ReplaceAll(s[|pat|..], pat, rep)
    else [s[0]] + ReplaceAll(s[1..], pat, rep)
  }

  /** `pieces` glued together with `sep` between consecutive pieces. */
  function Join(pieces: seq<string>, sep: string): string {
    if |pieces| == 0 then []
    else if |pieces| == 1 then pieces[0]
    else pieces[0] + sep + Join(pieces[1..], sep)
  }

  /** No occurrence of `pat` starts in `t` before index `k`. */
  predicate NoMatchBefore(t: string, pat: string, k: int) {
    forall j :: 0 <= j < k ==> !MatchAt(t, pat, j)
  }

  /** `pieces` is the leftmost-first split of `Join(pieces, pat)` at `pat`: the occurrence
      of `pat` after each piece is the first one that starts at or after that piece, and
      the last piece holds no occurrence at all. */
  predicate LeftmostSplit(pieces: seq<string>, pat: string) {
    |pieces| > 0
    && (forall i :: 0 <= i < |pieces| - 1 ==> NoMatchBefore(pieces[i] + pat, pat, |pieces[i]|))
    && !Contains(pieces[|pieces| - 1], pat)
  }

  lemma MatchShift(c: char, t: string, pat: string, j: int)
    requires 0 <= j
    ensures MatchAt([c] + t, pat, j + 1) <==> MatchAt(t, pat, j)
  {
    if 0 <= j && j + |pat| <= |t| {
      assert ([c] + t)[j + 1..j + 1 + |pat|] == t[j..j + |pat|];
    }
  }

  /** Every string has a leftmost split at any non-empty pattern. */
  function Split(s: string, pat: string): (pieces: seq<string>)
    requires |pat| > 0
    ensures Join(pieces, pat) == s
    ensures LeftmostSplit(pieces, pat)
    decreases |s|
  {
    if |s| < |pat| then
      assert !Contains(s, pat);
      [s]
    else if s[..|pat|] == pat then
      var t := Split(s[|pat|..], pat);
      assert Join([[]] + t, pat) == [] + pat + Join(t, pat) by {
        assert ([[]] + t)[1..] == t;
      }
      assert s == pat + s[|pat|..];
      assert NoMatchBefore([] + pat, pat, 0);
      assert forall i :: 1 <= i < |t| + 1 ==> ([[]] + t)[i] == t[i - 1];
      [[]] + t
    else
      var t := Split(s[1..], pat);
      var head := [s[0]] + t[0];
      SplitConsHead(s, pat, t);
      [head] + t[1..]
  }

  /** The step of `Split` that prefixes one unmatched character to the first piece. */
  lemma SplitConsHead(s: string, pat: string, t: seq<string>)
    requires |pat| > 0 && |s| >= |pat| && s[..|pat|] != pat
    requires Join(t, pat) == s[1..] && LeftmostSplit(t, pat)
    ensures Join([[s[0]] + t[0]] + t[1..], pat) == s
    ensures LeftmostSplit([[s[0]] + t[0]] + t[1..], pat)
  {
    if |t| == 1 {
      SplitConsHeadLast(s, pat, t[0]);
      assert [[s[0]] + t[0]] + t[1..] == [[s[0]] + t[0]];
    } else {
      SplitConsHeadInner(s, pat, t);
    }
  }

  lemma SplitConsHeadLast(s: string, pat: string, last: string)
    requires |pat| > 0 && |s| >= |pat| && s[..|pat|] != pat
    requires last == s[1..] && !Contains(last, pat)
    ensures [s[0]] + last == s
    ensures !Contains([s[0]] + last, pat)
  {
    var head := [s[0]] + last;
    assert head == s;
    forall j | 0 <= j <= |head| ensures !MatchAt(head, pat, j) {
      if j > 0 {
        MatchShift(s[0], last, pat, j - 1);
      }
    }
  }

  lemma JoinCons(p: string, t: seq<string>, sep: string)
    requires |t| > 0
    ensures Join([p] + t, sep) == p + sep + Join(t, sep)
  {
    assert ([p] + t)[1..] == t;
  }

  lemma SplitConsHeadInner(s: string, pat: string, t: seq<string>)
    requires |pat| > 0 && |s| >= |pat| && s[..|pat|] != pat
    requires |t| > 1 && Join(t, pat) == s[1..] && LeftmostSplit(t, pat)
    ensures Join([[s[0]] + t[0]] + t[1..], pat) == s
    ensures LeftmostSplit([[s[0]] + t[0]] + t[1..], pat)
  {
    var head := [s[0]] + t[0];
    var rest := Join(t[1..], pat);
    SplitConsJoin(s, pat, t);
    assert NoMatchBefore(t[0] + pat, pat, |t[0]|);
    HeadNoMatch(s, pat, t[0], rest);
    LeftmostSplitTail(t, pat);
    LeftmostSplitCons(head, t[1..], pat);
  }

  lemma SplitConsJoin(s: string, pat: string, t: seq<string>)
    requires |s| > 0 && |t| > 1 && Join(t, pat) == s[1..]
    ensures Join([[s[0]] + t[0]] + t[1..], pat) == s
    ensures s == ([s[0]] + t[0] + pat) + Join(t[1..], pat)
  {
    var head := [s[0]] + t[0];
    var tail := t[1..];
    var rest := Join(tail, pat);
    assert t == [t[0]] + tail;
    JoinCons(t[0], tail, pat);
    JoinCons(head, tail, pat);
    calc {
      s;
      [s[0]] + s[1..];
      [s[0]] + (t[0] + pat + rest);
      (head + pat) + rest;
    }
  }

  lemma LeftmostSplitTail(t: seq<string>, pat: string)
    requires |t| > 1 && LeftmostSplit(t, pat)
    ensures LeftmostSplit(t[1..], pat)
  {
    assert forall i :: 0 <= i < |t| - 1 ==> t[1..][i] == t[i + 1];
  }

  lemma LeftmostSplitCons(head: string, tail: seq<string>, pat: string)
    requires |tail| > 0 && NoMatchBefore(head + pat, pat, |head|) && LeftmostSplit(tail, pat)
    ensures LeftmostSplit([head] + tail, pat)
  {
    var ps := [head] + tail;
    assert forall i :: 1 <= i < |ps| ==> ps[i] == tail[i - 1];
  }

  lemma HeadNoMatch(s: string, pat: string, first: string, rest: string)
    requires |pat| > 0 && |s| >= |pat| && s[..|pat|] != pat
    requires s == ([s[0]] + first + pat) + rest
    requires NoMatchBefore(first + pat, pat, |first|)
    ensures NoMatchBefore([s[0]] + first + pat, pat, |first| + 1)
  {
    var h := [s[0]] + first + pat;
    forall j | 0 <= j < |first| + 1 ensures !MatchAt(h, pat, j) {
      if j == 0 {
        assert h[..|pat|] == s[..|pat|];
      } else {
        assert h == [s[0]] + (first + pat);
        MatchShift(s[0], first + pat, pat, j - 1);
      }
    }
  }

  /** Replacement in front of a piece that holds no earlier match. */
  lemma {:induction false} ReplaceAfterPiece(pre: string, pat: string, rep: string, rest: string)
    requires |pat| > 0
    requires NoMatchBefore(pre + pat, pat, |pre|)
    ensures ReplaceAll(pre + pat + rest, pat, rep) == pre + rep + ReplaceAll(rest, pat, rep)
    decreases |pre|
  {
    var s := pre + pat + rest;
    if pre == [] {
      assert s[..|pat|] == pat && s[|pat|..] == rest;
    } else {
      assert (pre + pat)[..|pat|] == s[..|pat|];
      assert s[..|pat|] != pat by { assert !MatchAt(pre + pat, pat, 0); }
      assert s[1..] == pre[1..] + pat + rest;
      NoMatchBeforeTail(pre, pat);
      ReplaceAfterPiece(pre[1..], pat, rep, rest);
      calc {
        ReplaceAll(s, pat, rep);
        [s[0]] + ReplaceAll(s[1..], pat, rep);
        [pre[0]] + (pre[1..] + rep + ReplaceAll(rest, pat, rep));
        { assert [pre[0]] + pre[1..] == pre; }
        pre + rep + ReplaceAll(rest, pat, rep);
      }
    }
  }

  lemma NoMatchBeforeTail(pre: string, pat: string)
    requires pre != [] && NoMatchBefore(pre + pat, pat, |pre|)
    ensures NoMatchBefore(pre[1..] + pat, pat, |pre| - 1)
  {
    forall j | 0 <= j < |pre| - 1 ensures !MatchAt(pre[1..] + pat, pat, j) {
      assert pre + pat == [pre[0]] + (pre[1..] + pat);
      MatchShift(pre[0], pre[1..] + pat, pat, j);
    }
  }

  /** Where `pat` does not occur, replacement leaves the string as it is. */
  lemma {:induction false} ReplaceAllNoMatch(s: string, pat: string, rep: string)
    requires |pat| > 0 && !Contains(s, pat)
    ensures ReplaceAll(s, pat, rep) == s
    decreases |s|
  {
    if |s| >= |pat| {
      assert !MatchAt(s, pat, 0);
      forall j | 0 <= j <= |s[1..]| ensures !MatchAt(s[1..], pat, j) {
        assert s == [s[0]] + s[1..];
        MatchShift(s[0], s[1..], pat, j);
      }
      ReplaceAllNoMatch(s[1..], pat, rep);
    }
  }

  /** Reference definition of literal replace-all: cut the string at the leftmost
      non-overlapping occurrences of `pat` and glue the pieces back with `rep`. */
  lemma {:induction false} ReplaceAllJoinsSplit(pieces: seq<string>, pat: string, rep: string)
    requires |pat| > 0 && LeftmostSplit(pieces, pat)
    ensures ReplaceAll(Join(pieces, pat), pat, rep) == Join(pieces, rep)
    decreases |pieces|
  {
    if |pieces| == 1 {
      ReplaceAllNoMatch(pieces[0], pat, rep);
    } else {
      var tail := pieces[1..];
      assert forall i :: 0 <= i < |tail| ==> tail[i] == pieces[i + 1];
      assert LeftmostSplit(tail, pat);
      ReplaceAfterPiece(pieces[0], pat, rep, Join(tail, pat));
      ReplaceAllJoinsSplit(tail, pat, rep);
      assert pieces[0] + pat + Join(tail, pat) == Join(pieces, pat);
    }
  }

  /** The replace-all of every string is the join of its leftmost split. */
  lemma ReplaceAllIsJoinOfSplit(s: string, pat: string, rep: string)
    requires |pat| > 0
    ensures ReplaceAll(s, pat, rep) == Join(Split(s, pat), rep)
  {
    ReplaceAllJoinsSplit(Split(s, pat), pat, rep);
  }

  /** Replacing a pattern by itself changes nothing. */
  lemma {:induction false} ReplaceAllSelf(s: string, pat: string)
    requires |pat| > 0
    ensures ReplaceAll(s, pat, pat) == s
    decreases |s|
  {
    if |s| >= |pat| {
      if s[..|pat|] == pat {
        ReplaceAllSelf(s[|pat|..], pat);
        assert s == pat + s[|pat|..];
      } else {
        ReplaceAllSelf(s[1..], pat);
        assert s == [s[0]] + s[1..];
      }
    }
  }

  lemma {:induction false} ReplaceAllLengthBounds(s: string, pat: string, rep: string)
    requires |pat| > 0
    ensures |rep| >= |pat| ==> |ReplaceAll(s, pat, rep)| >= |s|
    ensures |rep| <= |pat| ==> |ReplaceAll(s, pat, rep)| <= |s|
    decreases |s|
  {
    if |s| >= |pat| {
      if s[..|pat|] == pat {
        ReplaceAllLengthBounds(s[|pat|..], pat, rep);
      } else {
        ReplaceAllLengthBounds(s[1..], pat, rep);
      }
    }
  }

  /** A string with an occurrence of `pat` is changed by replacing `pat` with anything else. */
  lemma {:induction false} ReplaceAllChanges(s: string, pat: string, rep: string)
    requires |pat| > 0 && pat != rep && Contains(s, pat)
    ensures ReplaceAll(s, pat, rep) != s
    decreases |s|
  {
    var j :| 0 <= j <= |s| && MatchAt(s, pat, j);
    if s[..|pat|] == pat {
      var rest := s[|pat|..];
      ReplaceAllLengthBounds(rest, pat, rep);
      if |rep| == |pat| {
        assert (rep + ReplaceAll(rest, pat, rep))[..|pat|] == rep;
      }
    } else {
      assert j != 0;
      assert s == [s[0]] + s[1..];
      MatchShift(s[0], s[1..], pat, j - 1);
      ReplaceAllChanges(s[1..], pat, rep);
      assert ReplaceAll(s, pat, rep)[1..] == ReplaceAll(s[1..], pat, rep);
    }
  }

  /** A line is left unchanged exactly when it holds no occurrence of the source
      separator or the separator is replaced by itself. */
  lemma ReplaceAllUnchangedIff(s: string, pat: string, rep: string)
    requires |pat| > 0
    ensures ReplaceAll(s, pat, rep) == s <==> (pat == rep || !Contains(s, pat))
  {
    if pat == rep {
      ReplaceAllSelf(s, pat);
    } else if Contains(s, pat) {
      ReplaceAllChanges(s, pat, rep);
    } else {
      ReplaceAllNoMatch(s, pat, rep);
    }
  }

  /** Replacing inside a non-blank string by a non-blank replacement keeps it non-blank. */
  lemma {:induction false} ReplaceAllKeepsNonBlank(s: string, pat: string, rep: string)
    requires |pat| > 0 && !IsBlank(s) && !IsBlank(rep)
    ensures !IsBlank(ReplaceAll(s, pat, rep))
    decreases |s|
  {
    var r := ReplaceAll(s, pat, rep);
    if |s| >= |pat| {
      if s[..|pat|] == pat {
        var k :| 0 <= k < |rep| && !IsWhitespace(rep[k]);
        assert r[k] == rep[k];
      } else if !IsWhitespace(s[0]) {
        assert r[0] == s[0];
      } else {
        var k :| 0 <= k < |s| && !IsWhitespace(s[k]);
        assert k > 0 && s[1..][k - 1] == s[k];
        ReplaceAllKeepsNonBlank(s[1..], pat, rep);
        var m :| 0 <= m < |ReplaceAll(s[1..], pat, rep)| && !IsWhitespace(ReplaceAll(s[1..], pat, rep)[m]);
        assert r[m + 1] == ReplaceAll(s[1..], pat, rep)[m];
      }
    }
  }

  /** Rewriting a single-character sentinel into a separator and back restores the line,
      provided the separator's first character does not occur in it. */
  lemma {:induction false} SentinelRoundTrip(line: string, sentinel: char, sep: string)
    requires |sep| > 0
    requires forall i :: 0 <= i < |line| ==> line[i] != sep[0]
    ensures ReplaceAll(ReplaceAll(line, [sentinel], sep), sep, [sentinel]) == line
    decreases |line|
  {
    if line != [] {
      var tail := line[1..];
      assert line == [line[0]] + tail;
      assert forall i :: 0 <= i < |tail| ==> tail[i] == line[i + 1];
      SentinelRoundTrip(tail, sentinel, sep);
      var x := ReplaceAll(tail, [sentinel], sep);
      if line[0] == sentinel {
        assert line[..1] == [sentinel];
        assert (sep + x)[..|sep|] == sep && (sep + x)[|sep|..] == x;
      } else {
        assert line[..1] != [sentinel];
        var y := [line[0]] + x;
        if |y| < |sep| {
          ReplaceAllLengthBounds(x, sep, [sentinel]);
          assert ReplaceAll(x, sep, [sentinel]) == x;
        } else {
          assert y[..|sep|][0] == line[0];
          assert y[1..] == x;
        }
      }
    }
  }
}
