/** The line-level transformation of the staging rewrite pass: blank lines are dropped
    and every remaining line has its source separator rewritten. */
module Lines {
  import opened Text

  /** The lines that are not blank, in their original order. */
  function NonBlank(lines: seq<string>): seq<string>
    decreases |lines|
  {
    if lines == [] then []
    else (if IsBlank(lines[0]) then [] else [lines[0]]) + NonBlank(lines[1..])
  }

  /** One line of the pass: when the separators are equal no pattern is built and the
      line is kept as read; otherwise the source separator is replaced literally. */
  function Rewrite(line: string, src: string, target: string): string
    requires |src| > 0
  {
    if src == target then line else ReplaceAll(line, src, target)
  }

  /** What the staging file holds after the pass: the rewritten non-blank lines. */
  function Normalized(lines: seq<string>, src: string, target: string): seq<string>
    requires |src| > 0
  {
    var kept := NonBlank(lines);
    seq(|kept|, i requires 0 <= i < |kept| => Rewrite(kept[i], src, target))
  }

  /** Filtering splits over concatenation: the filter keeps order and works line by line. */
  lemma {:induction false} NonBlankAppend(a: seq<string>, b: seq<string>)
    ensures NonBlank(a + b) == NonBlank(a) + NonBlank(b)
    decreases |a|
  {
    if a == [] {
      assert a + b == b;
    } else {
      assert (a + b)[1..] == a[1..] + b;
      NonBlankAppend(a[1..], b);
    }
  }

  /** The filter acting on a single line. */
  lemma NonBlankSingle(line: string)
    ensures NonBlank([line]) == if IsBlank(line) then [] else [line]
  {
    assert [line][1..] == [];
  }

  /** Exactly the non-blank input lines survive, and no blank line does. */
  lemma {:induction false} NonBlankMembers(lines: seq<string>, x: string)
    ensures x in NonBlank(lines) <==> x in lines && !IsBlank(x)
    decreases |lines|
  {
    if lines != [] {
      NonBlankMembers(lines[1..], x);
      assert lines == [lines[0]] + lines[1..];
    }
  }

  /** The filter's result is empty exactly when every input line is blank. */
  lemma {:induction false} NonBlankEmptyIff(lines: seq<string>)
    ensures NonBlank(lines) == [] <==> forall i :: 0 <= i < |lines| ==> IsBlank(lines[i])
    decreases |lines|
  {
    if lines != [] {
      NonBlankEmptyIff(lines[1..]);
      assert forall i :: 1 <= i < |lines| ==> lines[1..][i - 1] == lines[i];
    }
  }

  /** Filtering input that holds no blank line changes nothing. */
  lemma {:induction false} NonBlankOfNonBlank(lines: seq<string>)
    requires forall i :: 0 <= i < |lines| ==> !IsBlank(lines[i])
    ensures NonBlank(lines) == lines
    decreases |lines|
  {
    if lines != [] {
      NonBlankOfNonBlank(lines[1..]);
      assert lines == [lines[0]] + lines[1..];
    }
  }

  /** Skipping the pattern for equal separators is only a shortcut: the rewrite is the
      literal replace-all in every case. */
  lemma RewriteIsReplaceAll(line: string, src: string, target: string)
    requires |src| > 0
    ensures Rewrite(line, src, target) == ReplaceAll(line, src, target)
  {
    if src == target {
      ReplaceAllSelf(line, src);
    }
  }

  /** The pass works line by line: concatenated input gives concatenated output. */
  lemma NormalizedAppend(a: seq<string>, b: seq<string>, src: string, target: string)
    requires |src| > 0
    ensures Normalized(a + b, src, target) == Normalized(a, src, target) + Normalized(b, src, target)
  {
    NonBlankAppend(a, b);
  }

  /** The pass on one line: a blank line vanishes, any other line is rewritten. */
  lemma NormalizedSingle(line: string, src: string, target: string)
    requires |src| > 0
    ensures Normalized([line], src, target) == if IsBlank(line) then [] else [Rewrite(line, src, target)]
  {
    NonBlankSingle(line);
  }

  /** One more line read: a blank one changes nothing, any other is appended rewritten. */
  lemma NormalizedPrefixStep(lines: seq<string>, i: nat, src: string, target: string)
    requires |src| > 0 && i < |lines|
    ensures IsBlank(lines[i]) ==>
      (NonBlank(lines[..i + 1]) == NonBlank(lines[..i])
       && Normalized(lines[..i + 1], src, target) == Normalized(lines[..i], src, target))
    ensures !IsBlank(lines[i]) ==>
      (NonBlank(lines[..i + 1]) != []
       && Normalized(lines[..i + 1], src, target) == Normalized(lines[..i], src, target) + [Rewrite(lines[i], src, target)])
  {
    assert lines[..i + 1] == lines[..i] + [lines[i]];
    NonBlankAppend(lines[..i], [lines[i]]);
    NonBlankSingle(lines[i]);
    NormalizedAppend(lines[..i], [lines[i]], src, target);
    NormalizedSingle(lines[i], src, target);
    if IsBlank(lines[i]) {
      assert NonBlank(lines[..i]) + [] == NonBlank(lines[..i]);
      assert Normalized(lines[..i], src, target) + [] == Normalized(lines[..i], src, target);
    }
  }

  /** With equal separators the pass only drops the blank lines. */
  lemma NormalizedSameSeparator(lines: seq<string>, sep: string)
    requires |sep| > 0
    ensures Normalized(lines, sep, sep) == NonBlank(lines)
  {
  }

  /** The staged output is empty exactly when every input line is blank. */
  lemma NormalizedEmptyIff(lines: seq<string>, src: string, target: string)
    requires |src| > 0
    ensures Normalized(lines, src, target) == [] <==> forall i :: 0 <= i < |lines| ==> IsBlank(lines[i])
  {
    NonBlankEmptyIff(lines);
  }

  /** A non-blank target keeps every staged line non-blank. */
  lemma NormalizedHasNoBlank(lines: seq<string>, src: string, target: string)
    requires |src| > 0 && !IsBlank(target)
    ensures forall i :: 0 <= i < |Normalized(lines, src, target)| ==> !IsBlank(Normalized(lines, src, target)[i])
  {
    var kept := NonBlank(lines);
    forall i | 0 <= i < |kept| ensures !IsBlank(Rewrite(kept[i], src, target)) {
      NonBlankMembers(lines, kept[i]);
      if src != target {
        ReplaceAllKeepsNonBlank(kept[i], src, target);
      }
    }
  }

  /** A whitespace-only target can turn a kept line blank: the filter judges the line as
      read, not as rewritten. */
  lemma BlankTargetCanYieldBlankLine()
    ensures Normalized([";"], ";", " ") == [" "]
  {
    assert !IsBlank(";") by { assert !IsWhitespace(";"[0]); }
    NormalizedSingle(";", ";", " ");
    assert ";"[..1] == ";" && ";"[1..] == [];
    assert ReplaceAll(";", ";", " ") == " ";
  }
}
