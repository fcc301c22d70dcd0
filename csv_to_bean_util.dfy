/** `CsvToBeanUtil`: CSV beans read from and written to text whose separator may be any
    non-empty string. A staging pass drops blank lines and rewrites the separator, so the
    single-character CSV engine only ever sees a one-character separator. */
module CsvToBeanUtil {
  import opened Wrappers
  import opened Text
  import opened Lines

  /** `DEFAULT_SEPARATOR_CHAR`: the sentinel U+0001 the engine is given on staged text. */
  const DefaultSeparatorChar: char := '\U{1}'

  /** `DEFAULT_SEPARATOR_STR`: the sentinel as a one-character string. */
  const DefaultSeparatorStr: string := [DefaultSeparatorChar]

  /** An input stream, seen as the lines successive `readLine()` calls deliver. With
      `fault == Some(k)` the call after the first `k` lines throws an `IOException`
      (for `k == |lines|`, the call that would report the end of the stream). */
  datatype Input = Input(lines: seq<string>, fault: Option<nat>)

  /** The stream throws before it reports its end. */
  predicate Fails(input: Input) {
    input.fault.Some? && input.fault.value <= |input.lines|
  }

  /** The lines delivered before the stream ends or throws. */
  function Delivered(input: Input): (delivered: seq<string>)
    ensures delivered <= input.lines
    ensures !Fails(input) ==> delivered == input.lines
  {
    if Fails(input) then input.lines[..input.fault.value] else input.lines
  }

  /** The opencsv reader, `CsvToBeanBuilder(...).withSeparator(c).build().parse()`, over
      the staged lines; `None` when it throws. */
  type Parser<T> = (seq<string>, char) -> Option<seq<T>>

  /** The opencsv writer, `StatefulBeanToCsvBuilder(...).withSeparator(c)...write(beans)`,
      as the lines it emits; `None` when it throws. */
  type Serializer<-T> = (seq<T>, char) -> Option<seq<string>>

  /** The engine's outcome as the utility reports it: an exception becomes a failure. */
  function EngineResult<T>(parsed: Option<seq<T>>): Result<seq<T>> {
    if parsed.Some? then Ok(parsed.value) else Failure
  }

  /** `toCanProcessFile(InputStream, ...)`: the contents of the staging file it returns,
      `Ok(None)` for its `null` result, or the exception it raises. */
  function NormalizeSpec(input: Input, src: string, target: string): (r: Result<Option<seq<string>>>)
    ensures r.IllegalArgument? <==> src == [] || target == []
    ensures r.Failure? <==> src != [] && target != [] && Fails(input)
    ensures r.Ok? && r.value.Some? ==> r.value.value != []
  {
    if src == [] || target == [] then IllegalArgument
    else if Fails(input) then Failure
    else if NonBlank(input.lines) == [] then Ok(None)
    else Ok(Some(Normalized(input.lines, src, target)))
  }

  /** The staging file that `toCanProcessFile` as written leaves behind: its `finally`
      deletes the file only while no non-blank line has been read, so a stream that throws
      after a non-blank line leaves it holding the lines staged so far. */
  function LeakedAsWritten(input: Input, src: string, target: string): (leaked: Option<seq<string>>)
    ensures leaked.Some? ==> NormalizeSpec(input, src, target) == Failure && leaked.value != []
  {
    if src != [] && target != [] && Fails(input) && NonBlank(Delivered(input)) != [] then
      Some(Normalized(Delivered(input), src, target))
    else
      None
  }

  /** One read path: stage the input (blank lines dropped, `src` rewritten to `target`),
      then hand the staged lines to the engine unless nothing was staged. */
  function StagedParse<T>(input: Input, src: string, target: string, sep: char, parse: Parser<T>): (r: Result<seq<T>>)
    requires |src| > 0
    ensures !r.IllegalArgument?
    ensures r.Ok? ==> !Fails(input)
    ensures r.Ok? && NonBlank(input.lines) != [] ==> parse(Normalized(input.lines, src, target), sep) == Some(r.value)
  {
    if Fails(input) then Failure
    else if NonBlank(input.lines) == [] then Ok([])
    else EngineResult(parse(Normalized(input.lines, src, target), sep))
  }

  /** `toBeanList(InputStream, ...)`: a separator of one UTF-16 unit takes the
      single-character path, a longer one the path through the sentinel. */
  function ReadSpec<T>(input: Input, separator: string, parse: Parser<T>): (r: Result<seq<T>>)
    ensures r.IllegalArgument? <==> separator == []
  {
    if separator == [] then IllegalArgument
    else if Utf16Units(separator) == 1 then StagedParse(input, separator, separator, separator[0], parse)
    else StagedParse(input, separator, DefaultSeparatorStr, DefaultSeparatorChar, parse)
  }

  /** `writeBeansToFile`: the destination's new contents, or the exception raised. The
      serialised lines are staged and then read back through a stream that throws as
      `stagingFault` says. */
  function WriteSpec<T>(beans: seq<T>, separator: string, serialize: Serializer<T>, stagingFault: Option<nat>): (r: Result<seq<string>>)
    ensures r.IllegalArgument? <==> separator == []
    ensures r.Ok? ==> serialize(beans, DefaultSeparatorChar).Some?
  {
    if separator == [] then IllegalArgument
    else
      var written := serialize(beans, DefaultSeparatorChar);
      if written.None? then Failure
      else
        var normalized := NormalizeSpec(Input(written.value, stagingFault), DefaultSeparatorStr, separator);
        if normalized.Ok? && normalized.value.None? then Ok([])
        else if normalized.Ok? then Ok(normalized.value.value)
        else Failure
  }

  /** The normaliser's staging file that `writeBeansToFile` as written leaves behind: it
      calls the as-written normaliser, and its own `finally` deletes only `correctFile`,
      which is still `null` when the normaliser throws. */
  function WriteLeakedAsWritten<T>(beans: seq<T>, separator: string, serialize: Serializer<T>, stagingFault: Option<nat>): (leaked: Option<seq<string>>)
    ensures leaked.Some? ==> WriteSpec(beans, separator, serialize, stagingFault) == Failure && leaked.value != []
  {
    var written := serialize(beans, DefaultSeparatorChar);
    if separator == [] || written.None? then None
    else LeakedAsWritten(Input(written.value, stagingFault), DefaultSeparatorStr, separator)
  }

  lemma SentinelIsOneUnit()
    ensures Utf16Units(DefaultSeparatorStr) == 1
    ensures !IsBlank(DefaultSeparatorStr)
  {
    assert DefaultSeparatorStr[1..] == [];
    assert !IsWhitespace(DefaultSeparatorStr[0]);
  }

  /** The normaliser returns `null` exactly when the arguments are valid, the stream does
      not throw and every line it delivers is blank. */
  lemma NormalizeNullIff(input: Input, src: string, target: string)
    ensures NormalizeSpec(input, src, target) == Ok(None)
      <==> src != [] && target != [] && !Fails(input)
           && forall i :: 0 <= i < |input.lines| ==> IsBlank(input.lines[i])
  {
    NonBlankEmptyIff(input.lines);
  }

  /** A staging file, when returned, holds the non-blank lines in order, each with every
      occurrence of `src` literally replaced by `target`; it is never empty. */
  lemma NormalizeStagesRewrittenLines(input: Input, src: string, target: string)
    requires NormalizeSpec(input, src, target).Ok? && NormalizeSpec(input, src, target).value.Some?
    ensures var staged := NormalizeSpec(input, src, target).value.value;
      var kept := NonBlank(input.lines);
      |staged| == |kept| > 0
      && forall i :: 0 <= i < |kept| ==> staged[i] == ReplaceAll(kept[i], src, target)
  {
    var kept := NonBlank(input.lines);
    forall i | 0 <= i < |kept| ensures Rewrite(kept[i], src, target) == ReplaceAll(kept[i], src, target) {
      RewriteIsReplaceAll(kept[i], src, target);
    }
  }

  /** With equal separators the staging file is the input with its blank lines removed. */
  lemma NormalizeSameSeparatorCopies(input: Input, sep: string)
    requires sep != [] && !Fails(input)
    ensures NormalizeSpec(input, sep, sep) == if NonBlank(input.lines) == [] then Ok(None) else Ok(Some(NonBlank(input.lines)))
  {
    NormalizedSameSeparator(input.lines, sep);
  }

  /** Input holding only blank lines reads as an empty list on either path, whatever the
      engine would do: the parser is never consulted. */
  lemma ReadBlankInputNeverParses<T>(input: Input, separator: string, parse: Parser<T>, other: Parser<T>)
    requires separator != [] && !Fails(input)
    requires forall i :: 0 <= i < |input.lines| ==> IsBlank(input.lines[i])
    ensures ReadSpec(input, separator, parse) == Ok([])
    ensures ReadSpec(input, separator, parse) == ReadSpec(input, separator, other)
  {
    NonBlankEmptyIff(input.lines);
  }

  /** A separator of one UTF-16 unit: the engine gets the non-blank lines unchanged and
      that character as its separator. */
  lemma ReadSingleCharPath<T>(input: Input, separator: string, parse: Parser<T>)
    requires separator != [] && Utf16Units(separator) == 1
    requires !Fails(input) && NonBlank(input.lines) != []
    ensures |separator| == 1
    ensures ReadSpec(input, separator, parse) == EngineResult(parse(NonBlank(input.lines), separator[0]))
  {
    NormalizedSameSeparator(input.lines, separator);
  }

  /** A longer separator: the engine gets the non-blank lines with the separator literally
      replaced by the sentinel, and the sentinel as its separator. */
  lemma ReadMultiCharPath<T>(input: Input, separator: string, parse: Parser<T>)
    requires Utf16Units(separator) > 1
    requires !Fails(input) && NonBlank(input.lines) != []
    ensures var kept := NonBlank(input.lines);
      ReadSpec(input, separator, parse)
      == EngineResult(parse(seq(|kept|, i requires 0 <= i < |kept| => ReplaceAll(kept[i], separator, DefaultSeparatorStr)), DefaultSeparatorChar))
  {
    var kept := NonBlank(input.lines);
    var staged := Normalized(input.lines, separator, DefaultSeparatorStr);
    var replaced := seq(|kept|, i requires 0 <= i < |kept| => ReplaceAll(kept[i], separator, DefaultSeparatorStr));
    forall i | 0 <= i < |kept| ensures staged[i] == replaced[i] {
      RewriteIsReplaceAll(kept[i], separator, DefaultSeparatorStr);
    }
    assert staged == replaced;
  }

  /** Serialised output without a non-blank line publishes an existing, empty file. */
  lemma WriteEmptyPublishesEmptyFile<T>(beans: seq<T>, separator: string, serialize: Serializer<T>, stagingFault: Option<nat>)
    requires separator != []
    requires serialize(beans, DefaultSeparatorChar).Some?
    requires var written := serialize(beans, DefaultSeparatorChar).value;
      !Fails(Input(written, stagingFault)) && forall i :: 0 <= i < |written| ==> IsBlank(written[i])
    ensures WriteSpec(beans, separator, serialize, stagingFault) == Ok([])
  {
    NonBlankEmptyIff(serialize(beans, DefaultSeparatorChar).value);
  }

  /** Otherwise the destination holds the serialised non-blank lines with every sentinel
      replaced by the caller's separator, and none of them is blank when the separator
      is not blank. */
  lemma WritePublishesRewrittenLines<T>(beans: seq<T>, separator: string, serialize: Serializer<T>, stagingFault: Option<nat>)
    requires separator != []
    requires serialize(beans, DefaultSeparatorChar).Some?
    requires var written := serialize(beans, DefaultSeparatorChar).value;
      !Fails(Input(written, stagingFault)) && NonBlank(written) != []
    ensures var kept := NonBlank(serialize(beans, DefaultSeparatorChar).value);
      var published := WriteSpec(beans, separator, serialize, stagingFault);
      published.Ok? && |published.value| == |kept| > 0
      && (forall i :: 0 <= i < |kept| ==> published.value[i] == ReplaceAll(kept[i], DefaultSeparatorStr, separator))
      && (!IsBlank(separator) ==> forall i :: 0 <= i < |kept| ==> !IsBlank(published.value[i]))
  {
    var written := serialize(beans, DefaultSeparatorChar).value;
    NormalizeStagesRewrittenLines(Input(written, stagingFault), DefaultSeparatorStr, separator);
    if !IsBlank(separator) {
      NormalizedHasNoBlank(written, DefaultSeparatorStr, separator);
    }
  }

  /** Reading back what was written with a separator longer than one unit gives the engine
      exactly what it would get from its own serialised output, blank lines dropped,
      provided the separator is not blank, neither it nor any serialised line holds a line
      terminator (a published line is split again by `readLine`), and its first character
      occurs in no serialised line.
      The engine's own round trip then decides whether the beans come back. */
  lemma WriteThenRead<T>(beans: seq<T>, separator: string, serialize: Serializer<T>, parse: Parser<T>)
    requires Utf16Units(separator) > 1 && !IsBlank(separator)
    requires !HasLineTerminator(separator)
    requires serialize(beans, DefaultSeparatorChar).Some?
    requires var written := serialize(beans, DefaultSeparatorChar).value;
      forall i, j :: 0 <= i < |written| && 0 <= j < |written[i]| ==> written[i][j] != separator[0]
    requires var written := serialize(beans, DefaultSeparatorChar).value;
      forall i :: 0 <= i < |written| ==> !HasLineTerminator(written[i])
    ensures var published := WriteSpec(beans, separator, serialize, None);
      published.Ok?
      && ReadSpec(Input(published.value, None), separator, parse)
         == StagedParse(Input(serialize(beans, DefaultSeparatorChar).value, None), DefaultSeparatorStr, DefaultSeparatorStr, DefaultSeparatorChar, parse)
  {
    var written := serialize(beans, DefaultSeparatorChar).value;
    var kept := NonBlank(written);
    SentinelIsOneUnit();
    assert separator != DefaultSeparatorStr;
    NormalizedSameSeparator(written, DefaultSeparatorStr);
    if kept != [] {
      var published := Normalized(written, DefaultSeparatorStr, separator);
      NormalizedHasNoBlank(written, DefaultSeparatorStr, separator);
      NonBlankOfNonBlank(published);
      var back := Normalized(published, separator, DefaultSeparatorStr);
      forall i | 0 <= i < |kept| ensures back[i] == kept[i] {
        NonBlankMembers(written, kept[i]);
        var k :| 0 <= k < |written| && written[k] == kept[i];
        SentinelRoundTrip(kept[i], DefaultSeparatorChar, separator);
      }
      assert back == kept;
    }
  }

  /** A separator holding a line terminator splits a published line when it is read
      back: with `a`LF`b`, the line `x`U+0001`y` is published as `xa`LF`by`, which
      `readLine` delivers as `xa` and `by`, and those stage unchanged. */
  lemma LineTerminatorInSeparatorSplitsLine()
    ensures ReplaceAll("x\U{1}y", DefaultSeparatorStr, "a\nb") == "xa\nby"
    ensures Normalized(["xa", "by"], "a\nb", DefaultSeparatorStr) == ["xa", "by"]
  {
    var c := DefaultSeparatorStr;
    assert "y"[..1][0] == 'y' && "y"[1..] == [];
    assert "\U{1}y"[..1] == c && "\U{1}y"[1..] == "y";
    assert "x\U{1}y"[..1][0] == 'x' && "x\U{1}y"[1..] == "\U{1}y";
    assert ReplaceAll("x\U{1}y", c, "a\nb") == "x" + ("a\nb" + ("y" + ReplaceAll([], c, "a\nb")));
    assert !IsBlank("xa") by { assert !IsWhitespace("xa"[0]); }
    assert !IsBlank("by") by { assert !IsWhitespace("by"[0]); }
    NormalizedAppend(["xa"], ["by"], "a\nb", c);
    assert ["xa", "by"] == ["xa"] + ["by"];
    NormalizedSingle("xa", "a\nb", c);
    NormalizedSingle("by", "a\nb", c);
  }

  /** A separator that can overlap the end of a field is not restored: fields `xa` and `y`
      hold no `aa`, yet written with `aa` and read back they become `x` and `ay`. */
  lemma OverlappingSeparatorBreaksRoundTrip()
    ensures ReplaceAll("xa\U{1}y", DefaultSeparatorStr, "aa") == "xaaay"
    ensures ReplaceAll("xaaay", "aa", DefaultSeparatorStr) == "x\U{1}ay"
  {
    OverlapWritten();
    OverlapReadBack();
  }

  lemma OverlapWritten()
    ensures ReplaceAll("xa\U{1}y", DefaultSeparatorStr, "aa") == "xaaay"
  {
    var c := DefaultSeparatorStr;
    assert "y"[..1][0] == 'y' && "y"[1..] == [];
    assert ReplaceAll("y", c, "aa") == "y" + ReplaceAll([], c, "aa") == "y";
    assert "\U{1}y"[..1] == c && "\U{1}y"[1..] == "y";
    assert ReplaceAll("\U{1}y", c, "aa") == "aa" + ReplaceAll("y", c, "aa") == "aay";
    assert "a\U{1}y"[..1][0] == 'a' && "a\U{1}y"[1..] == "\U{1}y";
    assert ReplaceAll("a\U{1}y", c, "aa") == "a" + ReplaceAll("\U{1}y", c, "aa") == "aaay";
    assert "xa\U{1}y"[..1][0] == 'x' && "xa\U{1}y"[1..] == "a\U{1}y";
    assert ReplaceAll("xa\U{1}y", c, "aa") == "x" + ReplaceAll("a\U{1}y", c, "aa");
  }

  lemma OverlapReadBack()
    ensures ReplaceAll("xaaay", "aa", DefaultSeparatorStr) == "x\U{1}ay"
  {
    var c := DefaultSeparatorStr;
    assert ReplaceAll("y", "aa", c) == "y";
    assert "ay"[..2][1] == 'y' && "ay"[1..] == "y";
    assert ReplaceAll("ay", "aa", c) == "a" + ReplaceAll("y", "aa", c) == "ay";
    assert "aaay"[..2] == "aa" && "aaay"[2..] == "ay";
    assert ReplaceAll("aaay", "aa", c) == c + ReplaceAll("ay", "aa", c) == "\U{1}ay";
    assert "xaaay"[..2][0] == 'x' && "xaaay"[1..] == "aaay";
    assert ReplaceAll("xaaay", "aa", c) == "x" + ReplaceAll("aaay", "aa", c);
  }

  /** A stream that throws right after the non-blank line `a,b` leaves, as written, a
      staging file holding that line with its comma rewritten. */
  lemma StagingLeakWitness()
    ensures LeakedAsWritten(Input(["a,b"], Some(1)), ",", DefaultSeparatorStr) == Some(["a\U{1}b"])
  {
    var input := Input(["a,b"], Some(1));
    assert Delivered(input) == ["a,b"];
    assert !IsBlank("a,b") by { assert !IsWhitespace("a,b"[0]); }
    NormalizedSingle("a,b", ",", DefaultSeparatorStr);
    assert "a,b"[..1] != "," && "a,b"[1..] == ",b";
    assert ",b"[..1] == "," && ",b"[1..] == "b";
    assert "b"[..1] != "," && "b"[1..] == [];
    assert ReplaceAll("a,b", ",", DefaultSeparatorStr) == "a\U{1}b";
  }

  /** The same leak seen from `writeBeansToFile`: the engine emits `a`U+0001`b`, reading the
      staging file back throws after that line, and the normaliser's file, holding `a,b`,
      is left behind while the call fails. */
  lemma WriteLeakWitness()
    ensures var serialize: Serializer<int> := (beans: seq<int>, c: char) => Some(["a\U{1}b"]);
      WriteSpec([], ",", serialize, Some(1)) == Failure
      && WriteLeakedAsWritten([], ",", serialize, Some(1)) == Some(["a,b"])
  {
    var input := Input(["a\U{1}b"], Some(1));
    assert Delivered(input) == ["a\U{1}b"];
    assert !IsBlank("a\U{1}b") by { assert !IsWhitespace("a\U{1}b"[0]); }
    NormalizedSingle("a\U{1}b", DefaultSeparatorStr, ",");
    assert "a\U{1}b"[..1] != DefaultSeparatorStr && "a\U{1}b"[1..] == "\U{1}b";
    assert "\U{1}b"[..1] == DefaultSeparatorStr && "\U{1}b"[1..] == "b";
    assert "b"[..1] != DefaultSeparatorStr && "b"[1..] == [];
    assert ReplaceAll("a\U{1}b", DefaultSeparatorStr, ",") == "a,b";
  }

  /** Deleting a file created before another one leaves only the later one added. */
  lemma DeleteEarlierFile(m: map<nat, seq<string>>, a: nat, b: nat, x: seq<string>, y: seq<string>)
    requires a !in m && a != b
    ensures m[a := x][b := y] - {a} == m[b := y]
  {
  }

  /** The staging directory and the caller's destination file. */
  class FileSystem {
    /** Live staging files, by id, with the lines each holds. */
    var staging: map<nat, seq<string>>
    /** The destination file's lines; `None` while it does not exist. */
    var dest: Option<seq<string>>
    /** The next unused staging id; stands for the random UUID of `getTempFile()`. */
    var nextId: nat

    ghost predicate Valid()
      reads this
    {
      forall id :: id in staging ==> id < nextId
    }

    constructor (initialDest: Option<seq<string>>)
      ensures Valid() && staging == map[] && dest == initialDest
    {
      staging := map[];
      dest := initialDest;
      nextId := 0;
    }

    /** `getTempFile()` and `FileUtils.openOutputStream`: a fresh, empty staging file. */
    method CreateStaging() returns (id: nat)
      requires Valid()
      modifies this
      ensures Valid() && dest == old(dest)
      ensures id == old(nextId) && id !in old(staging) && nextId == id + 1
      ensures staging == old(staging)[id := []]
    {
      id := nextId;
      nextId := nextId + 1;
      staging := staging[id := []];
    }

    /** `FileUtils.deleteQuietly`: removes the file if there is one; `None` is `null`. */
    method DeleteQuietly(file: Option<nat>)
      requires Valid()
      modifies this
      ensures Valid() && dest == old(dest) && nextId == old(nextId)
      ensures staging == if file.Some? then old(staging) - {file.value} else old(staging)
    {
      if file.Some? {
        staging := staging - {file.value};
      }
    }

    /** `tempWriter.append(line); tempWriter.newLine()`. */
    method AppendLine(id: nat, line: string)
      requires Valid() && id in staging
      modifies this
      ensures Valid() && dest == old(dest) && nextId == old(nextId)
      ensures staging == old(staging)[id := old(staging)[id] + [line]]
    {
      staging := staging[id := staging[id] + [line]];
    }

    /** The engine writing its serialised lines into a staging file. */
    method WriteStaging(id: nat, lines: seq<string>)
      requires Valid() && id in staging
      modifies this
      ensures Valid() && dest == old(dest) && nextId == old(nextId)
      ensures staging == old(staging)[id := lines]
    {
      staging := staging[id := lines];
    }

    /** `destFile.createNewFile()`: creates an empty destination if there is none. */
    method CreateNewDestFile() returns (created: bool)
      requires Valid()
      modifies this
      ensures Valid() && staging == old(staging) && nextId == old(nextId)
      ensures created == old(dest).None?
      ensures dest == if created then Some([]) else old(dest)
    {
      created := dest.None?;
      if created {
        dest := Some([]);
      }
    }

    /** `destFile.delete()`. */
    method DeleteDestFile()
      requires Valid()
      modifies this
      ensures Valid() && staging == old(staging) && nextId == old(nextId)
      ensures dest == None
    {
      dest := None;
    }

    /** `FileUtils.copyFile(correctFile, destFile)`. */
    method CopyFileToDest(id: nat)
      requires Valid() && id in staging
      modifies this
      ensures Valid() && staging == old(staging) && nextId == old(nextId)
      ensures dest == Some(staging[id])
    {
      dest := Some(staging[id]);
    }

    /** The `while ((tempString = bufferedReader.readLine()) != null)` loop shared by the
        normaliser and both read paths: skip blank lines, clear `isNullFile` on the first
        kept line, rewrite `src` to `target` unless they are equal, append to the staging
        file. `failed` is the `IOException` the stream throws. */
    method StageLines(input: Input, src: string, target: string, id: nat) returns (isNullFile: bool, failed: bool)
      requires Valid() && |src| > 0 && |target| > 0
      requires id in staging && staging[id] == []
      modifies this
      ensures Valid() && dest == old(dest) && nextId == old(nextId)
      ensures failed == Fails(input)
      ensures isNullFile == (NonBlank(Delivered(input)) == [])
      ensures staging == old(staging)[id := Normalized(Delivered(input), src, target)]
    {
      isNullFile, failed := true, false;
      var i := 0;
      assert input.lines[..0] == [];
      assert Normalized([], src, target) == [];
      assert old(staging)[id := []] == staging;
      while true
        invariant 0 <= i <= |Delivered(input)|
        invariant Valid() && dest == old(dest) && nextId == old(nextId)
        invariant !failed
        invariant isNullFile == (NonBlank(input.lines[..i]) == [])
        invariant staging == old(staging)[id := Normalized(input.lines[..i], src, target)]
        decreases |Delivered(input)| - i
      {
        if input.fault == Some(i) {
          failed := true;
          break;
        }
        if i == |input.lines| {
          break;
        }
        var line := input.lines[i];
        NormalizedPrefixStep(input.lines, i, src, target);
        i := i + 1;
        if IsBlank(line) {
          continue;
        }
        isNullFile := false;
        if src != target {
          line := ReplaceAll(line, src, target);
        }
        AppendLine(id, line);
      }
      assert input.lines[..i] == Delivered(input);
    }

    /** `toCanProcessFile(InputStream, encode, srcString, targetString)`, with the staging
        file deleted on every path that does not return it. */
    method ToCanProcessFile(input: Input, src: string, target: string) returns (r: Result<Option<nat>>)
      requires Valid()
      modifies this
      ensures Valid() && dest == old(dest)
      ensures match NormalizeSpec(input, src, target)
        case Ok(Some(staged)) => r == Ok(Some(old(nextId))) && staging == old(staging)[old(nextId) := staged]
        case Ok(None) => r == Ok(None) && staging == old(staging)
        case IllegalArgument => r == IllegalArgument && staging == old(staging) && nextId == old(nextId)
        case Failure => r == Failure && staging == old(staging)
    {
      if src == [] || target == [] {
        r := IllegalArgument;
        return;
      }
      var tempFile := CreateStaging();
      var isNullFile, failed := StageLines(input, src, target, tempFile);
      if failed {
        r := Failure;
      } else if isNullFile {
        r := Ok(None);
      } else {
        r := Ok(Some(tempFile));
      }
      if isNullFile || failed {
        DeleteQuietly(Some(tempFile));
        assert staging == old(staging);
      }
    }

    /** `toCanProcessFile(InputStream, ...)` as written: its `finally` deletes the staging
        file only while `isNullFile` holds, so a failure after a non-blank line leaks it. */
    method ToCanProcessFileAsWritten(input: Input, src: string, target: string) returns (r: Result<Option<nat>>)
      requires Valid()
      modifies this
      ensures Valid() && dest == old(dest)
      ensures match NormalizeSpec(input, src, target)
        case Ok(Some(staged)) => r == Ok(Some(old(nextId))) && staging == old(staging)[old(nextId) := staged]
        case Ok(None) => r == Ok(None) && staging == old(staging)
        case IllegalArgument => r == IllegalArgument && staging == old(staging) && nextId == old(nextId)
        case Failure => (r == Failure
          && staging == (if LeakedAsWritten(input, src, target).Some?
                         then old(staging)[old(nextId) := LeakedAsWritten(input, src, target).value]
                         else old(staging)))
    {
      if src == [] || target == [] {
        r := IllegalArgument;
        return;
      }
      var tempFile := CreateStaging();
      var isNullFile, failed := StageLines(input, src, target, tempFile);
      if failed {
        r := Failure;
      } else if isNullFile {
        r := Ok(None);
      } else {
        r := Ok(Some(tempFile));
      }
      if isNullFile {
        DeleteQuietly(Some(tempFile));
        assert staging == old(staging);
      }
    }

    /** `toCanProcessCsvFile`: normalise any separator of a local file to the sentinel.
        `file` is `None` when `FileUtils.openInputStream` fails; the file is opened before
        the normaliser looks at the separators, so that failure wins over an empty one. */
    method ToCanProcessCsvFile(file: Option<Input>, src: string) returns (r: Result<Option<nat>>)
      requires Valid()
      modifies this
      ensures Valid() && dest == old(dest)
      ensures file.None? ==> r == Failure && staging == old(staging) && nextId == old(nextId)
      ensures file.Some? ==> (match NormalizeSpec(file.value, src, DefaultSeparatorStr)
        case Ok(Some(staged)) => r == Ok(Some(old(nextId))) && staging == old(staging)[old(nextId) := staged]
        case Ok(None) => r == Ok(None) && staging == old(staging)
        case IllegalArgument => r == IllegalArgument && staging == old(staging) && nextId == old(nextId)
        case Failure => r == Failure && staging == old(staging))
    {
      if file.None? {
        r := Failure;
        return;
      }
      r := ToCanProcessFile(file.value, src, DefaultSeparatorStr);
    }

    /** `toCanProcessCsvFile` as written: it goes through the as-written normaliser and
        inherits its leak. */
    method ToCanProcessCsvFileAsWritten(file: Option<Input>, src: string) returns (r: Result<Option<nat>>)
      requires Valid()
      modifies this
      ensures Valid() && dest == old(dest)
      ensures file.None? ==> r == Failure && staging == old(staging) && nextId == old(nextId)
      ensures file.Some? ==> (match NormalizeSpec(file.value, src, DefaultSeparatorStr)
        case Ok(Some(staged)) => r == Ok(Some(old(nextId))) && staging == old(staging)[old(nextId) := staged]
        case Ok(None) => r == Ok(None) && staging == old(staging)
        case IllegalArgument => r == IllegalArgument && staging == old(staging) && nextId == old(nextId)
        case Failure => (r == Failure
          && staging == (if LeakedAsWritten(file.value, src, DefaultSeparatorStr).Some?
                         then old(staging)[old(nextId) := LeakedAsWritten(file.value, src, DefaultSeparatorStr).value]
                         else old(staging))))
    {
      if file.None? {
        r := Failure;
        return;
      }
      r := ToCanProcessFileAsWritten(file.value, src, DefaultSeparatorStr);
    }

    /** `singleSeparatorToBeanList`: stage the non-blank lines unchanged, parse them with
        the separator character, delete the staging file in `finally`. */
    method SingleSeparatorToBeanList<T>(input: Input, separator: char, parse: Parser<T>) returns (r: Result<seq<T>>)
      requires Valid()
      modifies this
      ensures Valid() && staging == old(staging) && dest == old(dest)
      ensures r == StagedParse(input, [separator], [separator], separator, parse)
    {
      var tempFile := CreateStaging();
      var isNullFile, failed := StageLines(input, [separator], [separator], tempFile);
      if failed {
        r := Failure;
      } else if isNullFile {
        r := Ok([]);
      } else {
        r := EngineResult(parse(staging[tempFile], separator));
      }
      DeleteQuietly(Some(tempFile));
    }

    /** `customSeparatorToBeanList`: stage the non-blank lines with the separator rewritten
        to the sentinel, parse them with the sentinel, delete the staging file in `finally`. */
    method CustomSeparatorToBeanList<T>(input: Input, separator: string, parse: Parser<T>) returns (r: Result<seq<T>>)
      requires Valid() && |separator| > 0
      modifies this
      ensures Valid() && staging == old(staging) && dest == old(dest)
      ensures r == StagedParse(input, separator, DefaultSeparatorStr, DefaultSeparatorChar, parse)
    {
      var tempFile := CreateStaging();
      var isNullFile, failed := StageLines(input, separator, DefaultSeparatorStr, tempFile);
      if failed {
        r := Failure;
      } else if isNullFile {
        r := Ok([]);
      } else {
        r := EngineResult(parse(staging[tempFile], DefaultSeparatorChar));
      }
      DeleteQuietly(Some(tempFile));
    }

    /** `toBeanList(InputStream, encode, separator, type)`: reject an empty separator,
        then dispatch on its length in UTF-16 units. */
    method ToBeanList<T>(input: Input, separator: string, parse: Parser<T>) returns (r: Result<seq<T>>)
      requires Valid()
      modifies this
      ensures Valid() && staging == old(staging) && dest == old(dest)
      ensures r == ReadSpec(input, separator, parse)
      ensures r == IllegalArgument ==> nextId == old(nextId)
    {
      if separator == [] {
        r := IllegalArgument;
        return;
      }
      if Utf16Units(separator) == 1 {
        assert separator == [separator[0]];
        r := SingleSeparatorToBeanList(input, separator[0], parse);
      } else {
        r := CustomSeparatorToBeanList(input, separator, parse);
      }
    }

    /** Lines 68-78 of `writeBeansToFile`: an empty destination for a `null`
        normalisation (created, or deleted and created again), a copy of the normalised
        file otherwise; a failed normalisation is passed on. */
    method Publish(normalized: Result<Option<nat>>) returns (r: Result<()>)
      requires Valid()
      requires normalized.Ok? && normalized.value.Some? ==> normalized.value.value in staging
      modifies this
      ensures Valid() && staging == old(staging) && nextId == old(nextId)
      ensures match normalized
        case Ok(None) => r == Ok(()) && dest == Some([])
        case Ok(Some(id)) => r == Ok(()) && dest == Some(staging[id])
        case IllegalArgument => r == Failure && dest == old(dest)
        case Failure => r == Failure && dest == old(dest)
    {
      if normalized.Ok? && normalized.value.None? {
        if dest.None? {
          var created := CreateNewDestFile();
        } else {
          DeleteDestFile();
          var created := CreateNewDestFile();
        }
        r := Ok(());
      } else if normalized.Ok? {
        CopyFileToDest(normalized.value.value);
        r := Ok(());
      } else {
        r := Failure;
      }
    }

    /** Lines 67-78 of `writeBeansToFile`: normalise the serialised lines from the sentinel
        to the caller's separator, then publish. `correctFile` is the normaliser's result
        as the `finally` sees it. */
    method NormalizeAndPublish(written: seq<string>, separator: string, stagingFault: Option<nat>)
      returns (r: Result<()>, correctFile: Option<nat>)
      requires Valid() && separator != []
      modifies this
      ensures Valid()
      ensures match NormalizeSpec(Input(written, stagingFault), DefaultSeparatorStr, separator)
        case Ok(Some(staged)) => (r == Ok(()) && dest == Some(staged) && correctFile == Some(old(nextId))
          && staging == old(staging)[old(nextId) := staged])
        case Ok(None) => r == Ok(()) && dest == Some([]) && correctFile == None && staging == old(staging)
        case IllegalArgument => false
        case Failure => r == Failure && dest == old(dest) && correctFile == None && staging == old(staging)
    {
      var normalized := ToCanProcessFile(Input(written, stagingFault), DefaultSeparatorStr, separator);
      correctFile := if normalized.Ok? then normalized.value else None;
      r := Publish(normalized);
    }

    /** The same with the as-written normaliser, whose staging file survives a read fault
        after a non-blank line. */
    method NormalizeAndPublishAsWritten(written: seq<string>, separator: string, stagingFault: Option<nat>)
      returns (r: Result<()>, correctFile: Option<nat>)
      requires Valid() && separator != []
      modifies this
      ensures Valid()
      ensures match NormalizeSpec(Input(written, stagingFault), DefaultSeparatorStr, separator)
        case Ok(Some(staged)) => (r == Ok(()) && dest == Some(staged) && correctFile == Some(old(nextId))
          && staging == old(staging)[old(nextId) := staged])
        case Ok(None) => r == Ok(()) && dest == Some([]) && correctFile == None && staging == old(staging)
        case IllegalArgument => false
        case Failure => (r == Failure && dest == old(dest) && correctFile == None
          && staging == (if LeakedAsWritten(Input(written, stagingFault), DefaultSeparatorStr, separator).Some?
                         then old(staging)[old(nextId) := LeakedAsWritten(Input(written, stagingFault), DefaultSeparatorStr, separator).value]
                         else old(staging)))
    {
      var normalized := ToCanProcessFileAsWritten(Input(written, stagingFault), DefaultSeparatorStr, separator);
      correctFile := if normalized.Ok? then normalized.value else None;
      r := Publish(normalized);
    }

    /** `writeBeansToFile`: serialise with the sentinel into a staging file, normalise the
        sentinel to the caller's separator, publish the result, and delete both staging
        files in `finally`. */
    method WriteBeansToFile<T>(beans: seq<T>, separator: string, serialize: Serializer<T>, stagingFault: Option<nat>)
      returns (r: Result<()>)
      requires Valid()
      modifies this
      ensures Valid() && staging == old(staging)
      ensures match WriteSpec(beans, separator, serialize, stagingFault)
        case Ok(published) => r == Ok(()) && dest == Some(published)
        case IllegalArgument => r == IllegalArgument && dest == old(dest) && nextId == old(nextId)
        case Failure => r == Failure && dest == old(dest)
    {
      if separator == [] {
        r := IllegalArgument;
        return;
      }
      var tempFile := CreateStaging();
      var correctFile: Option<nat> := None;
      var written := serialize(beans, DefaultSeparatorChar);
      if written.None? {
        r := Failure;
      } else {
        WriteStaging(tempFile, written.value);
        ghost var withSerialized := staging;
        r, correctFile := NormalizeAndPublish(staging[tempFile], separator, stagingFault);
        assert withSerialized - {tempFile} == old(staging);
      }
      DeleteQuietly(Some(tempFile));
      DeleteQuietly(correctFile);
    }

    /** `writeBeansToFile` as written: it calls the as-written normaliser, whose staging
        file survives a read fault after a non-blank line, since `correctFile` is still
        `null` when the `finally` runs. */
    method WriteBeansToFileAsWritten<T>(beans: seq<T>, separator: string, serialize: Serializer<T>, stagingFault: Option<nat>)
      returns (r: Result<()>)
      requires Valid()
      modifies this
      ensures Valid()
      ensures var leaked := WriteLeakedAsWritten(beans, separator, serialize, stagingFault);
        staging == if leaked.Some? then old(staging)[old(nextId) + 1 := leaked.value] else old(staging)
      ensures match WriteSpec(beans, separator, serialize, stagingFault)
        case Ok(published) => r == Ok(()) && dest == Some(published)
        case IllegalArgument => r == IllegalArgument && dest == old(dest) && nextId == old(nextId)
        case Failure => r == Failure && dest == old(dest)
    {
      if separator == [] {
        r := IllegalArgument;
        return;
      }
      var tempFile := CreateStaging();
      var correctFile: Option<nat> := None;
      var written := serialize(beans, DefaultSeparatorChar);
      if written.None? {
        r := Failure;
      } else {
        WriteStaging(tempFile, written.value);
        ghost var withSerialized := staging;
        ghost var leaked := LeakedAsWritten(Input(written.value, stagingFault), DefaultSeparatorStr, separator);
        r, correctFile := NormalizeAndPublishAsWritten(staging[tempFile], separator, stagingFault);
        assert withSerialized - {tempFile} == old(staging);
        if leaked.Some? {
          DeleteEarlierFile(old(staging), tempFile, tempFile + 1, written.value, leaked.value);
        }
      }
      DeleteQuietly(Some(tempFile));
      DeleteQuietly(correctFile);
    }
  }
}
