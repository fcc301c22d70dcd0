# CsvToBeanUtil — a Dafny model of the separator-staging layer

`CsvToBeanUtil` reads CSV beans from text, and writes them to text, where the field
separator may be any non-empty string. The opencsv engine only understands a
one-character separator. So the utility makes a staging pass over the text. The pass
drops blank lines and rewrites every literal occurrence of the separator into the
sentinel U+0001 (`DEFAULT_SEPARATOR_STR` / `DEFAULT_SEPARATOR_CHAR`), or back.

This project models that layer:

- **The separator normaliser** (`toCanProcessFile(InputStream, …)`, `toCanProcessCsvFile`).
  It has a line loop, an `isNullFile` flag, a `null` "empty input" result and its staging
  file's lifecycle.
- **The read side** (`toBeanList(InputStream, …)` and its two private paths,
  `singleSeparatorToBeanList` and `customSeparatorToBeanList`).
- **The write side** (`writeBeansToFile`). It serialises with the sentinel, normalises
  the sentinel to the caller's separator, then publishes an empty destination or a copy
  of the normalised file.

Modules:

- `Wrappers` (`wrappers.dfy`): `Option`, and `Result` with three outcomes: a value,
  `IllegalArgument`, or `Failure`.
- `Text` (`text.dfy`): `Character.isWhitespace` / `StringUtils.isBlank` and the UTF-16
  length `toCharArray()` counts. It also holds the literal, left-to-right,
  non-overlapping replace-all done by a `Pattern.LITERAL` matcher with a
  `Matcher.quoteReplacement` replacement. Beside it is a reference definition: cut at
  the leftmost occurrences (`Split`), then glue the pieces back (`Join`).
- `Lines` (`lines.dfy`): the blank-line filter `NonBlank`, the per-line `Rewrite`, and
  `Normalized`, which is what a staging file holds after the pass.
- `CsvToBeanUtil` (`csv_to_bean_util.dfy`): the constants and the input-stream
  abstraction `Input`. Pure specifications of each public operation (`NormalizeSpec`,
  `ReadSpec`, `WriteSpec`) come with lemmas about them. The class `FileSystem` holds the
  live staging files (`staging`, by id) and the destination file (`dest`, `None` while
  it does not exist). Its methods are the source's loops and file operations. The
  normaliser, read and write methods are proved against `NormalizeSpec`,
  `StagedParse`/`ReadSpec` and `WriteSpec`, and each states which staging files remain.
  The file primitives state their effect on `staging` and `dest` directly.

What the model treats as parameters:

- The opencsv engine is passed in as a function. `Parser<T>` takes the staged lines and
  a separator char. `Serializer<T>` takes beans and a separator char and gives lines.
  Each returns `None` when the engine throws.
- An input stream is the sequence of lines `readLine()` delivers. An optional fault
  index says which `readLine()` call throws an `IOException`.

Where the code's comments or its evident intent differ from what it does, the model
follows the code:

- The comment at line 137 says a one-character separator is used for the conversion
  directly. In the code, `singleSeparatorToBeanList` still copies the input to a
  staging file and drops its blank lines. `SingleSeparatorToBeanList` models that.
- The `finally` blocks of the read paths (lines 350-353, 402-405) and of
  `writeBeansToFile` (lines 81-84) delete every staging file they create.
  `toCanProcessFile` deletes its file only while `isNullFile` holds, and its callers
  inherit that. See Findings.
- One might expect a round trip for any separator that does not occur in a field. That
  is not enough for the code's replace-all. `OverlappingSeparatorBreaksRoundTrip` and
  `LineTerminatorInSeparatorSplitsLine` give cases where it fails. `WriteThenRead`
  proves the round trip under conditions that are enough.

## Model

| member | source | states |
|---|---|---|
| `Text.IsWhitespace` | src/main/java/com/cyc/demo1/util/CsvToBeanUtil.java:229-229 | `Character.isWhitespace` as JDK 9 and later define it: the Unicode space, line and paragraph separators except the no-break spaces, plus U+0009..U+000D and U+001C..U+001F |
| `Text.IsBlank` | src/main/java/com/cyc/demo1/util/CsvToBeanUtil.java:229-229 | `StringUtils.isBlank`: the line is empty or every character is whitespace |
| `Text.HasLineTerminator` | src/main/java/com/cyc/demo1/util/CsvToBeanUtil.java:228-228 | the string holds LF or CR, where `readLine` ends a line |
| `Text.ReplaceAll` | src/main/java/com/cyc/demo1/util/CsvToBeanUtil.java:221-221 | `Pattern.compile(src, LITERAL).matcher(line).replaceAll(quoteReplacement(target))`: scan from the left, emit the target for each match and resume after it |
| `Lines.NonBlank` | src/main/java/com/cyc/demo1/util/CsvToBeanUtil.java:228-235 | the lines the loop keeps, in order: every line that is not blank |
| `Lines.Rewrite` | src/main/java/com/cyc/demo1/util/CsvToBeanUtil.java:219-241 | one kept line as written to the staging file: unchanged for equal separators, otherwise literally replaced |
| `Lines.Normalized` | src/main/java/com/cyc/demo1/util/CsvToBeanUtil.java:228-246 | the contents of a staging file after the loop: each kept line, rewritten, in order |
| `Lines.NormalizedPrefixStep` | src/main/java/com/cyc/demo1/util/CsvToBeanUtil.java:228-246 | one more line read: a blank line changes neither the kept lines nor the staged output; any other line makes the kept lines non-empty and is appended rewritten |
| `CsvToBeanUtil.DefaultSeparatorChar` | src/main/java/com/cyc/demo1/util/CsvToBeanUtil.java:27-27 | the sentinel character U+0001 |
| `CsvToBeanUtil.DefaultSeparatorStr` | src/main/java/com/cyc/demo1/util/CsvToBeanUtil.java:25-25 | the sentinel as a one-character string |
| `CsvToBeanUtil.Fails` | src/main/java/com/cyc/demo1/util/CsvToBeanUtil.java:228-228 | the stream throws an `IOException` before it reports its end |
| `CsvToBeanUtil.NormalizeSpec` | src/main/java/com/cyc/demo1/util/CsvToBeanUtil.java:200-268 | `IllegalArgument` exactly for an empty separator, `Failure` exactly for a throwing stream otherwise, and a returned staging file is never empty |
| `CsvToBeanUtil.LeakedAsWritten` | src/main/java/com/cyc/demo1/util/CsvToBeanUtil.java:260-266 | a staging file left behind as written exists only for a call that fails, and it is never empty |
| `CsvToBeanUtil.StagedParse` | src/main/java/com/cyc/demo1/util/CsvToBeanUtil.java:301-406 | one read path never raises `IllegalArgument`, succeeds only on a stream that does not throw, and when something was staged its beans are exactly what the engine returns for the staged lines |
| `CsvToBeanUtil.ReadSpec` | src/main/java/com/cyc/demo1/util/CsvToBeanUtil.java:126-145 | `IllegalArgument` exactly for an empty separator, on either path |
| `CsvToBeanUtil.WriteSpec` | src/main/java/com/cyc/demo1/util/CsvToBeanUtil.java:47-86 | `IllegalArgument` exactly for an empty separator; success only when the engine serialised the beans |
| `CsvToBeanUtil.WriteLeakedAsWritten` | src/main/java/com/cyc/demo1/util/CsvToBeanUtil.java:67-84 | the normaliser's file that `writeBeansToFile` leaves behind as written exists only for a write that fails, and it is never empty |
| `CsvToBeanUtil.SentinelIsOneUnit` | src/main/java/com/cyc/demo1/util/CsvToBeanUtil.java:25-27 | the sentinel is a single UTF-16 unit and is not whitespace, so the blank filter never drops a line because of it |
| `Text.Utf16Units` | src/main/java/com/cyc/demo1/util/CsvToBeanUtil.java:135-138 | the length `toCharArray()` reports lies between the number of characters and twice that |
| `Text.ReplaceAllUnchangedIff` | src/main/java/com/cyc/demo1/util/CsvToBeanUtil.java:219-241 | a line is left unchanged by the literal replace exactly when the source separator does not occur in it or is replaced by itself (both directions) |
| `Text.ReplaceAllNoMatch` | src/main/java/com/cyc/demo1/util/CsvToBeanUtil.java:238-241 | a line with no occurrence of the source separator is copied unchanged |
| `Text.ReplaceAllChanges` | src/main/java/com/cyc/demo1/util/CsvToBeanUtil.java:238-241 | a line that contains the source separator is always changed when the target differs |
| `Text.ReplaceAllSelf` | src/main/java/com/cyc/demo1/util/CsvToBeanUtil.java:219-222 | replacing a separator by itself changes nothing, so skipping the pattern for equal separators is only a shortcut |
| `Text.Split` | src/main/java/com/cyc/demo1/util/CsvToBeanUtil.java:221-221 | every line has a leftmost, non-overlapping split at a non-empty literal separator, and gluing the pieces back with the separator gives the line again |
| `Text.ReplaceAllJoinsSplit` | src/main/java/com/cyc/demo1/util/CsvToBeanUtil.java:239-239 | for any leftmost split of a line, the literal replace-all equals the pieces glued with the target; no regex or `$` meaning is involved |
| `Text.ReplaceAllIsJoinOfSplit` | src/main/java/com/cyc/demo1/util/CsvToBeanUtil.java:239-239 | for every line, the replace-all is the join of its leftmost split with the target string |
| `Text.ReplaceAllKeepsNonBlank` | src/main/java/com/cyc/demo1/util/CsvToBeanUtil.java:229-239 | a kept (non-blank) line stays non-blank after replacement by a non-blank target |
| `Text.SentinelRoundTrip` | src/main/java/com/cyc/demo1/util/CsvToBeanUtil.java:313-330 | writing the sentinel as a separator and reading that separator back as the sentinel restores the line, provided the separator's first character does not occur in it |
| `Lines.NonBlankAppend` | src/main/java/com/cyc/demo1/util/CsvToBeanUtil.java:228-246 | the blank filter works line by line and keeps order: filtering a concatenation concatenates the filtered parts |
| `Lines.NonBlankSingle` | src/main/java/com/cyc/demo1/util/CsvToBeanUtil.java:229-231 | a single line is dropped exactly when it is blank |
| `Lines.NonBlankMembers` | src/main/java/com/cyc/demo1/util/CsvToBeanUtil.java:228-246 | a line is in the output exactly when it is an input line that is not blank, so no blank line ever survives the filter |
| `Lines.NonBlankEmptyIff` | src/main/java/com/cyc/demo1/util/CsvToBeanUtil.java:228-235 | no line survives exactly when every input line is blank |
| `Lines.NonBlankOfNonBlank` | src/main/java/com/cyc/demo1/util/CsvToBeanUtil.java:375-387 | filtering text that holds no blank line changes nothing |
| `Lines.RewriteIsReplaceAll` | src/main/java/com/cyc/demo1/util/CsvToBeanUtil.java:219-241 | the per-line step, with or without the equal-separator shortcut, is the literal replace-all |
| `Lines.NormalizedAppend` | src/main/java/com/cyc/demo1/util/CsvToBeanUtil.java:228-246 | the staging pass works line by line: concatenated input gives concatenated staged output |
| `Lines.NormalizedSingle` | src/main/java/com/cyc/demo1/util/CsvToBeanUtil.java:228-246 | on one line, the pass drops it when blank and otherwise writes it rewritten |
| `Lines.NormalizedSameSeparator` | src/main/java/com/cyc/demo1/util/CsvToBeanUtil.java:219-241 | with equal separators the staged output is the input with its blank lines removed |
| `Lines.NormalizedEmptyIff` | src/main/java/com/cyc/demo1/util/CsvToBeanUtil.java:250-256 | the staged output is empty exactly when every input line is blank |
| `Lines.NormalizedHasNoBlank` | src/main/java/com/cyc/demo1/util/CsvToBeanUtil.java:228-246 | with a non-blank target, no staged line is blank |
| `Lines.BlankTargetCanYieldBlankLine` | src/main/java/com/cyc/demo1/util/CsvToBeanUtil.java:229-241 | the filter judges a line as read, so a whitespace target can write a blank line (`;` with `;` → ` ` stages ` `) |
| `CsvToBeanUtil.Delivered` | src/main/java/com/cyc/demo1/util/CsvToBeanUtil.java:228-228 | the lines read before the stream ends or throws are a prefix of its lines, and all of them when it does not throw |
| `CsvToBeanUtil.EngineResult` | src/main/java/com/cyc/demo1/util/CsvToBeanUtil.java:345-349 | the engine's outcome as the read paths report it: a thrown exception is `Failure`, returned beans are `Ok` (the catches at 345-349 and 397-400) |
| `CsvToBeanUtil.NormalizeNullIff` | src/main/java/com/cyc/demo1/util/CsvToBeanUtil.java:250-256 | the normaliser returns `null` exactly when both separators are non-empty, the stream does not throw and every line is blank (both directions) |
| `CsvToBeanUtil.NormalizeStagesRewrittenLines` | src/main/java/com/cyc/demo1/util/CsvToBeanUtil.java:228-246 | a returned staging file is never empty and holds the non-blank lines in order, each with every occurrence of the source separator literally replaced |
| `CsvToBeanUtil.NormalizeSameSeparatorCopies` | src/main/java/com/cyc/demo1/util/CsvToBeanUtil.java:219-241 | with equal separators the staging file is the input minus its blank lines, or `null` if nothing remains |
| `CsvToBeanUtil.ReadBlankInputNeverParses` | src/main/java/com/cyc/demo1/util/CsvToBeanUtil.java:339-392 | input with only blank lines reads as an empty list on either path, and the result does not depend on the engine, so the parser is never used |
| `CsvToBeanUtil.ReadSingleCharPath` | src/main/java/com/cyc/demo1/util/CsvToBeanUtil.java:357-406 | a one-unit separator hands the engine the non-blank lines unchanged, with that character as separator |
| `CsvToBeanUtil.ReadMultiCharPath` | src/main/java/com/cyc/demo1/util/CsvToBeanUtil.java:301-355 | a longer separator hands the engine the non-blank lines with the separator literally replaced by U+0001, with U+0001 as separator |
| `CsvToBeanUtil.WriteEmptyPublishesEmptyFile` | src/main/java/com/cyc/demo1/util/CsvToBeanUtil.java:67-74 | serialised output with no non-blank line publishes an existing, empty destination |
| `CsvToBeanUtil.WritePublishesRewrittenLines` | src/main/java/com/cyc/demo1/util/CsvToBeanUtil.java:62-78 | otherwise the destination holds the serialised non-blank lines in order with every sentinel replaced by the caller's separator; none is blank when the separator is not blank |
| `CsvToBeanUtil.WriteThenRead` | src/main/java/com/cyc/demo1/util/CsvToBeanUtil.java:47-86 | reading back what was written with a longer, non-blank separator, when neither the separator nor any serialised line holds a line terminator and the separator's first character is in no serialised line, gives the engine exactly the serialised non-blank lines with U+0001 |
| `CsvToBeanUtil.LineTerminatorInSeparatorSplitsLine` | src/main/java/com/cyc/demo1/util/CsvToBeanUtil.java:62-78 | with separator `a`LF`b` the line `x`U+0001`y` is published as `xa`LF`by`; the two lines `readLine` delivers from it stage unchanged as `xa` and `by` |
| `CsvToBeanUtil.OverlappingSeparatorBreaksRoundTrip` | src/main/java/com/cyc/demo1/util/CsvToBeanUtil.java:313-330 | fields `xa` and `y` contain no `aa`, but written with `aa` they read back as `x` and `ay` |
| `CsvToBeanUtil.StagingLeakWitness` | src/main/java/com/cyc/demo1/util/CsvToBeanUtil.java:260-266 | a stream that throws after the line `a,b` leaves, as written, a staging file holding `a`U+0001`b` |
| `CsvToBeanUtil.WriteLeakWitness` | src/main/java/com/cyc/demo1/util/CsvToBeanUtil.java:67-84 | when the engine emits `a`U+0001`b` and reading the staging file back throws after it, the write fails and, as written, the normaliser's file holding `a,b` is left behind |
| `CsvToBeanUtil.FileSystem.CreateStaging` | src/main/java/com/cyc/demo1/util/CsvToBeanUtil.java:408-410 | a fresh staging file, distinct from every live one, is created empty; nothing else changes |
| `CsvToBeanUtil.FileSystem.DeleteQuietly` | src/main/java/com/cyc/demo1/util/CsvToBeanUtil.java:82-83 | deletes the named staging file if any (`null` deletes nothing); nothing else changes |
| `CsvToBeanUtil.FileSystem.AppendLine` | src/main/java/com/cyc/demo1/util/CsvToBeanUtil.java:244-245 | one line is appended to one staging file; nothing else changes |
| `CsvToBeanUtil.FileSystem.WriteStaging` | src/main/java/com/cyc/demo1/util/CsvToBeanUtil.java:62-65 | the engine's lines become the staging file's contents; nothing else changes |
| `CsvToBeanUtil.FileSystem.CreateNewDestFile` | src/main/java/com/cyc/demo1/util/CsvToBeanUtil.java:69-73 | creates an empty destination exactly when there is none |
| `CsvToBeanUtil.FileSystem.DeleteDestFile` | src/main/java/com/cyc/demo1/util/CsvToBeanUtil.java:72-72 | the destination no longer exists |
| `CsvToBeanUtil.FileSystem.CopyFileToDest` | src/main/java/com/cyc/demo1/util/CsvToBeanUtil.java:76-76 | the destination's contents become the staging file's |
| `CsvToBeanUtil.FileSystem.StageLines` | src/main/java/com/cyc/demo1/util/CsvToBeanUtil.java:228-246 | the read loop: the staging file ends up holding `Normalized` of the lines read before the end or the fault, `isNullFile` holds exactly when none of them was non-blank, and the fault is reported exactly when the stream throws |
| `CsvToBeanUtil.FileSystem.ToCanProcessFile` | src/main/java/com/cyc/demo1/util/CsvToBeanUtil.java:200-268 | an empty separator is rejected before any staging file exists; otherwise the result matches `NormalizeSpec`; the staging file is kept only when returned and deleted on the `null` and the failure paths |
| `CsvToBeanUtil.FileSystem.ToCanProcessFileAsWritten` | src/main/java/com/cyc/demo1/util/CsvToBeanUtil.java:260-266 | the same, except that a failure after a non-blank line leaves the staging file behind (`LeakedAsWritten`) |
| `CsvToBeanUtil.FileSystem.ToCanProcessCsvFile` | src/main/java/com/cyc/demo1/util/CsvToBeanUtil.java:158-185 | a file that cannot be opened fails before the separators are looked at and creates nothing; otherwise the normaliser with U+0001 as target: matches `NormalizeSpec` and deletes every staging file it does not return |
| `CsvToBeanUtil.FileSystem.ToCanProcessCsvFileAsWritten` | src/main/java/com/cyc/demo1/util/CsvToBeanUtil.java:158-185 | the same through the as-written normaliser: a failure after a non-blank line leaves its staging file behind (`LeakedAsWritten`) |
| `CsvToBeanUtil.FileSystem.SingleSeparatorToBeanList` | src/main/java/com/cyc/demo1/util/CsvToBeanUtil.java:357-406 | stages without rewriting, returns an empty list for blank input, otherwise the engine's result on the staged lines; the staging file is gone on every path |
| `CsvToBeanUtil.FileSystem.CustomSeparatorToBeanList` | src/main/java/com/cyc/demo1/util/CsvToBeanUtil.java:301-355 | stages with the separator rewritten to U+0001, returns an empty list for blank input, otherwise the engine's result with U+0001; the staging file is gone on every path |
| `CsvToBeanUtil.FileSystem.ToBeanList` | src/main/java/com/cyc/demo1/util/CsvToBeanUtil.java:126-145 | rejects an empty separator before creating anything, dispatches on UTF-16 length, matches `ReadSpec`, and leaves no staging file and the destination untouched |
| `CsvToBeanUtil.FileSystem.WriteBeansToFile` | src/main/java/com/cyc/demo1/util/CsvToBeanUtil.java:47-86 | rejects an empty separator before creating anything; on success the destination exists and holds `WriteSpec`'s contents (empty for a `null` normalisation); on failure it is untouched; with the corrected normaliser no staging file remains on any path |
| `CsvToBeanUtil.FileSystem.WriteBeansToFileAsWritten` | src/main/java/com/cyc/demo1/util/CsvToBeanUtil.java:47-86 | the same outcomes and destination, through the as-written normaliser: exactly the file `WriteLeakedAsWritten` names is left behind, with the id after the writer's own staging file |
| `CsvToBeanUtil.FileSystem.Publish` | src/main/java/com/cyc/demo1/util/CsvToBeanUtil.java:68-78 | a `null` normalisation publishes an existing, empty destination, a returned file is copied to it, and a failed one leaves it untouched; staging files are not touched |
| `CsvToBeanUtil.FileSystem.NormalizeAndPublish` | src/main/java/com/cyc/demo1/util/CsvToBeanUtil.java:67-78 | the destination ends as `NormalizeSpec` of the serialised lines says; `correctFile` is the returned staging file, or `null` |
| `CsvToBeanUtil.FileSystem.NormalizeAndPublishAsWritten` | src/main/java/com/cyc/demo1/util/CsvToBeanUtil.java:67-78 | the same through the as-written normaliser, which leaves its file behind on a failure after a non-blank line while `correctFile` stays `null` |

## Findings

| source | as written | input that shows it | evidently intended | confidence | as-written member | corrected member |
|---|---|---|---|---|---|---|
| src/main/java/com/cyc/demo1/util/CsvToBeanUtil.java:260-266 | the `finally` of `toCanProcessFile` deletes the staging file only while `isNullFile` holds | a stream that delivers `a,b` and then throws an `IOException`: the call fails, the caller gets no file, and the staging file holding `a`U+0001`b` stays in the staging directory | the staging file is deleted on every path that does not return it, as the read paths (lines 350-353, 402-405) and `writeBeansToFile` (lines 81-84) do | not executed; high | `CsvToBeanUtil.FileSystem.ToCanProcessFileAsWritten` with `CsvToBeanUtil.StagingLeakWitness`; its callers `CsvToBeanUtil.FileSystem.ToCanProcessCsvFileAsWritten` and `CsvToBeanUtil.FileSystem.WriteBeansToFileAsWritten` with `CsvToBeanUtil.WriteLeakWitness` | `CsvToBeanUtil.FileSystem.ToCanProcessFile`, and its callers `CsvToBeanUtil.FileSystem.ToCanProcessCsvFile` and `CsvToBeanUtil.FileSystem.WriteBeansToFile` |

The callers inherit the leak. `toCanProcessCsvFile` returns what the normaliser returns.
In `writeBeansToFile`, a fault while the normaliser reads the writer's own staging file
back leaves the normaliser's file behind, because `correctFile` is still `null` when the
writer's `finally` runs. `ToCanProcessCsvFileAsWritten` and `WriteBeansToFileAsWritten`
model the callers as written, and they state the leaked file exactly.
`ToCanProcessCsvFile` and `WriteBeansToFile` call the corrected normaliser, and they
leave no staging file on any path.

## Left out

- The opencsv engine (`CsvToBeanBuilder`, `StatefulBeanToCsvBuilder`: quoting, headers,
  position binding, reflection) is a function parameter and is not re-specified. So are
  its options: unordered results, no quote character, the platform line end.
- `toBeanIterator` is left out. It is a thin wrapper that returns opencsv's lazy
  iterator over a stream the caller owns.
- Charset decoding and encoding, `readLine` terminator recognition and
  `System.lineSeparator()` are left out. Input and output are sequences of lines
  already split. The engine's serialised output is taken as the lines `readLine` later
  delivers from the writer's staging file. A destination file is the sequence of strings
  written to it, each followed by a line end.
- `toBeanList(File, …)` (lines 102-111) and `toCanProcessFile(File, …)` (lines 175-185)
  are not modelled as members of their own. Each opens the file and then delegates to
  the stream version, so on a file that opens it behaves as that version does on the
  file's lines. A file that cannot be opened fails with a wrapped `FileNotFoundException`
  before the separator is looked at. So on the `File` overloads an empty separator is
  rejected only after the file has been opened. `ToCanProcessCsvFile`, which goes through
  `toCanProcessFile(File, …)`, models this order: its `file` is `None` for a file that
  cannot be opened.
- The `Assert.notNull` guards on stream, charset, type, beans and file are left out,
  because Dafny values are never `null`. A `null` separator behaves like `""` in
  `StringUtils.isEmpty`, and only `""` is modelled.
- Failures of writes and file primitives are not modelled: `append`/`flush` on a full
  disk, and `createNewFile`, `delete` or `copyFile` failing or stopping partway.
  Modelled failures are the faults of the stream being read (the caller's input, or the
  writer's own staging file) and engine exceptions.
- The real filesystem, the `tempCsvBeanUtilTarget` directory and UUID names are
  abstracted. Staging files are a map from fresh ids to their lines. Buffering and flush
  timing are not modelled.
- The wrapping of exceptions into `RuntimeException` is one `Failure` outcome.
- Closing of the caller's stream by try-with-resources is left out, and so is
  concurrency.
- `IsWhitespace` follows `Character.isWhitespace` from JDK 9 on. Under JDK 8 (Unicode
  6.2), U+180E MONGOLIAN VOWEL SEPARATOR is also whitespace, so a line made of it would
  also be dropped there.
- Dafny's `char` is a Unicode scalar value. The UTF-16 length dispatch of `toBeanList` is
  modelled by `Utf16Units`. A separator holding an unpaired surrogate cannot be written
  down.
- CsvToBeanUtil.WriteThenRead: covers separators longer than one UTF-16 unit and stops
  at the engine. Three conditions are required. The separator is not blank. Neither it
  nor any serialised line holds LF or CR, because the published file is split into lines
  again by `readLine`, so a written string holding a line terminator re-reads as several
  lines (`LineTerminatorInSeparatorSplitsLine`). Its first character occurs in no
  serialised line. That is stronger than "the separator does not
  occur in a field", because the weaker condition does not suffice
  (`OverlappingSeparatorBreaksRoundTrip`). Whether the same beans come back is the
  engine's own round-trip property, which is outside this model. One-character
  separators are only parsed by the engine, so their round trip is the engine's
  property too.
