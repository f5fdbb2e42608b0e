# Images Filter — a verified model of the matching-and-copy engine

Images Filter is a small desktop tool. It reads a column of identifiers
from a spreadsheet or CSV file. It then searches an images folder
recursively for `.tif`/`.tiff` files whose base name is one of those
identifiers, and copies every match into an output folder. The copy keeps
the file's sub-directory relative to the images folder. The background job
`filter_and_copy_worker` reports to the window through three callbacks:

- a log line;
- progress, as (fraction, copied, total);
- the final result, (copied, total .tif files), or (None, None) after a
  fatal error.

The window keeps only the last ten log lines.

This project models that engine in Dafny and proves what it promises.

- `strings.dfy` (`Strings`): the pieces of Python the engine relies on.
  These are `str.strip`, ASCII `upper`/`lower`, `endswith`, and POSIX
  `os.path.splitext` and `os.path.join`.
- `column_letters.dfy` (`ColumnLetters`): `excel_col_to_index`, with its
  inverse `ColumnName`. The lemmas `ValueOfLetters`, `LettersOfValue` and
  `NameRoundTrip` prove the conversion is a bijection onto the canonical
  letters.
- `identifier_loader.dfy` (`IdentifierLoader`): picking the identifier
  column by letters or by header, and the set of base names built from it.
- `sequences.dfy` (`Sequences`): order-preserving filtering.
- `tree_scanner.dfy` (`TreeScanner`): the scan loop that counts qualifying
  files and collects matches. It is a method proved against the
  specification functions `Qualifying` and `Matching`. The inner loop over
  one directory's files is its own method, `ScanDirectory`, which the outer
  loop calls once per directory.
- `reporting.dfy` (`Reporting`): log lines, progress and results as one
  trace of events.
- `copy_executor.dfy` (`CopyExecutor`): the mirrored destination and the
  copy loop. The loop is a method proved against the specification
  function `CopyRun`. The file system is a value: a map from path to bytes,
  plus the set of directories created. What the environment does to each
  attempt is an input `faults`: directory creation fails, the copy fails,
  or neither.
- `worker.dfy` (`Worker`): the whole job, `FilterAndCopy`, proved equal to
  the function `Run`. Lemmas about `RunFrom` cover every outcome of reading
  the table.
- `log_view.dfy` (`LogView`): the ten-line log panel, as a class whose
  `Add` keeps the invariant "the lines shown are the ten most recent
  messages".

Some behaviour of the code is easy to overlook:

- Only the last extension is removed from an identifier, so an identifier
  can keep one of its own ("a.tar.gz" gives "a.tar";
  `Strings.StemStripsOnlyLast`).
- Without a header row, a blank selector is not refused by
  `excel_col_to_index`. It decodes to -1, and `iloc` reads -1 as the last
  column (`IdentifierLoader.BlankSelectorPicksLastColumn`). The window
  refuses a blank selector before starting the job.
- A match whose source path is its own destination (the output folder is
  the images folder) is not copied: `shutil.copy2` raises `SameFileError`,
  the attempt logs an error and the count stays (`CopyExecutor.SameFileFails`).
- Python's `os.path.splitext` does not treat a leading dot as an extension
  (`Strings.LeadingDotIsNotExtension`). So a file named ".tif" qualifies,
  and its base name is ".tif".

## Model

| member | source | states |
|---|---|---|
| Strings.Strip | Images-Filter.py:75 | `str.strip()`: the result is a piece of the input; everything before and after it is whitespace; a non-empty result neither starts nor ends with whitespace |
| Strings.IsSpace | Images-Filter.py:75 | Python's `str.isspace()` on ASCII: tab, line feed, vertical tab, form feed, carriage return, the separators 0x1C-0x1F and space (what `strip()` removes; see `Strings.Strip`) |
| Strings.StripBlank | Images-Filter.py:75 | stripping gives the empty string exactly for an all-whitespace cell |
| Strings.StripUnique | Images-Filter.py:75 | any piece of a string with blank surroundings and non-blank ends is what `strip()` returns |
| Strings.UpperPadded | Images-Filter.py:38 | upper-casing keeps whitespace padding as it is |
| Strings.StripPadded | Images-Filter.py:38 | whitespace added on either side does not change what `strip()` returns |
| Strings.Upper | Images-Filter.py:38 | `str.upper()` on ASCII, one character at a time (its meaning is stated by `Strings.UpperMeaning`) |
| Strings.UpperMeaning | Images-Filter.py:38 | the upper-cased string has the same length, no lower-case letter, and each character equals the original up to case |
| Strings.Lower | Images-Filter.py:90 | `str.lower()` on ASCII, one character at a time (its meaning is stated by `Strings.LowerMeaning`) |
| Strings.LowerMeaning | Images-Filter.py:90 | the lower-cased string has the same length, no upper-case letter, and each character equals the original up to case |
| Strings.EndsWith | Images-Filter.py:90 | `str.endswith`: the string's last characters are the suffix (used by `TreeScanner.IsTif`, whose meaning is stated by `TreeScanner.IsTifSuffix`) |
| Strings.Join | Images-Filter.py:97-119 | POSIX `os.path.join` of two parts (its meaning is stated by `Strings.JoinShape`) |
| Strings.JoinShape | Images-Filter.py:97-119 | the joined path ends with the second part; an absolute second part replaces the first; otherwise the first part comes first and the result is exactly one character longer than the two parts when a `/` is added, which happens exactly when the first part is non-empty and does not already end in `/`; the joint is then a `/` |
| Strings.StripIdempotent | Images-Filter.py:75 | stripping a cell the column already stripped changes nothing |
| Strings.SplitExt | Images-Filter.py:75 | `os.path.splitext`: root + extension is the input; the extension is empty or a single dot followed by no dot and no separator; a non-empty path keeps a non-empty root; an extension is split off exactly when the last path component has a dot after some character that is not a dot |
| Strings.RFind | Images-Filter.py:75 | the last index holding the character, or -1 when there is none |
| Strings.Stem | Images-Filter.py:75-92 | `os.path.splitext(p)[0]` (used at lines 75 and 92), the root that `Strings.SplitExt` describes (see also `Strings.StemStripsOnlyLast` and `Strings.LeadingDotIsNotExtension`) |
| Strings.StemStripsOnlyLast | Images-Filter.py:75 | only the last extension is removed: "a.tar.gz" gives "a.tar", and only a second split gives "a" |
| Strings.LeadingDotIsNotExtension | Images-Filter.py:92 | a name whose only dot is its first character has no extension |
| ColumnLetters.ExcelColToIndex | Images-Filter.py:37-44 | succeeds exactly when the upper-cased, stripped input is all A–Z, otherwise fails with the invalid-letter error; the index is at least -1, and -1 exactly for a blank input |
| ColumnLetters.Normalize | Images-Filter.py:38 | `str(col_name).upper().strip()` (its properties are stated by `ColumnLetters.NormalizePadded`, `NormalizeLetters` and `CaseInsensitive`) |
| ColumnLetters.ColumnValue | Images-Filter.py:39-43 | the loop's accumulator: each letter multiplies the value so far by 26 and adds its digit 1-26 (its meaning is stated by `ColumnLetters.ValueOfLetters`, `LettersOfValue` and `DecodeLetters`) |
| ColumnLetters.Letters | Images-Filter.py:40-43 | the inverse numeral is made of letters and has no more letters than its value |
| ColumnLetters.ValueOfLetters | Images-Filter.py:40-43 | the left fold of the letters for n gives back n |
| ColumnLetters.LettersOfValue | Images-Filter.py:40-43 | every letter string is the numeral of its own value, so the fold is one-to-one |
| ColumnLetters.StripLetters | Images-Filter.py:38 | stripping leaves a string of letters unchanged |
| ColumnLetters.UpperLetters | Images-Filter.py:38 | upper-casing leaves a string of capital letters unchanged |
| ColumnLetters.NormalizeLetters | Images-Filter.py:38 | normalising leaves canonical letters unchanged |
| ColumnLetters.DecodeLetters | Images-Filter.py:37-44 | canonical letters decode to their bijective base-26 value minus one |
| ColumnLetters.IndexRoundTrip | Images-Filter.py:37-44 | every zero-based index has column letters that decode back to it |
| ColumnLetters.NameRoundTrip | Images-Filter.py:37-44 | an accepted non-blank selector's index names exactly its normalised letters |
| ColumnLetters.FirstColumnExample | Images-Filter.py:37-44 | "A" is column 0 |
| ColumnLetters.LastSingleLetterExample | Images-Filter.py:37-44 | "Z" is column 25 |
| ColumnLetters.TwoLetterExample | Images-Filter.py:37-44 | "AA" is column 26 |
| ColumnLetters.CaseInsensitive | Images-Filter.py:38 | a lower-cased selector gives the same result as the original |
| ColumnLetters.NormalizePadded | Images-Filter.py:38 | whitespace around the selector disappears in its normalised (upper-cased, stripped) form |
| ColumnLetters.PaddingIgnored | Images-Filter.py:38 | whitespace around the selector gives the same result |
| ColumnLetters.BlankExample | Images-Filter.py:38-44 | the empty selector decodes to -1 |
| ColumnLetters.DigitExample | Images-Filter.py:41-42 | a selector holding a digit is refused |
| IdentifierLoader.FirstWhere | Images-Filter.py:72 | `list.index`: the position found satisfies the test and no earlier one does; when nothing is found, no position satisfies it |
| IdentifierLoader.Shown | Images-Filter.py:66 | `str(c)` of a header: a string header is itself, any other header is its printed form (used by `IdentifierLoader.ResolveByHeader`) |
| IdentifierLoader.ResolveByHeader | Images-Filter.py:66-73 | a column is found exactly when some header prints as the name, otherwise the not-found error; a string header equal to the name wins; failing that, the first header that prints as the name is used |
| IdentifierLoader.ResolvePosition | Images-Filter.py:63-64 | `iloc` by position: valid exactly for -width ≤ index < width; a negative index counts from the end; otherwise the out-of-range error |
| IdentifierLoader.ResolveColumn | Images-Filter.py:62-73 | a resolved column is a column of the table |
| IdentifierLoader.LoadBaseNames | Images-Filter.py:62-77 | succeeds exactly when the column resolves and one of its cells is not blank; on success the set is the base names of the resolved column's cells, non-empty and without ""; a resolution error is passed on; the empty-list error occurs exactly when every cell of the column is blank |
| IdentifierLoader.BaseNamesMembers | Images-Filter.py:75 | every identifier is the splitext root of a trimmed non-blank cell (never "", never starting with whitespace), and every non-blank cell contributes one |
| IdentifierLoader.BaseNames | Images-Filter.py:75-77 | the set of base names never holds "" and is empty exactly when every cell is blank |
| IdentifierLoader.BlankCellsIgnored | Images-Filter.py:75 | a blank cell, first or last, adds nothing |
| IdentifierLoader.ExactHeaderWins | Images-Filter.py:67-73 | with headers [5, "5"] the selector "5" picks the string header's column, not the first one that prints as "5" |
| IdentifierLoader.BlankSelectorPicksLastColumn | Images-Filter.py:62-64 | without a header row a blank selector selects the last column |
| TreeScanner.ScanAndMatch | Images-Filter.py:86-99 | the count is the number of qualifying files of the walk; the matches are exactly the qualifying files whose base name is an identifier, in walk order; so there are never more matches than the count |
| TreeScanner.ScanDirectory | Images-Filter.py:89-97 | the inner loop over one directory adds to the count exactly that directory's qualifying files and appends, in order, those whose base name is an identifier |
| TreeScanner.ScanStep | Images-Filter.py:89-97 | one more file name adds one to the count exactly when it is a .tif/.tiff name, and one record to the matches exactly when it also has an identifier as base name |
| TreeScanner.FileAt | Images-Filter.py:94-97 | the record kept for a file: its joined path, its directory's relative path and its name (stated by `TreeScanner.QualifyingInMembers`) |
| TreeScanner.QualifyingIn | Images-Filter.py:89-91 | one directory's .tif/.tiff files, in order (its meaning is stated by `TreeScanner.QualifyingInMembers` and `QualifyingInCount`) |
| TreeScanner.Qualifying | Images-Filter.py:88-91 | the .tif/.tiff files of the whole walk, in walk order (its meaning is stated by `TreeScanner.QualifyingMembers` and `QualifyingCount`) |
| TreeScanner.TifCount | Images-Filter.py:89-91 | how many of a directory's names are .tif/.tiff names (related to the scan's count by `TreeScanner.QualifyingInCount`) |
| TreeScanner.WalkTifCount | Images-Filter.py:88-91 | how many .tif/.tiff names the whole walk holds (related to the scan's count by `TreeScanner.QualifyingCount`) |
| TreeScanner.IsMatch | Images-Filter.py:92-93 | the case-preserved base name is an identifier (see `TreeScanner.MatchKeepsCase`) |
| TreeScanner.Matching | Images-Filter.py:92-97 | the qualifying files whose base name is an identifier, in order (its meaning is stated by `TreeScanner.MatchingMembers`, `MatchingSnoc` and `MatchingConcat`) |
| TreeScanner.MatchingSnoc | Images-Filter.py:93-97 | a file seen after the others is matched, after them, exactly when its base name is an identifier |
| TreeScanner.MatchingMembers | Images-Filter.py:92-97 | a file is matched exactly when it qualifies and its case-preserved base name is an identifier; never more matches than files |
| TreeScanner.MatchingConcat | Images-Filter.py:86-97 | matching a concatenation matches each part and keeps them in order |
| TreeScanner.MatchingExtremes | Images-Filter.py:92-93 | with no identifiers nothing matches; when every base name is an identifier everything does |
| TreeScanner.QualifyingMembers | Images-Filter.py:88-90 | the qualifying files are exactly the .tif/.tiff names of the walked directories, each with its joined path and relative directory |
| TreeScanner.QualifyingInMembers | Images-Filter.py:89-90 | within one directory, the qualifying files are exactly its .tif/.tiff names |
| TreeScanner.QualifyingCount | Images-Filter.py:88-91 | the total counts every .tif/.tiff name of every directory, whatever matches |
| TreeScanner.QualifyingInCount | Images-Filter.py:89-91 | within one directory the count is the number of .tif/.tiff names |
| TreeScanner.IsTif | Images-Filter.py:90 | the `.tif`/`.tiff` test on the lower-cased name (its meaning is stated by `TreeScanner.IsTifSuffix`) |
| TreeScanner.IsTifSuffix | Images-Filter.py:90 | a name qualifies exactly when its last four characters, lower-cased, are ".tif" or its last five are ".tiff" |
| TreeScanner.IsTifIgnoresCase | Images-Filter.py:90 | the extension test gives the same answer for the upper- and lower-cased name |
| TreeScanner.MatchKeepsCase | Images-Filter.py:92-93 | base names are compared without case folding: "IMG1.tif" does not match "img1", "img1.TIF" does |
| CopyExecutor.CopyMatches | Images-Filter.py:107-133 | the loop's final state is the specification `CopyRun` after every attempt; copied ≤ matches; one progress report per match and no result; when every source exists and none is its own destination, copied is the number of attempts with no injected fault |
| CopyExecutor.DestDir | Images-Filter.py:113-116 | the output folder for files of the images folder itself, the output folder joined with the relative directory otherwise (written out by `CopyExecutor.DestinationMirrors`) |
| CopyExecutor.Destination | Images-Filter.py:113-119 | the destination directory joined with the file name (written out by `CopyExecutor.DestinationMirrors`) |
| CopyExecutor.Succeeds | Images-Filter.py:119-130 | a copy goes through when nothing is injected, the source exists and the source is not the destination itself (its consequences are stated by `CopyExecutor.AttemptEffect` and `CopyExecutor.SameFileFails`) |
| CopyExecutor.SourcesCopyable | Images-Filter.py:119 | every match's source exists and is not its own destination (the condition under which `CopyExecutor.CopyRunCount` gives the count) |
| CopyExecutor.NoFaultCount | Images-Filter.py:122-131 | how many of the first k attempts have no injected fault (equal to the count by `CopyExecutor.CopyRunCount`) |
| CopyExecutor.CopiedLine | Images-Filter.py:125-129 | the success line: "(to root)" for a file of the images folder itself, "(to <relative dir>)" otherwise, with the attempt number and the number of matches (logged by `CopyExecutor.CopyRun`, one line per attempt by `CopyExecutor.CopyRunStep`) |
| CopyExecutor.Attempt | Images-Filter.py:113-130 | one attempt: the destination directory is created, then the file is copied over whatever was there (its effect is stated by `CopyExecutor.AttemptEffect`) |
| CopyExecutor.CopyRun | Images-Filter.py:107-133 | the state after the first k attempts: each logs its outcome and then reports progress (its properties are stated by `CopyExecutor.CopyRunProgress`, `CopyRunCount`, `CopyRunFootprint` and `CopyRunContents`) |
| CopyExecutor.SameFileFails | Images-Filter.py:119-130 | an attempt whose source is its own destination does not count, changes no file and logs an error |
| CopyExecutor.DeliveredStep | Images-Filter.py:119-124 | one more attempt keeps every earlier delivery and delivers its own file when the copy goes through |
| CopyExecutor.Delivered | Images-Filter.py:119-124 | each of the first k copies with no injected fault and an existing source holds its source's original bytes at its destination (proved after the run by `CopyExecutor.CopyRunContents`) |
| CopyExecutor.CopyRunStep | Images-Filter.py:109-133 | each attempt adds one log line and one progress report carrying the new count, which grows by at most one |
| CopyExecutor.CopyRunProgress | Images-Filter.py:132-133 | after k attempts: copied ≤ k, exactly k progress reports, the j-th with copied ≤ j and fraction copied/total, never decreasing, the last one carrying the count, and no result reported |
| CopyExecutor.CopyRunCount | Images-Filter.py:122-131 | a failed attempt does not stop the loop or count: with all sources present and none its own destination, the count is the number of attempts with no injected fault |
| CopyExecutor.CopyRunKeeps | Images-Filter.py:122-124 | files and directories present before the loop are still there after it |
| CopyExecutor.AttemptEffect | Images-Filter.py:113-124 | one attempt adds its destination directory unless that fails, writes the destination only if the copy goes through, and touches nothing else |
| CopyExecutor.CopyRunFootprint | Images-Filter.py:113-124 | the directories created are exactly those of attempts whose directory creation succeeded, so each successful copy's directory exists; every path created or changed is the destination of an attempt whose copy went through (no injected fault, source present, source not its own destination) |
| CopyExecutor.CopyRunKeepsSources | Images-Filter.py:119-124 | when no source is a destination, every source keeps the bytes it had before the run |
| CopyExecutor.CopyRunContents | Images-Filter.py:119-124 | with distinct destinations that are not sources, each successful copy leaves its source's original bytes at its destination |
| CopyExecutor.AttemptWrites | Images-Filter.py:119-124 | a copy that goes through puts the source's bytes at the destination |
| CopyExecutor.AttemptLeaves | Images-Filter.py:119-124 | an attempt changes no path other than its destination |
| CopyExecutor.DestinationMirrors | Images-Filter.py:113-119 | the destination is output/file for the images folder itself and output/relative-dir/file otherwise, with no second `/` when the output folder already ends in one |
| CopyExecutor.DestinationInjective | Images-Filter.py:113-119 | for any non-empty output folder, with or without a trailing `/`, two files with different (relative directory, file name) never share a destination |
| Worker.FilterAndCopy | Images-Filter.py:47-140 | the job's file system and callbacks are exactly those of the specification `Run`, and the result is reported exactly once, last |
| Worker.Run | Images-Filter.py:47-140 | the whole job as a function of its inputs: read the table, then go on as `RunFrom` (its properties are stated by `Worker.RunReportsOnce`, `RunFails`, `RunDone` and `RunProgress`) |
| Worker.Identifiers | Images-Filter.py:50-77 | the identifier set, or the error that stops the run while reading the table, resolving the column or finding no identifier (its outcomes are stated by `IdentifierLoader.LoadBaseNames` and `Worker.RunFails`) |
| Worker.FailWith | Images-Filter.py:138-140 | the handler of a fatal error: the error line, then the result (None, None) (stated by `Worker.RunFails`) |
| Worker.RunFrom | Images-Filter.py:49-140 | the job once the identifiers are loaded or have failed: the opening line, then the error path or the scan, the totals line and the copy phase |
| Worker.CopyPhase | Images-Filter.py:101-136 | what follows the totals line: with no match, (1.0, 0, 0) then (0, total); otherwise the copy loop, the completion line and (copied, total) (its properties are stated by `Worker.CopyPhaseReports` and `CopyPhaseProgress`) |
| Worker.Proceed | Images-Filter.py:49-136 | after reading the table, the job's file system and callbacks are exactly `RunFrom`'s |
| Worker.CopyPhaseReports | Images-Filter.py:101-136 | the phase after the totals line reports one result, last: (copied, total .tif files) with copied ≤ matches; it only adds files and directories; with no match it is (1.0, 0, 0) followed by (0, total) |
| Worker.CopyPhaseProgress | Images-Filter.py:106-136 | with matches: one progress report per match, the j-th with copied ≤ j, never decreasing, the last equal to the final count; with all sources present and none its own destination that count is the number of attempts with no injected fault |
| Worker.RunReportsOnce | Images-Filter.py:47-140 | every run first logs the table read and reports its result exactly once, as its last callback |
| Worker.RunFails | Images-Filter.py:49-140 | the result is (None, None) exactly when the table, the column, the identifiers, the images folder or the output folder fail; then nothing changes on disk and the callbacks are the opening line, the identifier count if reached, the error line and (None, None) |
| Worker.RunDone | Images-Filter.py:79-136 | after a successful setup the output folder exists, nothing present before is lost, the totals line gives the .tif count and the match count, and the result is (copied, total) with copied ≤ matches ≤ total; with no match the callbacks end with (1.0, 0, 0) and (0, total) and no file is written |
| Worker.RunProgress | Images-Filter.py:106-136 | with matches: one progress report per match, the j-th with copied ≤ j, never decreasing, the last one equal to the reported count, which is the number of attempts with no injected fault when all sources exist and none is its own destination |
| LogView.Recent | Images-Filter.py:297-299 | the panel shows at most ten lines: all messages while fewer than ten have arrived, exactly ten after that |
| LogView.RecentIsSuffix | Images-Filter.py:297-299 | the lines shown are the most recent messages, in arrival order |
| LogView.RecentSnoc | Images-Filter.py:297-299 | one more message drops the oldest line when ten are shown, then appends the message |
| LogView.LogBuffer.constructor | Images-Filter.py:223 | the panel starts empty with no history |
| LogView.LogBuffer.Add | Images-Filter.py:297-299 | keeps "the lines shown are the ten most recent messages"; the new message is last; at most ten lines |

## Left out

- Reading the table: `pandas.read_csv`/`read_excel`, including the UTF-8 to cp1256 fallback. A table is given as parsed columns whose cells are already strings. Missing cells arrive as pandas' string "nan". A missing file and a file the reader rejects are the two inputs `Missing` and `Unreadable`.
- The file system calls: `os.walk`, `os.path.relpath`, `os.path.exists` and `os.makedirs`. The walk is an input sequence of directories with their relative paths. The images folder's existence is whether that input is present. Whether the output folder can be created is a boolean input. Creating a directory records only that directory, not its ancestors.
- `shutil.copy2`: copying is a map update. Metadata is not modelled, and neither is a partial write by a copy that fails midway. `SameFileError` is modelled for a source path equal to its destination path; the same file reached under another path (a symbolic or hard link) is left to the `faults` input. A destination path that is an existing directory, into which `copy2` would write the file instead, is not modelled: the destination is always written as a file.
- The progress fraction is a float in the source. The model keeps it as the exact ratio copied/total, with 1/1 for the no-match case. The window's clamping of the fraction is presentation.
- Log messages are kept as structured lines (`Reporting.LogLine`), not as formatted text. An exception's message text is reduced to the error kind.
- Threads, the callbacks' marshalling onto the UI thread, and all widgets, dialogs, sound and theming.
- Characters outside ASCII: `upper`/`lower` and whitespace follow the ASCII rules. Paths use the POSIX separator `/` only.
- Running the job twice over an already populated output folder is not proved idempotent. `CopyExecutor.CopyRunContents` gives the contents after one run, when destinations are distinct and no source is a destination.
