# go-pypi in Dafny

A model of the core of go-pypi, a small Go client for the Python Package
Index. It reads a pip requirements file, downloads the release file of each
pinned requirement, unpacks it and moves the unpacked directory into place.
The model covers:

- **The requirements-file parser** (`ParseRequirements`). A manifest is read
  one `'\n'`-terminated line at a time. Each line is trimmed and its comment
  removed with the pattern `(^|\s+)#.*$`. The comparison operator is then
  found with the pattern `(<|<=|!=|==|>=|>|~=|===)` and the line is split on
  it. Only `==` is accepted. The first other operator, or a missing one,
  stops the parse, and the requirements read so far come back with the error.
- **Release selection** on the index (`GetWheelByVersion`,
  `GetSdistByVersion`, `DownloadRelease`). It takes the last wheel of the
  version, falls back to the last sdist, and reports "no release found" when
  both URLs are empty.
- **The download pipeline** (`DownloadFromRequirementsFile`). Each parsed
  requirement is downloaded and dispatched on `filepath.Ext` to `Untar` or
  `Unzip`. Then every extracted path is reconciled: the wrapper directory
  `"/" + <file name without ".tar.gz">` is removed from the path, and the
  path is renamed there when nothing is present at the target.
- **The entry loops of `Untar` and `Unzip`** over an abstract sequence of
  archive entries, covering the paths they record and create.

Files:

- `wrappers.dfy`: `Option`.
- `go_strings.dfy`: the `strings` functions the code calls, `TrimSpace`
  (with Go's `unicode.IsSpace` set) and `ReplaceAll(s, pat, "")`. It also
  holds `HasPrefix` and `Contains`, which the code does not call; the model's
  own contracts use them to say "lies below a directory" and "occurs in".
- `go_filepath.dfy`: `filepath.Join`, `Ext` and `Dir` on '/'-separated
  paths. `Join` cleans its directory of a leading "./" and of trailing
  separators, drops a "." directory, and drops a trailing separator of an
  entry name.
- `requirement_patterns.dfy`: the two regular expressions of the parser, as
  RE2 reads them. The comment pattern is handled by `ReplaceAllString`. The
  operator pattern uses leftmost-first alternation and is handled by
  `FindString` and `Split(s, -1)`.
- `requirement.dfy`: `Requirement`, `Specifier`, the line reader and
  `ParseRequirements` as a loop proved against the function `ParseManifest`.
- `filesystem.dfy`: a `Disk` class. It holds the set of present paths, plus
  fixed faults that stand for the errors the operating system would report.
  Its methods are `Stat`, `MkdirAll`, `OpenFile`+`Close` (as `Create`) and
  `Rename`.
- `index.dfy`: the index metadata and the downloader as an oracle (a
  `Network` value), and release selection.
- `extract.dfy`: the `Untar` and `Unzip` loops over abstract archives.
- `pipeline.dfy`: `DownloadFromRequirementsFile` and its reconcile loop. Both
  are methods on the `Disk`, proved against the functions `RunOf` and
  `ReconcileFrom`.

Every method that loops in the Go code is a Dafny method with a loop. Its
`ensures` ties its results, and the new disk contents, to a function of the
inputs. The properties the code promises are lemmas about those functions.
Three quirks of the code are stated as they are:

- The operator pattern is leftmost-first, not longest-match-first, so `<=`
  is reported as `<` and `===` is accepted as `==`, with the third `=`
  becoming part of the version.
- The comment pattern needs the start of the line or white space before the
  `#`, so not every trailing `#` comment is removed: a `#` right after a
  non-space character, as in `a==1#x`, stays in the version.
- The parse error is lost as soon as one requirement has been parsed. The
  loop assigns the shared `err` again at the first download, so the run
  returns that download's error, a later extraction or move error, or nil.
  Only when nothing was parsed does the parse error come back.

## Model

| member | source | states |
|---|---|---|
| GoStrings.TrimSpace | pypi/requirement.go:47 | `strings.TrimSpace`: the left trim, then the right trim; characterized by `TrimSpaceShape` |
| GoStrings.TrimLeftShape | pypi/requirement.go:47 | TrimSpace's left half drops exactly a leading run of Unicode white space: the result is a suffix of the input, everything cut is space, and the result is empty or starts with a non-space |
| GoStrings.TrimRightShape | pypi/requirement.go:47 | the right half drops exactly a trailing run of white space: the result is a prefix, the cut part is all space, and the result is empty or ends with a non-space |
| GoStrings.TrimSpaceShape | pypi/requirement.go:47 | `TrimSpace(line)` is a slice of the line with only white space around it, and it neither starts nor ends with white space |
| GoStrings.RemoveAll | pypi/pypi.go:255 | `strings.ReplaceAll(s, pat, "")` never makes a string longer |
| GoStrings.RemoveAllUnchangedIff | pypi/pypi.go:255-257 | removing every occurrence of a non-empty pattern leaves the string unchanged exactly when the pattern does not occur in it |
| GoStrings.RemoveAllKeepsPrefix | pypi/pypi.go:255 | a prefix in which no occurrence of the pattern starts passes through unchanged |
| GoStrings.RemoveAllAtFront | pypi/pypi.go:255 | an occurrence at the front is deleted and the rest is processed the same way |
| GoFilepath.CleanDir | pypi/pypi.go:314 | the directory operand of `filepath.Join` as `Clean` leaves it: no final separator except for the root, and no leading "./" |
| GoFilepath.CleanDirIdempotent | pypi/pypi.go:314 | cleaning is idempotent |
| GoFilepath.Join | pypi/pypi.go:314 | `filepath.Join(dst, header.Name)`: the cleaned directory and the name with one separator between them, an empty operand or a "." directory dropped, and a trailing separator of the entry name dropped; the same join serves a zip entry's name (line 367) and the downloaded file name (line 232) |
| GoFilepath.JoinDirRoundTrip | pypi/pypi.go:314 | `Dir` of a directory joined with one path element is the cleaned directory, or "." for an empty one |
| GoFilepath.Dir | pypi/pypi.go:383 | `filepath.Dir(fpath)`: the path before its last separator, "." when it has none |
| GoFilepath.Ext | pypi/pypi.go:227 | `filepath.Ext`: the suffix from the last '.' of the last path element; characterized by `ExtFromShape` and `ExtIsGzIff` |
| GoFilepath.ExtFromShape | pypi/pypi.go:227 | `filepath.Ext` is empty or a suffix of the path that starts with '.' |
| GoFilepath.ExtIsGzIff | pypi/pypi.go:227-230 | the tar branch is taken exactly when the file name ends in ".gz" |
| RequirementPatterns.StripComment | pypi/requirement.go:48 | `commentRegexp.ReplaceAllString(line, "")`; characterized by `StripCommentRemovesLeftmostMatch` against the match definition `CommentMatchAt` |
| RequirementPatterns.FirstCandidateIsFirst | pypi/requirement.go:34 | the scan finds the first '#' the comment pattern can use: at the start or after `\s`, with no '\n' after it; no earlier '#' qualifies |
| RequirementPatterns.RunStartIsMaximalRun | pypi/requirement.go:34 | the match starts where the `\s` run before that '#' starts, and that run cannot be extended to the left |
| RequirementPatterns.RunStartIsLeast | pypi/requirement.go:34 | no match can start before the start of the run |
| RequirementPatterns.MatchStartsAtOrAfterCommentStart | pypi/requirement.go:34 | every match of the comment pattern starts at or after the computed start |
| RequirementPatterns.StripCommentRemovesLeftmostMatch | pypi/requirement.go:48 | `ReplaceAllString(line, "")` keeps the text before the leftmost match; there is a match at the cut, and none starts earlier |
| RequirementPatterns.LeadingHashStripsAll | pypi/requirement.go:48 | a trimmed line starting with '#' becomes empty |
| RequirementPatterns.GluedHashIsKept | pypi/requirement.go:48 | a '#' glued to a non-space character, as in `a==1#x`, is kept |
| RequirementPatterns.NoHashKept | pypi/requirement.go:48 | a line without '#' is not changed |
| RequirementPatterns.OccursAtShort | pypi/requirement.go:35 | an alternative of one to three characters occurs at i exactly when its characters are there |
| RequirementPatterns.OperatorWidth | pypi/requirement.go:35 | the token read at a position is at most two characters long and lies inside the text |
| RequirementPatterns.OperatorAtIsFirstAlternative | pypi/requirement.go:35 | the token read at a position is the first alternative of the operator pattern, in the order written, that occurs there |
| RequirementPatterns.EarlierAlternativeWins | pypi/requirement.go:35 | at "<=" the pattern reports "<", and at "===" it reports "==" |
| RequirementPatterns.FindString | pypi/requirement.go:50 | `comparisonRegexp.FindString(line)`: the token at the leftmost match, "" when there is none; characterized by `FindOperatorIsLeftmost` and `OperatorAtIsFirstAlternative` |
| RequirementPatterns.FindOperatorFrom | pypi/requirement.go:50 | a found position lies in the text and holds a match |
| RequirementPatterns.FindOperatorIsLeftmost | pypi/requirement.go:50 | `FindString` takes the leftmost position with a match, and nothing is found only when no position matches |
| RequirementPatterns.FindOperatorFindsFirst | pypi/requirement.go:50 | the first matching position is the one found |
| RequirementPatterns.FindOperatorFindsNone | pypi/requirement.go:50 | with no match anywhere nothing is found |
| RequirementPatterns.Split | pypi/requirement.go:54 | `comparisonRegexp.Split(line, -1)`: the pieces between successive matches; characterized by `SplitRoundTrip` and `FirstPieceShape` |
| RequirementPatterns.SplitFrom | pypi/requirement.go:54 | `Split(s, -1)` always yields at least one piece |
| RequirementPatterns.SplitStep | pypi/requirement.go:54 | a match cuts off the text before it as a piece, and splitting resumes after the match |
| RequirementPatterns.SplitStepLast | pypi/requirement.go:54 | with no further match, the rest is the last piece |
| RequirementPatterns.FirstPieceShape | pypi/requirement.go:54-57 | the first piece is the text up to the first match, with no match inside it |
| RequirementPatterns.SplitRoundTrip | pypi/requirement.go:54 | there is one piece more than there are matches, and interleaving pieces and matches gives back the text |
| Requirements.CleanLine | pypi/requirement.go:47-48 | one line trimmed, then its comment replaced by ""; characterized by `TrimSpaceShape` and `StripCommentRemovesLeftmostMatch` |
| Requirements.ParseLine | pypi/requirement.go:47-62 | what one line contributes: nothing when it cleans to "", an error unless the leftmost operator is "==", else the requirement split around it; characterized by `BlankLineIff`, `AcceptedLineShape` and `RejectedLineShape` |
| Requirements.EqualitySplitShape | pypi/requirement.go:50-60 | when the leftmost operator is "==", `parts[0]` is the text before it and `parts[1]` runs from after it to the next match or the end, so `parts[1]` always exists |
| Requirements.AcceptedLineShape | pypi/requirement.go:47-61 | an accepted line is non-empty after cleaning, has comparison "==", and its untrimmed name and version are the text around the leftmost "==" |
| Requirements.RejectedLineShape | pypi/requirement.go:47-53 | a rejected line carries the cleaned line and the leftmost operator, which is not "=="; the operator is "" exactly when the line has no operator |
| Requirements.BlankLineIff | pypi/requirement.go:47-49 | a line yields nothing, and no error, exactly when it is empty after trimming and comment removal |
| Requirements.NextNewline | pypi/requirement.go:40 | the line end found lies in the text and is a '\n' |
| Requirements.NextNewlineIsFirst | pypi/requirement.go:40 | `ReadString('\n')` stops at the first '\n' |
| Requirements.LinesRoundTrip | pypi/requirement.go:39-43 | the lines read, followed by the unterminated tail, give back the text; every line ends with its only '\n'; the tail has none |
| Requirements.LinesFromAreLines | pypi/requirement.go:40 | every line read ends with '\n' and holds no other |
| Requirements.TailFromHasNoNewline | pypi/requirement.go:40-43 | the text after the last '\n', which the loop drops at EOF, holds no '\n' |
| Requirements.LinesShift | pypi/requirement.go:39-43 | reading from inside a second text does not depend on what comes before it |
| Requirements.LinesFromConcat | pypi/requirement.go:39-43 | after a text that ends with '\n', the lines of a concatenation are the lines of each part |
| Requirements.LinesConcat | pypi/requirement.go:39-43 | the lines of a '\n'-terminated text followed by another are the lines of each in turn |
| Requirements.LinesIgnoreTail | pypi/requirement.go:40-43 | an unterminated tail adds no line |
| Requirements.LinesOfConcat | pypi/requirement.go:39-43 | joining complete lines and reading them back gives the same lines |
| Requirements.Outcomes | pypi/requirement.go:39-63 | there is one outcome per line |
| Requirements.OutcomesAt | pypi/requirement.go:39-63 | the k-th outcome is the parse of the k-th line |
| Requirements.OutcomesConcat | pypi/requirement.go:39-63 | lines are parsed independently of their neighbours |
| Requirements.Collect | pypi/requirement.go:39-65 | the loop's accumulation over the line outcomes: accepted requirements appended in order, the first rejection returning what was collected with its error; characterized by `CollectStep` and `CollectIsPrefixBeforeRejection` |
| Requirements.ParseText | pypi/requirement.go:34-65 | the lines `ReadString` yields, parsed and collected; characterized by `ParseOfLines`, `ParseConcat` and `UnterminatedTailIgnored` |
| Requirements.ParseManifest | pypi/requirement.go:25-65 | an unopenable file gives the open error and no requirements, otherwise `ParseText`; characterized by `ParseRequirements` and `PinnedManifestRoundTrip` |
| Requirements.CollectStep | pypi/requirement.go:49-62 | a blank line adds nothing, an accepted line adds its requirement in front of the later ones, and a rejected line ends the parse with its error |
| Requirements.CollectAt | pypi/requirement.go:49-62 | the same three cases when the parse is resumed at line i |
| Requirements.NextLine | pypi/requirement.go:40 | each `ReadString` that finds a '\n' returns the next line of the text |
| Requirements.LineSteps | pypi/requirement.go:47-61 | the loop body's trim, strip, find and split agree with the per-line outcome |
| Requirements.ReadLineStep | pypi/requirement.go:40-62 | one pass of the loop moves the parse from line i to line i+1 as the loop body does |
| Requirements.ParseRequirements | pypi/requirement.go:25-66 | the loop returns exactly what `ParseManifest` gives: the open error on a file that cannot be opened, otherwise the requirements of the accepted lines up to the first rejected one, with that line's error |
| Requirements.TrimSpaceOfLine | pypi/requirement.go:47 | trimming removes the line's '\n' and nothing inside it |
| Requirements.PinnedLineParses | pypi/requirement.go:47-61 | `name==version` parses to that name and version, untrimmed, so `a == 1` gives "a " and " 1" |
| Requirements.PinnedClean | pypi/requirement.go:47-48 | such a line is unchanged by the clean-up apart from its '\n' |
| Requirements.PinnedSplit | pypi/requirement.go:50-54 | the operator found is "==" and the split is [name, version] |
| Requirements.PinnedMatches | pypi/requirement.go:50-54 | in `name==version` the only match is the "==" after the name |
| Requirements.OtherOperatorRejected | pypi/requirement.go:50-53 | a line with any other operator is rejected, naming "<" for "<=" and the operator itself otherwise |
| Requirements.OtherOperatorClean | pypi/requirement.go:47-48 | a `name op version` line passes the clean-up unchanged |
| Requirements.OtherOperatorFound | pypi/requirement.go:50 | the operator the pattern reports for `name op version` |
| Requirements.TripleEqualsAccepted | pypi/requirement.go:50-61 | `a===1` is accepted with comparison "==" and version "=1" |
| Requirements.TripleEqualsSplit | pypi/requirement.go:50-54 | in `name===version` the operator found is "==" and the split is [name, "=" + version] |
| Requirements.MissingOperatorRejected | pypi/requirement.go:50-53 | a line with no operator is rejected, reporting the operator "" |
| Requirements.FirstRejection | pypi/requirement.go:49-53 | the index of the first rejected line, with every earlier line not rejected |
| Requirements.CollectIsPrefixBeforeRejection | pypi/requirement.go:39-65 | the result is the requirements of the accepted lines before the first rejection, in file order, with that rejection's error, or no error when no line is rejected |
| Requirements.CollectConcat | pypi/requirement.go:39-65 | parsing two runs of lines is parsing the first and, when it ends without error, continuing with the second |
| Requirements.ParseConcat | pypi/requirement.go:39-65 | the same for two texts, the first ending with '\n' |
| Requirements.UnterminatedTailIgnored | pypi/requirement.go:40-43 | text after the last '\n' is never parsed, so even an invalid line there causes no error |
| Requirements.LinesOfLine | pypi/requirement.go:40 | a complete line reads as itself |
| Requirements.BlankLineIgnored | pypi/requirement.go:49 | inserting a line that is empty after clean-up changes nothing |
| Requirements.AcceptedIsEquality | pypi/requirement.go:51-59 | an accepted line always has comparison "==" |
| Requirements.CollectAllEquality | pypi/requirement.go:51-62 | when every accepted outcome has "==", so has every collected requirement |
| Requirements.ManifestAllEquality | pypi/requirement.go:51-62 | every requirement the parser returns, on success or with an error, has comparison "=="; this is why the `log.Panicf` branch of the pipeline is unreachable |
| Requirements.ParseOfLines | pypi/requirement.go:39-65 | a text made of complete lines parses as the outcomes of those lines |
| Requirements.PinnedTextTerminated | pypi/requirement.go:40 | a manifest of pinned lines ends with '\n' |
| Requirements.ParseOfOneLine | pypi/requirement.go:39-65 | a one-line manifest gives nothing, its requirement, or its error |
| Requirements.PinnedLineRoundTrip | pypi/requirement.go:39-65 | a pinned line is a line, and parses to its requirement |
| Requirements.PinnedNoNewline | pypi/requirement.go:40 | a pinned requirement contains no '\n' |
| Requirements.PinnedManifestRoundTrip | pypi/requirement.go:39-65 | writing well-formed pinned requirements one per line and parsing the text gives back exactly those requirements, in order, without error |
| Requirements.RejectionStopsParse | pypi/requirement.go:51-53 | a rejected line after an error-free part ends the parse with the requirements so far and its error, whatever follows |
| FileSystem.StatOf | pypi/pypi.go:261-263 | `os.Stat` succeeds exactly on a present path without a fault, and reports not-exist exactly on an absent one |
| FileSystem.Ancestors | pypi/pypi.go:327 | the directories above a path: each prefix ending just before one of its separators |
| FileSystem.Footprint | pypi/pypi.go:315 | a list of paths together with all their ancestors |
| FileSystem.Created | pypi/pypi.go:334 | `OpenFile` with O_CREATE adds exactly the path unless creation fails, and a failure changes nothing |
| FileSystem.MadeAll | pypi/pypi.go:327 | `MkdirAll` adds the path and all its missing ancestors unless it fails, and a failure changes nothing |
| FileSystem.MkdirAllMakesParent | pypi/pypi.go:327 | a directory above the path is one of its ancestors, and a successful `MkdirAll` of the path leaves it present |
| FileSystem.Moved | pypi/pypi.go:264 | the paths once the tree at the source has been moved to the target, the rest unchanged; characterized by `RenameMovesTree` |
| FileSystem.ParentPresent | pypi/pypi.go:264 | the directory a rename enters its target into exists: ".", the root, or a present path |
| FileSystem.RenameOf | pypi/pypi.go:264 | `os.Rename` succeeds exactly when the source is present, the target's directory exists, the target is absent and no fault is set; an absent source or a missing target directory is not-exist; a failed rename changes nothing |
| FileSystem.RenameMovesTree | pypi/pypi.go:264 | after a rename the target is present, and paths outside both trees are as before |
| FileSystem.MovedIntoTarget | pypi/pypi.go:264 | every path of the moved tree lands inside the tree at the target |
| FileSystem.Disk.Stat | pypi/pypi.go:261 | the method reports what `StatOf` says |
| FileSystem.Disk.MkdirAll | pypi/pypi.go:327 | error and new disk contents are as `MadeAll` says |
| FileSystem.Disk.Create | pypi/pypi.go:334 | error and new disk contents are as `Created` says |
| FileSystem.Disk.Rename | pypi/pypi.go:264 | error and new disk contents are as `RenameOf` says |
| PackageIndex.ReleasesOf | pypi/pypi.go:98 | an absent version has no releases |
| PackageIndex.LastOfKind | pypi/pypi.go:97-114 | the release the reassigning loops end with; characterized by `LastOfKindIsLastMatch` and `LastOfKindAppend` |
| PackageIndex.LastOfKindIsLastMatch | pypi/pypi.go:97-114 | the selection is a release of that type with no later release of the type, or the zero release when the version has none |
| PackageIndex.LastOfKindAppend | pypi/pypi.go:98-103 | one more release replaces the selection exactly when it has the type |
| PackageIndex.LastByType | pypi/pypi.go:97-114 | the loop reassigning the result variable computes the last release of the type |
| PackageIndex.GetWheelByVersion | pypi/pypi.go:97-105 | the last "bdist_wheel" release of the version, or the zero release |
| PackageIndex.GetSdistByVersion | pypi/pypi.go:107-114 | the last "sdist" release of the version, or the zero release |
| PackageIndex.SelectRelease | pypi/pypi.go:207-210 | the last wheel when its URL is non-empty, otherwise the last sdist; characterized by `WheelPreferred`, `EmptyLastWheelFallsBack` and `DownloadFetchesSelected` |
| PackageIndex.EmptyLastWheelFallsBack | pypi/pypi.go:207-210 | when the last wheel has no URL the last sdist is taken, even if an earlier wheel has a URL |
| PackageIndex.WheelPreferred | pypi/pypi.go:207-210 | a last wheel with a URL is taken over any sdist |
| PackageIndex.DownloadOf | pypi/pypi.go:207-215 | the file name, the URL handed to the downloader and the error of `DownloadRelease`; characterized by `DownloadFetchesSelected` and `UnknownProjectNotFound` |
| PackageIndex.DownloadRelease | pypi/pypi.go:202-216 | the file name and error are those of the selection: "no release found" for the project and version when no URL is left, otherwise the downloader's result |
| PackageIndex.DownloadFetchesSelected | pypi/pypi.go:207-215 | the downloader is called exactly when a selected release has a URL, and then with the last wheel's or the last sdist's URL; otherwise the error is "no release found" |
| PackageIndex.MetadataOf | pypi/pypi.go:141-149 | `GetRelease`, which ignores the version and calls `GetLatest`: the project's package, or the empty package when the request failed; characterized by `UnknownProjectNotFound` |
| PackageIndex.UnknownProjectNotFound | pypi/pypi.go:141-149 | a failed metadata request (`GetLatest` drops its error) surfaces only as "no release found" with an empty file name |
| Extract.TarEntryEffect | pypi/pypi.go:322-347 | a failing tar entry reports a create or copy failure of its own target |
| Extract.TarEntryBound | pypi/pypi.go:322-347 | a tar entry creates at most its own target and, for a directory, the target's ancestors |
| Extract.TarDirectoryMakesDst | pypi/pypi.go:325-330 | a directory entry made below `dst` leaves the cleaned `dst` present too, unless it is the root or "." |
| Extract.UntarSteps | pypi/pypi.go:295-348 | the `for` loop over `tr.Next` results; characterized by `UntarAt`, `UntarPaths` and `UntarCreatesOnlyListed` |
| Extract.UntarOf | pypi/pypi.go:284-350 | `Untar` as a whole: an error when the file is not gzip, otherwise the loop; characterized by `UntarPaths` |
| Extract.UntarAt | pypi/pypi.go:295-348 | the loop step for each kind of `tr.Next` result: a nil header is skipped, a read error ends the loop, and a header records its target before acting on it |
| Extract.Untar | pypi/pypi.go:284-350 | paths, error and new disk contents are those of `UntarOf`; a stream that is not gzip gives no paths and an error |
| Extract.UntarPaths | pypi/pypi.go:295-348 | the recorded paths are `Join(dst, name)` for the non-nil headers in archive order: all of them on success or when a read error ends the stream, and on an entry failure a prefix ending with the failing entry |
| Extract.UntarCreatesOnlyListed | pypi/pypi.go:295-348 | the disk only gains recorded paths and their ancestors |
| Extract.ZipEntryEffect | pypi/pypi.go:376-405 | a directory entry never fails; a file entry fails only on its own path or its parent directory |
| Extract.ZipEntryBound | pypi/pypi.go:376-405 | a zip entry creates at most its own path, its parent directory and the ancestors of both |
| Extract.UnzipEntries | pypi/pypi.go:364-407 | the `for` loop over the zip entries; characterized by `UnzipAt`, `UnzipPaths` and `UnzipCreatesOnlyListed` |
| Extract.UnzipOf | pypi/pypi.go:354-408 | `Unzip` as a whole: an error when the file cannot be opened as a zip, otherwise the loop; characterized by `UnzipPaths` |
| Extract.UnzipAt | pypi/pypi.go:364-406 | each entry records `Join(dest, name)` before it is acted on, and the loop stops at the first failing entry |
| Extract.Unzip | pypi/pypi.go:354-408 | paths, error and new disk contents are those of `UnzipOf`; an archive that cannot be opened gives no paths and an error |
| Extract.ZipTargets | pypi/pypi.go:367 | one target per entry |
| Extract.UnzipPaths | pypi/pypi.go:364-407 | the recorded paths are the entries' targets in order: all on success, and on failure a prefix whose last path, or its directory, is the one that failed |
| Extract.ZipFootprint | pypi/pypi.go:374-383 | the recorded paths, their parent directories and the ancestors of both |
| Extract.UnzipCreatesOnlyListed | pypi/pypi.go:364-406 | the disk only gains recorded paths, their parent directories and their ancestors |
| Extract.ZipDirectoryNeverFails | pypi/pypi.go:376-380 | the result of `MkdirAll` for a directory entry is ignored |
| Pipeline.WrapperName | pypi/pypi.go:253 | the wrapper name starts with '/', so it is never empty |
| Pipeline.Target | pypi/pypi.go:255 | `strings.ReplaceAll(oldLocation, extractDirName, "")`; characterized by `TargetIsSourceIffNoWrapper` and `TargetStripsWrapper` |
| Pipeline.TargetIsSourceIffNoWrapper | pypi/pypi.go:253-259 | the target equals the extracted path, and nothing is moved, exactly when the wrapper name does not occur in it |
| Pipeline.TargetStripsWrapper | pypi/pypi.go:253-255 | for `dst + wrapper + rest`, the target is `dst` followed by `rest` with every further occurrence of the wrapper removed too |
| Pipeline.ReconcileOne | pypi/pypi.go:257-271 | a failed move leaves the disk unchanged |
| Pipeline.ReconcileOneRules | pypi/pypi.go:257-271 | nothing happens when the target equals the source or the target's `Stat` does not report not-exist; the disk changes only by a rename to an absent target; the step fails exactly when that rename fails other than with already-exists |
| Pipeline.ReconcileOneIdempotent | pypi/pypi.go:252-273 | reconciling the same path a second time changes nothing |
| Pipeline.WrapperEntryKept | pypi/pypi.go:253-262 | the archive's own wrapper directory `dst/<wrapper>` has target `dst`; once `dst` exists it is not moved and nothing changes |
| Pipeline.DotDestinationMovesNothing | pypi/pypi.go:252-262 | with `dst` ".", the joined entry "p-1/setup.py" of "p-1.tar.gz" has no "./" and no "/p-1", so the reconcile step leaves it and the disk unchanged |
| Pipeline.ReconcileFrom | pypi/pypi.go:252-273 | the reconcile loop over the extracted paths, stopping at the first move error; characterized by `ReconcileAt`, `ReconcileOneRules`, `SettledLoopSkips`, `ReconcileSettles` and `ReconcileRerunChangesNothing` |
| Pipeline.ReconcileAt | pypi/pypi.go:252-273 | the loop over extracted paths stops at the first move error and otherwise goes on with the new disk |
| Pipeline.MissingTargetParentStopsMove | pypi/pypi.go:255-267 | a wrapped path whose target lies in a missing directory is not moved: the rename fails with not-exist and the loop stops with a move error |
| Pipeline.Settled | pypi/pypi.go:255-270 | a path the loop leaves alone: no wrapper in it, a target that cannot be stat'ed or exists, or a rename reported as already-exists |
| Pipeline.SettledSkipped | pypi/pypi.go:255-270 | a settled path is skipped with no error and no change |
| Pipeline.ReconciledIsSettled | pypi/pypi.go:255-270 | a path reconciled without error is settled on the disk it leaves |
| Pipeline.SettledThroughStep | pypi/pypi.go:252-273 | a later step keeps a path settled when its target does not hold the wrapper name, since only trees holding it are moved |
| Pipeline.SettledThroughLoop | pypi/pypi.go:252-273 | the same through the rest of the loop |
| Pipeline.SettledLoopSkips | pypi/pypi.go:252-273 | a loop over settled paths reports no error and changes nothing |
| Pipeline.ReconcileSettles | pypi/pypi.go:252-273 | after a loop without error every listed path is settled, when no target still holds the wrapper name |
| Pipeline.ReconcileRerunChangesNothing | pypi/pypi.go:252-273 | running the loop again over the same paths, on the disk the first run left, reports no error and changes nothing, when no target still holds the wrapper name |
| Pipeline.Reconcile | pypi/pypi.go:252-273 | error and new disk contents are those of `ReconcileFrom` |
| Pipeline.ExtractOf | pypi/pypi.go:227-250 | `Untar` of the archive at `Join(dst, filename)` when `Ext(filename)` is ".gz" (an error when it cannot be opened), `Unzip` otherwise, with the error wrapped with the file name |
| Pipeline.ProcessOne | pypi/pypi.go:221-273 | one "==" requirement: download, stop on its error, extract, stop on its error, then reconcile; characterized by `NoReleaseStopsBeforeExtraction` |
| Pipeline.ProcessAll | pypi/pypi.go:220-278 | the requirements in order, stopping at the first error; characterized by `ProcessAt` and `ProcessAllAppend` |
| Pipeline.RunOf | pypi/pypi.go:218-280 | the parsed list, the run's error (the parse error only when nothing was parsed) and the disk; characterized by `RunReturnsParsedList`, `ZeroRequirementsKeepParseError` and `ParseErrorSwallowed` |
| Pipeline.ProcessAt | pypi/pypi.go:220-278 | requirements are processed in order, and the first download, open, extraction or move error stops the run |
| Pipeline.ProcessAllAppend | pypi/pypi.go:220-278 | processing two lists is processing the first and, without error, the second on the resulting disk |
| Pipeline.DownloadFromRequirementsFile | pypi/pypi.go:218-280 | returned list, error and new disk contents are those of `RunOf`; the panic branch is never reached |
| Pipeline.RunReturnsParsedList | pypi/pypi.go:218-280 | the full parsed list is always returned, and any processing error is the error returned |
| Pipeline.ZeroRequirementsKeepParseError | pypi/pypi.go:219-279 | with nothing parsed, the parse error comes back and the disk is untouched |
| Pipeline.ParseErrorSwallowed | pypi/pypi.go:219-279 | with at least one requirement parsed and all of them processed successfully, the parse error is lost |
| Pipeline.UnopenableManifest | pypi/requirement.go:26-30 | a manifest that cannot be opened gives no requirements and the open error |
| Pipeline.NoReleaseStopsBeforeExtraction | pypi/pypi.go:223-226 | a requirement without a downloadable release stops the run with "no release found" before anything is extracted |

## Left out

- Metadata lookup (`NewPackageIndex`, `packageReq`, `GetLatest`, `GetRelease`) is HTTP and JSON decoding. It is a `Network` value mapping a project to its `Package`. Only the release fields `filename`, `packagetype` and `url` are kept. A project that is missing stands for a failed request, whose error `GetLatest` drops. `GetRelease` ignores the version, as `MetadataOf` does.
- `downloadReleaseFile` (the grab library, its ticker and `select` progress loop) is an oracle: the set of URLs whose transfer fails. The downloaded file is not added to the disk's paths; the archive at `Join(dst, filename)` is looked up in a separate map of archives.
- `DownloadLatest` is not part of this model. It only chains `GetLatest` and `DownloadRelease`. `Info.Version`, which only it reads, is not a field of `Package`.
- gzip, tar and zip decoding are abstract. A tar stream is a sequence of `tr.Next` results and a zip archive is a sequence of entries. An `io.Copy` or `f.Open` failure is a flag on the entry. File modes, `O_TRUNC` and file contents are not modelled.
- The file system is a set of paths. It does not tell files from directories. `OpenFile` does not require its parent to exist, whereas `Rename` does. A rename moves every path below the source by prefix. The paths present at the start need not include their parents.
- FileSystem.MadeAll: a failing `MkdirAll` creates nothing, whereas Go may have made some of the ancestors before it fails. A file on the way is not an error.
- FileSystem.RenameOf: a rename onto any present path fails with already-exists. A POSIX rename would replace a file or an empty directory.
- Pipeline.ReconcileRerunChangesNothing: requires that no target still holds the wrapper name. Removing every occurrence can make a new one ("/p/p-1-1" less "/p-1" is "/p-1"); such a target may lie in a tree a later step moves, and then a second run could move its path again.
- GoFilepath.Join: of `Clean`, only a leading "./" and the trailing separators of the directory, a "." directory and one trailing separator of the name are applied. A "." or ".." element inside a path, a doubled separator, or a "./" directly followed by another '/' is kept as written, where Go rewrites it. For such a `dst` or entry name the recorded paths differ in text from Go's, and the reconcile loop's removal of "/<wrapper>" may then move other paths than Go does. With `dst` "." the paths lose the "./" as in Go, so the entries directly below the wrapper directory are not moved (`DotDestinationMovesNothing`). `Join`, `Dir` and `Ext` take '/' as the only separator.
- The ZipSlip check is commented out in the code, so the model has no path guard either.
- Strings are sequences of code points. Go's byte strings and invalid UTF-8 are not modelled. For `TrimSpace` and `\s`, see `go_strings.dfy` and `requirement_patterns.dfy`.
- Read errors of the manifest other than end of file are not modelled. The two `regexp.Compile` calls are on constant valid patterns, so their error path cannot occur.
- Errors keep the fields their messages print but not the message text: `Unsupported(comparison, line)`, `NoReleaseFound(project, version)` and so on.
- Logging and printing are left out (`log.*`, `fmt.Printf`, including the `%q` print of the split parts).
- GoStrings.RemoveAll: requires a non-empty pattern. `strings.ReplaceAll` with an empty pattern inserts between runes, but both patterns the code uses, ".tar.gz" and the wrapper name (which starts with '/'), are non-empty.
- PackageIndex.DownloadRelease: its `ensures` states the file name and error. The URL handed to the downloader is stated on `DownloadOf` by `DownloadFetchesSelected`, because the Go function does not return it.
- The test files assert placeholder values or hit the live index, so they are not reflected in the model.
