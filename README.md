# Directory flattener: a Dafny model

`flatten_directory_files(source_path, dest_path)` gathers the office documents
(`.xlsx`, `.xls`, `.pptx`, `.ppt`, matched case-insensitively) of a directory
tree into one flat destination directory. Each copy is named by its path
relative to the source root, with the segments joined by `_`. So
`dir2/sub/file2.pptx` becomes `dir2_sub_file2.pptx`. The function does the
following, in order:

1. If the source does not exist, it returns and creates nothing.
2. It creates the destination, with its parents.
3. It collects the targets in scan order.
4. It copies each target. A failed copy is reported and skipped.

The model has four modules:

- `Paths` (`paths.dfy`): the final segment of a path, `PurePath.suffix`
  (the text from the last dot when that dot is neither first nor last),
  ASCII lower-casing, `"_".join(parts)`, and `str.split` as its partial
  inverse.
- `Scan` (`scan.dfy`): the filter. `Selected` specifies the target list and
  `CollectTargets` is the source's append loop, proved equal to it.
- `Flatten` (`flatten.dfy`): the run. The destination directory is a class
  with a `present` flag and a `files: map<string, FileId>` listing. Here a
  `FileId` names the source path a destination file was last copied from,
  as a path relative to the source directory. `FlattenDirectoryFiles` is the early return, the
  `mkdir`, the filter and the copy loop. `CopyAll` and `Errors` (folds over
  the target list) specify that loop.
- `Tested` (`tested.dfy`): behaviour that `test_flatten.py` expects but this
  version of `flatten.py` does not have. This covers the collision namer
  (`_1`, `_2`, … before the extension) and a tallied run that also checks
  for source equal to destination and for an empty target list.

The filesystem is abstract:

- The scan is a given sequence of entries, each a relative segment sequence
  plus an is-file flag. The theorems about the filter and the copy loop hold
  for every order. The test scenarios use the order pathlib's `rglob('*')`
  produces: every entry of a directory comes before the entries of its
  subdirectories. So the collision tree of test_flatten.py:116-118 scans
  `dir1`, `dir1_file.xlsx`, then `dir1/file.xlsx`.
- The outcome of each `shutil.copy2` comes from a given oracle: a total
  function from the source's relative path to `Copied` or `Failed(message)`.

## Code and tests disagree

The test suite exercises a later version of the function than `flatten.py`
as it stands. The tests pass a `logger`, expect a check that the source is
not the destination, an empty-result message, a final success/failure tally,
and `_N` collision suffixes. None of these exists in this version of
`flatten.py`. The model follows `flatten.py` as it stands in `Flatten`:

- Two targets that flatten to the same name write the same destination path,
  and the later copy wins (`CopyAllLastWriterWins`, `SameNameOverwrites`).
- The tested behaviour is modelled separately in `Tested`, and its rows
  below cite the test lines.

No code of the collision namer exists in this version of `flatten.py`. The
model follows the numbering rule the collision test expects (test_flatten.py:124-129): the first file with a flattened name keeps it, and the k-th repeat
becomes `<stem>_k<suffix>`. That rule counts only earlier files with the same
flattened name. So a file whose own flattened name already looks like a
numbered repeat can meet a later numbered repeat. The flattened names
`a_1.xlsx`, `a.xlsx`, `a.xlsx` are written as `a_1.xlsx`, `a.xlsx`, `a_1.xlsx`
(`NumberedRepeatCanMeetExistingName`). Under the rule, names are unique among
files that share a flattened name (`ResolveSeparatesRepeats`), but not across
the whole run.

## Model

| member | source | states |
|---|---|---|
| `Paths.Name` | flatten.py:38 | the final segment of a path (`Path.name`); its properties are in `FlattenedNameEndsWithName` |
| `Paths.LowerChar` | flatten.py:38 | lower-casing one character yields a dot exactly when the character is a dot |
| `Paths.Join` | flatten.py:53 | `sep.join(parts)`; `JoinSnoc` and `SplitFlattenedName` state its properties |
| `Paths.FlattenedName` | flatten.py:49-53 | the segments of the relative path joined by `_`; `FlattenedNameEndsWithName`, `FlattenedNameSuffix` and `SplitFlattenedName` state what it keeps |
| `Paths.RFind` | flatten.py:38 | the index of the last occurrence of the character, or -1; the character is there and does not occur after it |
| `Paths.Suffix` | flatten.py:38 | the suffix is empty or a proper tail of the name that starts with a dot and holds no other dot |
| `Paths.Lower` | flatten.py:38 | lower-casing keeps the length and maps each character through ASCII lower-casing |
| `Paths.JoinSnoc` | flatten.py:53 | the join of the segments is the join of all but the last, the separator, and the last |
| `Paths.FlattenedNameEndsWithName` | flatten.py:49-53 | a file directly under the root keeps its name; a deeper one is its parent's flattened path, `_` and its name; the flattened name always ends with the file's name |
| `Paths.RFindAppend` | flatten.py:38 | prepending text does not move the last dot of a name that has one |
| `Paths.RFindLastSeparator` | flatten.py:38 | the last dot of `x.y`, where `y` has no dot, is right after `x` |
| `Paths.SuffixOfStemAndExtension` | flatten.py:38 | `<stem>.<ext>` with non-empty stem and dot-free non-empty extension has suffix `.<ext>` |
| `Paths.SuffixOfAppend` | flatten.py:38-53 | prepending directories never changes a non-empty suffix |
| `Paths.FlattenedNameSuffix` | flatten.py:53 | the flattened name has the suffix of the source file whenever the source file has one |
| `Paths.RFindLower` | flatten.py:38 | lower-casing keeps the position of the last dot |
| `Paths.SuffixLower` | flatten.py:38 | the suffix of the lower-cased name is the lower-cased suffix |
| `Paths.LowerOfLowercase` | flatten.py:30 | a text without upper-case letters, like each target extension, is its own lower-casing |
| `Paths.LowerIdempotent` | flatten.py:38 | lower-casing twice is lower-casing once |
| `Paths.Find` | flatten.py:53 | the index of the first occurrence of the character, or -1, with none before it |
| `Paths.Split` | flatten.py:53 | splitting yields at least one part |
| `Paths.FindAfterSeparatorFree` | flatten.py:53 | in `x + "_" + y` with no `_` in `x`, the first `_` is right after `x` |
| `Paths.SplitFlattenedName` | flatten.py:51-53 | splitting the flattened name at `_` gives back the relative path whenever no segment contains `_` |
| `Paths.NestedExample` | test_flatten.py:27-40 | `dir2/sub/file2.pptx` flattens to `dir2_sub_file2.pptx`, `dir1/file1.xlsx` to `dir1_file1.xlsx`, a root file to its own name |
| `Paths.FlatteningIsNotInjective` | test_flatten.py:112-118 | `dir1/file.xlsx` and `dir1_file.xlsx` both flatten to `dir1_file.xlsx` |
| `Scan.IsTargetName` | flatten.py:30-38 | the suffix of a name, lower-cased, is one of `.xlsx`, `.xls`, `.pptx`, `.ppt` (the constant `Scan.TargetExtensions`) |
| `Scan.IsTarget` | flatten.py:38 | an entry is a target when it is a regular file and its final segment passes `IsTargetName` |
| `Scan.Selected` | flatten.py:36-39 | the entries that pass the test, in scan order; `SelectedMembership` and `SelectedInScanOrder` state which entries it holds and in what order |
| `Scan.SelectedIndices` | flatten.py:36-39 | the scan positions of the kept entries; `SelectedInScanOrder` states their properties |
| `Scan.CollectTargets` | flatten.py:36-39 | the append loop builds exactly the specified target list; an entry is in it iff it was scanned and passes the test |
| `Scan.SelectedMembership` | flatten.py:36-39 | an entry is a target iff it was scanned and is a regular file whose lower-cased suffix is a target extension |
| `Scan.SelectedSnoc` | flatten.py:37-39 | scanning one more entry appends it to the target list iff it passes the test |
| `Scan.SelectedAtIndices` | flatten.py:36-39 | the k-th target is the scanned entry at the k-th kept position |
| `Scan.SelectedIndicesIncrease` | flatten.py:36-39 | the kept positions are strictly increasing, so targets keep scan order |
| `Scan.SelectedIndicesExact` | flatten.py:36-39 | a scan position is kept iff its entry passes the test |
| `Scan.SelectedInScanOrder` | flatten.py:30-39 | the target list is exactly the passing entries, each once, in scan order |
| `Scan.SelectionIgnoresCase` | flatten.py:38 | a name passes the extension test iff its lower-cased form does |
| `Scan.SpreadsheetSelected` | flatten.py:30-38 | any regular file named `<stem>.xlsx` is collected at any depth |
| `Scan.File1Selected` | test_flatten.py:29-30 | `dir1/file1.xlsx` is collected |
| `Scan.NestedFileSelected` | test_flatten.py:116-117 | `dir1/file.xlsx` is collected |
| `Scan.TopFileSelected` | test_flatten.py:118 | `dir1_file.xlsx` is collected |
| `Scan.UpperCaseExtensionSelected` | flatten.py:38 | `A.XLSX` is collected: matching ignores case |
| `Scan.NestedPresentationSelected` | test_flatten.py:31-33 | `dir2/sub/file2.pptx` is collected |
| `Scan.TextFileRejected` | test_flatten.py:48-61 | no entry named `<stem>.txt`, at any depth, file or not, is collected |
| `Scan.TextExtensionIsNoTarget` | flatten.py:30-38 | `.txt` lower-cases to itself and is not one of the target extensions |
| `Scan.DirectoryAndHiddenFileRejected` | flatten.py:38 | a directory named `dir.xlsx` and a hidden file `.xlsx` (no suffix) are not collected |
| `Scan.LeadingDotsSelected` | flatten.py:38 | a regular file named `..xlsx` has the suffix `.xlsx` and is collected |
| `Scan.FlattenedNameStillTarget` | flatten.py:38-53 | the flattened name of a collected file passes the same extension test |
| `Flatten.Destination.constructor` | flatten.py:19 | a destination starts with the given presence and listing; an absent one lists nothing |
| `Flatten.Destination.MakeDirs` | flatten.py:27 | after `mkdir(parents=True, exist_ok=True)` the directory exists and keeps its files |
| `Flatten.Destination.Write` | flatten.py:56-60 | a successful copy sets the destination path to the copied file, replacing what was there |
| `Flatten.FlattenDirectoryFiles` | flatten.py:12-64 | a missing source leaves the destination (presence and files) unchanged and attempts nothing; otherwise the destination exists, every target is attempted once in order, the files are the copy loop's fold and the reports its failures; a missing source and an absent destination leave the destination absent and empty |
| `Flatten.CopyTargets` | flatten.py:46-64 | the loop attempts each target once, in order, writing its flattened name on success and reporting name and error on failure |
| `Flatten.CopyStep` | flatten.py:53-60 | one pass of the copy loop: a successful copy sets the flattened name to the source file, a failed one changes nothing |
| `Flatten.CopyAll` | flatten.py:46-60 | the listing after the copy loop, target by target in order; `CopyAllNames`, `CopyAllKeepsOthers` and `CopyAllLastWriterWins` state its contents |
| `Flatten.Errors` | flatten.py:62-64 | there are never more reports than targets; `ErrorsCount` counts them |
| `Flatten.CopyAllNames` | flatten.py:46-60 | after the loop the destination holds exactly the old names and the flattened names of the successfully copied targets |
| `Flatten.CopyAllKeepsOthers` | flatten.py:56-60 | a name that no successful target flattens to keeps its old content |
| `Flatten.CopyAllLastWriterWins` | flatten.py:53-60 | a name holds the last successfully copied target that flattens to it |
| `Flatten.FailedCopyIsSkipped` | flatten.py:47-64 | a failing copy leaves the destination as if that target had not been listed, and later targets are still copied |
| `Flatten.ErrorsCount` | flatten.py:62-64 | one failure is reported per target whose copy fails |
| `Flatten.AddedNamesAreTargets` | flatten.py:36-60 | every name the run adds to the destination passes the extension test |
| `Flatten.CopyAllTwo` | flatten.py:46-60 | the loop over two targets is two copy steps in order |
| `Flatten.SelectedOfShape` | flatten.py:37-39 | of directory, directory, file, directory, file the two files are kept in order |
| `Flatten.DirectoryDirectoryFile` | flatten.py:37-39 | of directory, directory, file the file is kept |
| `Flatten.DirectoryThenTwoTargets` | flatten.py:37-39 | of a directory and two files that pass the test, both files are kept in order |
| `Flatten.BasicScanTargets` | test_flatten.py:27-36 | of the basic tree scanned as `dir1`, `dir2`, `dir1/file1.xlsx`, `dir2/sub`, `dir2/sub/file2.pptx`, exactly `dir1/file1.xlsx` and `dir2/sub/file2.pptx` are targets, in that order |
| `Flatten.CopyTwoIntoEmpty` | flatten.py:53-60 | two successful copies into an empty destination give their two flattened names |
| `Flatten.BasicScenario` | test_flatten.py:27-40 | the basic scenario gives exactly `dir1_file1.xlsx` and `dir2_sub_file2.pptx` |
| `Flatten.CollidingScanTargets` | test_flatten.py:112-118 | of the scan `dir1`, `dir1_file.xlsx`, `dir1/file.xlsx` both files are targets, in that order |
| `Flatten.SameNameOverwrites` | flatten.py:53-60 | in `flatten.py` as it stands the collision scan leaves one file, `dir1_file.xlsx`, holding the later copy, which is the nested `dir1/file.xlsx` |
| `Tested.Decimal` | test_flatten.py:128 | the numeral is non-empty, ends with the last digit, and has two or more digits from 10 up |
| `Tested.DecimalInjective` | test_flatten.py:112-129 | distinct counts have distinct numerals |
| `Tested.Stem` | test_flatten.py:128 | the stem followed by the suffix is the name |
| `Tested.Numbered` | test_flatten.py:124-129 | `<stem>_<n><suffix>`; `NumberedIsLonger`, `NumberedInjective` and `NumberedKeepsTarget` state its properties |
| `Tested.NumberedIsLonger` | test_flatten.py:125-129 | a numbered name is never the plain name |
| `Tested.NumberedInjective` | test_flatten.py:125-129 | different repeat numbers give different names |
| `Tested.NumberedKeepsTarget` | test_flatten.py:125 | a numbered name keeps the suffix, so it still passes the extension test |
| `Tested.Resolve` | test_flatten.py:112-129 | exactly one written name per flattened name, so every target gets a destination name |
| `Tested.Occurrences` | test_flatten.py:112-129 | how often a name occurs among those assigned so far; `TableCounts` and `OccurrencesGrow` use it |
| `Tested.Table` | test_flatten.py:112-129 | the collision table; `TableCounts` states that it counts `Occurrences` |
| `Tested.Assign` | test_flatten.py:124-129 | a name keeps its form the first time and is numbered by its count after that; `ResolveAt` states the result |
| `Tested.TableCounts` | test_flatten.py:112-129 | the collision table holds how often each name has been assigned so far |
| `Tested.ResolveAt` | test_flatten.py:112-129 | the i-th file keeps its flattened name if it did not occur before, and is `<stem>_<k><ext>` when it occurred k times before |
| `Tested.OccurrencesGrow` | test_flatten.py:112-129 | a later prefix holding one more copy counts that name at least once more |
| `Tested.ResolveSeparatesRepeats` | test_flatten.py:126-129 | files sharing a flattened name are written under different names |
| `Tested.ResolveTwice` | test_flatten.py:112-129 | a name assigned twice is kept, then numbered 1 |
| `Tested.NumberedExample` | test_flatten.py:128 | `dir1_file.xlsx` numbered 1 is `dir1_file_1.xlsx` |
| `Tested.CollisionExample` | test_flatten.py:112-129 | two `dir1_file.xlsx` become `dir1_file.xlsx` and `dir1_file_1.xlsx` |
| `Tested.NumberedRepeatCanMeetExistingName` | test_flatten.py:112-129 | `a_1.xlsx`, `a.xlsx`, `a.xlsx` write `a_1.xlsx` twice |
| `Tested.FlattenedNames` | flatten.py:53 | one flattened name per target, at its position |
| `Tested.CopyAllAs` | test_flatten.py:112-129 | the copy loop under given names keeps every old name; `CopyAllAsNames` and `CopyAllAsLastWriterWins` state its contents |
| `Tested.CopyAllAsNames` | test_flatten.py:112-129 | copying under given names leaves exactly the old names plus the name at the position of every successfully copied target |
| `Tested.CopyAllAsLastWriterWins` | test_flatten.py:112-129 | a name holds the last successfully copied target written under it |
| `Tested.CopyAllAsDistinct` | test_flatten.py:124-129 | under pairwise distinct names every copied target is found under its own name |
| `Tested.CompletedRunFiles` | test_flatten.py:112-129 | a completed run's destination is the copy loop over the targets under their resolved names, so it holds exactly the old names plus the resolved name of every successfully copied target |
| `Tested.CompletedRunKeepsEveryCopy` | test_flatten.py:124-129 | in a completed run whose resolved names are pairwise distinct, every successfully copied target is there under its own resolved name |
| `Tested.Succeeded` | test_flatten.py:111 | the number of successful copies, at most the number of targets |
| `Tested.TestedRun` | test_flatten.py:63-129 | the run the tests expect; `TestedRunOutcome`, `CompletedRunKeepsEveryCopy` and the scenario lemmas state how it ends |
| `Tested.TallyAddsUp` | test_flatten.py:93-111 | successes plus failures equal the number of targets |
| `Tested.TestedRunOutcome` | test_flatten.py:63-91 | a missing source aborts first, then a source equal to the destination, then an empty target list; a completed run tallies every target |
| `Tested.OneFailingTarget` | test_flatten.py:93-111 | a single target whose copy fails ends with no new file, 0 successes and 1 failure |
| `Tested.CopyErrorScenario` | test_flatten.py:93-111 | the copy-error case ends `成功 0 件 / 失敗 1 件` with nothing copied |
| `Tested.FlattenedNamesTwo` | flatten.py:53 | the flattened names of two targets |
| `Tested.CopyTwoAsIntoEmpty` | test_flatten.py:112-129 | two successful copies under given names into an empty destination |
| `Tested.TallyTwoCopied` | test_flatten.py:111 | two successful copies tally as two successes and no failure |
| `Tested.TwoTargetsOneName` | test_flatten.py:112-129 | two copied targets sharing name `x` end as `x` and `x` numbered 1 |
| `Tested.CollisionScenario` | test_flatten.py:112-129 | the collision case gives exactly `dir1_file.xlsx`, holding the top-level file, and `dir1_file_1.xlsx`, holding the nested `dir1/file.xlsx`, with 2 successes and 0 failures |

## Left out

- Traversal by `rglob('*')` and the `is_file()` test (flatten.py:37-38) are filesystem I/O. The scan is a given sequence of entries with an is-file flag. The order of entries within one directory is not fixed by pathlib, so the scenarios use one such order.
- What `shutil.copy2` does to contents and metadata (flatten.py:60) is foreign I/O. Each copy's outcome comes from an oracle, and a failed copy leaves the destination unchanged, so a partial file is not modelled.
- `Flatten.Destination.Write`: the destination listing holds files only. When `shutil.copy2` (flatten.py:60) is given a destination path that is an existing directory, it copies into that directory as `<dir>/<file name>` and does not replace it. A reused destination holding, say, a directory `dir1_file.xlsx/` therefore behaves differently from the model.
- `Flatten.CopyAll`: destination names are compared exactly, as on a case-sensitive file system. The hard-coded paths (flatten.py:74-77) are Windows paths. On Windows, and on macOS by default, names equal up to case (or up to Unicode normalisation) are the same file, so they overwrite too. For example, `Dir1/a.xlsx` and a root-level `dir1_A.xlsx` give one file there and two in the model. `CopyAllNames` and `CopyAllLastWriterWins` hold only for an exact-name file system.
- `Tested.Table`: the collision table is keyed by the exact flattened name, so it does not number names that are equal only up to case.
- `Tested.Resolve`: it follows the numbering rule the collision test expects (test_flatten.py:124-129) and does not promise names unique across a run. For `a.xlsx`, `a.xlsx`, `a_1.xlsx` the second `a.xlsx` is written as `a_1.xlsx` and then overwritten by the third file, so one of the colliding files does not survive. For `a_1.xlsx`, `a.xlsx`, `a.xlsx` see `NumberedRepeatCanMeetExistingName`.
- The model keeps the source tree and the destination apart: the scan is fixed before the first copy, and a `FileId` names the path a file was copied from, not the content that path held at scan time. flatten.py does not stop the destination from lying inside the source tree: it creates the destination (flatten.py:27) before the scan (flatten.py:37) and copies afterwards (flatten.py:60). Take source `S` and destination `S/out`, with `S/x.xlsx` and an older `S/out/x.xlsx`. The scan lists `x.xlsx` before `out/x.xlsx`. The first copy overwrites `S/out/x.xlsx`, so the second copy writes the content of `S/x.xlsx` to `out_x.xlsx`. The model records `out_x.xlsx` as copied from `out/x.xlsx` and does not say that the old content is gone. When the source is the destination, each root-level target would be copied onto itself, which `shutil.copy2` refuses with `SameFileError`. The model leaves that outcome to the oracle.
- `mkdir` failures (flatten.py:27), such as a destination that is a regular file, are not modelled. They raise outside the `try` and end the run.
- `tqdm` progress and every `print` or `tqdm.write` line (flatten.py:10, 23, 32-43, 64-67) are output only. The failure report is kept as the returned `CopyError` values (file name, message).
- The hard-coded Windows paths and the `__main__` entry point (flatten.py:74-80) are not modelled.
- `Paths.Lower`: maps only ASCII A-Z, where Python's `str.lower` is Unicode-aware. Every target extension is ASCII, so the selection is affected only for names whose suffix holds non-ASCII letters that lower-case into ASCII.
- `Paths.Suffix`: follows the rule of Python 3.10 `PurePath.suffix` (last dot, neither first nor last character). The script header's `requires-python >=3.10` (flatten.py:2) admits later versions, whose pathlib rules differ on leading and trailing dots. A trailing dot cannot make a target extension. A name that starts with several dots, such as `..xlsx`, has the suffix `.xlsx` under the modelled rule and is collected (`LeadingDotsSelected`); a pathlib that skips leading dots gives it no suffix and skips it.
- Environment configuration (`TARGET_EXTENSIONS`, `LOG_FILE`) and log-file output (test_flatten.py:42-61, 131-156) belong to the tested version only and depend on the environment. The model uses the fixed extension set of flatten.py:30.
- `Tested.TestedRun`: the same-directory test (test_flatten.py:63-68) depends on OS path resolution. It is the boolean parameter `sameDirectory`. Neither flatten.py nor its tests say whether the destination gets created on that path or on the empty-result path, so `Summary` does not say.
- `Tested.TestedRun`: flatten.py has no collision namer. The model assigns a resolved name to every target before its copy, whether or not the copy succeeds.
- The tally and log messages of the tested version (test_flatten.py:80-111) are kept as counts in `Summary.Completed`, not as the texts.
