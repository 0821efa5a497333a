# Staged-commit packager: a verified model of its core logic

The script `Tr-merge-utlity-local.py` lets a developer pick commits of the
current branch within a date range and copy the files each picked commit
changed into a fresh `staging_folder`. It writes a `changes.json` manifest
there and zips the folder into `staged_commits.zip`. Most of the script
drives git, the disk and a terminal. This project models the sequential
logic underneath, with git and the disk replaced by abstract inputs:

- `Dates` (dates.dfy): `parse_date_input`, i.e. `datetime.strptime(text,
  "%d/%m/%Y")`. It is modelled as the regular expression Python's
  `_strptime` builds for that format. That is `%d` =
  `3[01]|[12]\d|0[1-9]|[1-9]| [1-9]`, `%m` = `1[0-2]|0[1-9]|[1-9]` and `%Y` =
  `\d\d\d\d`, with the alternatives tried in order and backtracking. After
  the match come the "unconverted data remains" check and `datetime`'s
  calendar check (Gregorian leap years, years 1 to 9999). `Spells` is an
  independent description of the accepted texts. `ParseDateCorrect` proves
  that the parser and `Spells` agree.
- `Commits` (commits.dfy): `get_commits_between_dates`. It has three guards,
  then calls the backend, then does `commits.sort(key=committed_date,
  reverse=True)` as a stable insertion sort in place on an array. The backend (`iter_commits` with
  `since`/`until`) is a function parameter.
- `Staging` (staging.dfy): `copy_files_to_staging`. The working tree and the
  staging folder are `map<Path, Content>`. Whether the copy of an existing
  file fails is the parameter `copyFails`. The folder is a class whose
  `files` field the copier updates.
- `Selection` (selection.dfy): the `while True` loop of `main` over the
  operator's lines. It records in-range indices, skips root commits, diffs
  other commits against their first parent and accumulates the staged set.
  `Run` is its specification and `SelectionLoop` is the loop itself.
- `Session` (session.dfy): the part of `main` after the dates are read. It
  covers the range query, the fresh folder, the loop, the checks after the
  loop, the manifest list and the archive membership. It ends with the
  worked scenario of a root commit and two commits changing `a.txt` and
  `b/c.txt`.

Behaviour the code fixes, which the model follows:
- Newest first is not strict. The code sorts by `committed_date` with
  `reverse=True`, so equal timestamps are allowed and `NewestFirst` is
  non-strict.
- Re-selecting an index records it again in `selected_commit_indices` and
  copies the same files again. The staged set and the folder come out the
  same as after one selection (`ReselectionIsIdempotent`).
- `changes.json` is written into the staging folder after the copies. A
  staged file of that name at the folder's root is replaced by the manifest
  and is still listed in it (`ArchiveMatchesManifest`).
- `%d` and `%m` accept one digit, and `%d` also accepts a space followed by a
  digit (`" 5/07/2021"`). These are not only the two-digit fields the
  prompt shows.

## Model

| member | source | states |
|---|---|---|
| `Dates.DaysInMonth` | Tr-merge-utlity-local.py:14 | month lengths of the Gregorian calendar: 29 exactly for February of a leap year, 28 for February otherwise, 30 for April, June, September, November |
| `Dates.ParseDate` | Tr-merge-utlity-local.py:11-16 | a date is returned only when it is a real calendar date in years 1..9999 |
| `Dates.ParseDateCorrect` | Tr-merge-utlity-local.py:11-16 | parsing yields date d exactly when the text is a day field, `/`, a month field, `/`, a four-digit year with nothing left over, reading d, and d is a real calendar date in years 1..9999; otherwise None |
| `Dates.MatchFormatSound` | Tr-merge-utlity-local.py:14 | whatever the backtracking matcher accepts to the end of the text is a day/month/year spelling of the date it reads |
| `Dates.MatchFormatComplete` | Tr-merge-utlity-local.py:14 | every day/month/year spelling is matched by the format, to its end, as the date it spells, whatever alternatives are tried first |
| `Dates.CanonicalTextRoundTrip` | Tr-merge-utlity-local.py:11-16 | the zero-padded dd/mm/yyyy text of every calendar date parses back to that date |
| `Dates.TrailingTextRejected` | Tr-merge-utlity-local.py:14 | no text that parses stays parseable with anything appended |
| `Dates.NoSeparatorRejected` | Tr-merge-utlity-local.py:14-16 | a text without `/` never parses |
| `Dates.RejectsThirtyFirstFebruary` | Tr-merge-utlity-local.py:13-16 | 31/02/2021 gives None |
| `Dates.RejectsLeapDayOfCommonYear` | Tr-merge-utlity-local.py:13-16 | 29/02/2019 gives None |
| `Dates.RejectsThirtyFirstApril` | Tr-merge-utlity-local.py:13-16 | 31/04/2021 gives None |
| `Dates.RejectsYearZero` | Tr-merge-utlity-local.py:13-16 | year 0000 gives None |
| `Dates.AcceptsLeapDay` | Tr-merge-utlity-local.py:13-16 | 29/02/2020 is 29 February 2020 |
| `Dates.AcceptsOneDigitFields` | Tr-merge-utlity-local.py:14 | 1/2/2021 is 1 February 2021 |
| `Dates.AcceptsSpacePaddedDay` | Tr-merge-utlity-local.py:14 | " 5/07/2021" is 5 July 2021 |
| `Dates.OtherFormatsRejected` | Tr-merge-utlity-local.py:13-16 | ISO order with `-`, month 13 and day 00 give None |
| `Dates.DateLeTotal` | Tr-merge-utlity-local.py:33 | the date order used by the start/end guard is reflexive, total, antisymmetric and transitive |
| `Commits.CheckRange` | Tr-merge-utlity-local.py:25-35 | the range is accepted exactly when both texts parse and start is not after end; its bounds are the parsed dates; an unparseable start is reported first, then an unparseable end |
| `Commits.SortedNewestIsNewestFirst` | Tr-merge-utlity-local.py:40 | the stable newest-first order of any commit list has non-increasing `committed_date` |
| `Commits.SortedNewestPermutes` | Tr-merge-utlity-local.py:40 | the stable newest-first order holds exactly the commits of the list, each as often |
| `Commits.SortedNewestIsStable` | Tr-merge-utlity-local.py:40 | in the stable newest-first order, the commits of each time appear in the order the list had them |
| `Commits.NewestFirstStableIsUnique` | Tr-merge-utlity-local.py:40 | any newest-first list that keeps the commits of each time in the list's order is the stable newest-first order, so those properties fix the sort's result |
| `Commits.InsertNewestAt` | Tr-merge-utlity-local.py:40 | the stable insertion puts the new commit right after the last commit at least as new as it, ahead of every strictly older one |
| `Commits.ShiftOlder` | Tr-merge-utlity-local.py:40 | the walk back of the insertion step stops at the first commit not older than the inserted one; everything it passed moved up one place and is strictly older |
| `Commits.InsertLast` | Tr-merge-utlity-local.py:40 | the insertion step of the in-place sort: the element at i walks back past every strictly older commit, and the array beyond i is unchanged |
| `Commits.SortNewestFirst` | Tr-merge-utlity-local.py:40 | the array after sorting in place is the stable newest-first order of what it held |
| `Commits.GetCommitsBetweenDates` | Tr-merge-utlity-local.py:19-41 | a refused range gives `[]` regardless of the backend; an accepted one gives a permutation of the backend's commits for that branch and those dates, newest first, with the commits of each time in the backend's order |
| `Staging.StagedFiles` | Tr-merge-utlity-local.py:50-65 | a path is staged exactly when it is among the changed paths, exists in the working tree and its copy does not fail, so the result is a subset of the changed paths and never holds a missing one |
| `Staging.CopiedTree` | Tr-merge-utlity-local.py:51-60 | after copying, the folder's paths are the old ones plus the staged ones; each staged path holds its working-tree content; every other path is unchanged |
| `Staging.StagingFolder.constructor` | Tr-merge-utlity-local.py:137-141 | the folder of a run starts empty |
| `Staging.StagingFolder.CopyFilesToStaging` | Tr-merge-utlity-local.py:44-65 | the loop returns the staged set and leaves the folder as `CopiedTree` of the old one |
| `Staging.StagingFolder.WriteFile` | Tr-merge-utlity-local.py:73-75 | writing a file sets that path to the new content, replacing any file there, and leaves every other path as it was |
| `Staging.CopyIsIdempotent` | Tr-merge-utlity-local.py:52-60 | copying the same paths again from the same working tree leaves the folder as after the first copy |
| `Staging.MissingPathNotStaged` | Tr-merge-utlity-local.py:53-64 | a path missing from the working tree is never staged and never appears in the folder unless it was already there |
| `Selection.Strip` | Tr-merge-utlity-local.py:147 | the stripped line is the contiguous middle of the line, with white space only outside it and none at its ends |
| `Selection.Lower` | Tr-merge-utlity-local.py:147 | the length is kept; no capital ASCII letter is left; each capital becomes the matching small letter; every other character is kept |
| `Selection.Classify` | Tr-merge-utlity-local.py:147-151 | a line is the finish token exactly when it strips to `e` or `E`; otherwise it is an index exactly when `int` accepts the stripped, lower-cased text, with that value |
| `Selection.Process` | Tr-merge-utlity-local.py:154-167 | processing a commit adds what its first-parent diff stages to the staged set and copies those files into the folder; a root commit changes nothing |
| `Selection.Step` | Tr-merge-utlity-local.py:150-171 | an in-range index is appended and its commit processed: the staged set grows by what it stages and the folder becomes the copier's result (nothing for a root commit); an out-of-range or non-numeric line leaves the whole state unchanged |
| `Selection.Run` | Tr-merge-utlity-local.py:146-171 | each line read records at most one index, and the loop can end through `e` only on a line it reads |
| `Selection.SelectionLoop` | Tr-merge-utlity-local.py:143-171 | the loop ends in the state and with the finish flag that `Run` gives from an empty selection and the given folder |
| `Selection.LinesAfterFinishIgnored` | Tr-merge-utlity-local.py:148-149 | `e` ends the loop; lines after it have no effect |
| `Selection.FinishedExactlyWithFinishLine` | Tr-merge-utlity-local.py:146-149 | the loop ends through `e` exactly when some line is `e` |
| `Selection.RunOnlyGrows` | Tr-merge-utlity-local.py:153-166 | the selected list only gains entries at its end, and the staged set only grows |
| `Selection.ContributionsMembers` | Tr-merge-utlity-local.py:153-166 | a path is accumulated exactly when some selected in-range commit stages it |
| `Selection.ContributionsOfSameSet` | Tr-merge-utlity-local.py:153-166 | the accumulated set depends only on the set of selected indices |
| `Selection.StepKeepsConsistent` | Tr-merge-utlity-local.py:150-171 | one step keeps the loop invariant: indices in range, staged set = union of the selected commits' contributions, folder = staged set with working-tree contents |
| `Selection.RunKeepsConsistent` | Tr-merge-utlity-local.py:146-171 | the whole loop keeps that invariant |
| `Selection.SameSelectionSameFiles` | Tr-merge-utlity-local.py:153-166 | two consistent states with the same selected indices have the same staged set and the same folder |
| `Selection.RunAppend` | Tr-merge-utlity-local.py:146-171 | running two stretches of lines without `e` is running one after the other |
| `Selection.RunSelectedIndices` | Tr-merge-utlity-local.py:146-153 | an index is recorded exactly when it was already recorded or some line read before the first `e` names it in range |
| `Selection.ReselectionIsIdempotent` | Tr-merge-utlity-local.py:153-166 | selecting an index again later, by any line naming the same index, leaves the final staged set and folder as selecting it once |
| `Selection.RunSameSelection` | Tr-merge-utlity-local.py:146-171 | from consistent states with the same selected indices, the same lines lead to the same staged set, folder and ending |
| `Session.ManifestList` | Tr-merge-utlity-local.py:72 | the manifest list holds exactly the staged paths, each once |
| `Session.Conclude` | Tr-merge-utlity-local.py:173-190 | an archive is made exactly when the loop ended with `e` and something was staged; its entries are the folder's files plus `changes.json`, which holds the manifest's JSON, and every other entry has the folder's content; `e` with nothing staged makes none |
| `Session.ArchiveMatchesManifest` | Tr-merge-utlity-local.py:72-88 | from the fresh folder, the archive's entries are the staged set plus `changes.json`; `changes.json` holds the manifest even when a staged file of that name was copied first; every other entry has its working-tree content; the manifest lists exactly the folder's files at write time |
| `Session.StagedSetIsUnionOfSelected` | Tr-merge-utlity-local.py:143-166 | the final staged set is the union of what the selected commits stage |
| `Session.RunSession` | Tr-merge-utlity-local.py:123-190 | no commits (a refused range or an empty backend answer) ends the run with no folder work; otherwise the commits are the stably sorted backend answer, the outcome is `Conclude` of the loop, and an archived manifest lists exactly the staged set |
| `Session.ScenarioRunSelectsTwo` | Tr-merge-utlity-local.py:146-190 | with a root commit and two commits changing `a.txt` and `b/c.txt`, selecting the two and `e` archives exactly those two files, with their working-tree contents, plus the manifest |
| `Session.ScenarioRunRootOnly` | Tr-merge-utlity-local.py:146-175 | index 99 of three is ignored, and selecting only the root commit then `e` stages nothing and makes no archive |

## Left out

- Opening the repository, the detached-HEAD check and `active_branch` (lines 95-107) are git calls. The branch name is a parameter.
- The date prompts and their retry loops (lines 110-121) are left out. `RunSession` takes the two texts the operator finally entered, already stripped.
- `iter_commits` with `since`/`until` is the abstract `Backend`. Whether `until` includes the end date is the backend's business and is not modelled.
- `git diff --name-only parent commit` split into lines is the abstract `Env.diff`.
- `int()` on a line is the abstract `Env.parseInt`. Python's full integer grammar is not modelled.
- Commit messages and the listing of commits with `fromtimestamp` (lines 128-135) are display only.
- The sorted display of selected indices (lines 178-181) is display only.
- `print` diagnostics are not modelled. The error paths they report are modelled as outcomes.
- Strict parsing (`Dates.ParseDate`) reads only ASCII digits. Python's `\d` also matches other Unicode decimal digits, and those texts are treated as rejected here.
- `Selection.Strip` and `Selection.Lower` treat only ASCII white space and letters. Python's `str.strip` and `str.lower` also handle other Unicode characters.
- `Staging.StagingFolder.CopyFilesToStaging` assumes a failed `shutil.copy2` leaves the folder unchanged. A partial copy on disk is not modelled.
- `shutil.copy2` metadata, `os.makedirs` for parent directories and `shutil.rmtree` are not modelled. Folder contents are a map from paths to bytes, with no directories.
- JSON encoding and indentation of `changes.json` are not modelled. The text is the parameter `manifestJson` of the manifest list. `ManifestList` leaves the list order open, as iterating a Python set does.
- ZIP writing, `os.walk` and the archive's entry order are not modelled. The archive is the folder's map of paths to contents after the manifest is written.
- Input that ends before `e` makes `input()` raise `EOFError`. This is modelled as the `InputEnded` outcome, and the traceback itself is not modelled.
- `Env.work` is the working tree as it stands after `shutil.rmtree` (line 140). Tracked files under `staging_folder/` are therefore absent from it.
- The working tree is fixed during the loop. The staging folder lies inside it, so a changed path under `staging_folder/` that an earlier copy created would exist on disk and be copied again. That case is not modelled.
