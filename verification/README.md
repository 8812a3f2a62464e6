# minigrep search core in Dafny

A model of the search core of minigrep, a small `grep`-like command-line tool
written in Rust, together with proofs about it. Everything modelled lives in
`src/lib.rs`:

- `search(query, contents)`: splits the text into lines with `str::lines`.
  For every line it computes the offsets of the query with `str::match_indices`.
  It returns `(offsets, (line_number, line))` for the lines with at least one
  offset.
- `search_case_insensitive(query, contents)`: the same, except that the
  offsets are those of the lowercased query in the lowercased line. The
  result still carries the original line.
- `split_by_matches(line, indices, query_len)`: cuts a line into plain and
  highlighted (`red()`) chunks at the reported offsets. The result is what
  the tool prints.
- The directory walk of `run_dir` and `run_dir_with_git`, over an in-memory
  tree of directory entries. It captures:
  - the hidden-entry filter;
  - the ignore rule, passed in as a parameter;
  - descending into directories and dispatching one job per file, with its
    full path;
  - the errors that end the walk early.

Files:

| file | module | contents |
|---|---|---|
| `wrappers.dfy` | `Wrappers` | `Option` and `Result` |
| `text.dfy` | `Text` | `str::lines`, ASCII lowercasing, occurrences of a substring |
| `matching.dfy` | `Matching` | `str::match_indices`: a leftmost, non-overlapping scan |
| `search.dfy` | `Searching` | `search`, `search_case_insensitive` |
| `highlight.dfy` | `Highlight` | `split_by_matches`, as a recursive function and as the loop it is written as |
| `walker.dfy` | `Walker` | `run_dir` / `run_dir_with_git` over an in-memory tree |
| `lib_tests.dfy` | `LibTests` | the unit tests of `src/lib.rs`, as lemmas |
| `doc_examples.dfy` | `DocExamples` | the examples in the documentation comments of `src/lib.rs`, as lemmas |

Modelling decisions:

- **Lines** follow the Rust standard library:
  - The text is cut after each `'\n'`, and that `'\n'` is removed.
  - A `'\r'` is removed only when it comes right before a removed `'\n'`.
  - The empty text has no lines, and a final `'\n'` does not start an extra
    empty line.
- **`match_indices`** scans left to right. After a match it resumes at the
  end of the match, so matches never overlap. An empty query matches at every
  offset from 0 to the length of the line inclusive. This case is modelled
  rather than excluded, because the source accepts an empty query.
- **Panics** of `split_by_matches` become `Failure` values:
  - an offset behind the consumed part of the line (the `usize` subtraction
    `index - real_index` underflows);
  - an offset past the rest of the line (`split_at` panics);
  - a match that runs past the end of the line (`rest[..query_len]` panics).
- **Walk errors.** The walk stops with an error when an entry's metadata
  cannot be read, or when a directory cannot be entered and listed. Jobs
  dispatched before the error stay dispatched. An entry the listing cannot
  read is skipped.
- **Order of checks.** The metadata lookup comes before the hidden-entry
  filter. So a hidden entry whose metadata fails (a dangling symbolic link
  named `.x`, say) ends the walk even when hidden files are not shown.
  `run_dir_with_git` consults the ignore rule before the metadata lookup, so
  an ignored entry never fails. `run_dir` is the same walk with an ignore rule
  that ignores nothing.
- **Paths.** The walk lists `current_dir()` after changing into the target
  directory, so every entry path is absolute. The model carries the absolute
  directory path down the recursion and does not model the process-wide
  working directory. A subdirectory's path is its entry's path, the parent's
  path joined with its name as `Path::join` joins a plain name. The real
  `current_dir()` resolves symbolic links instead (see "Left out").

## Model

| member | source | states |
|---|---|---|
| Text.LinesOfUnlines | src/lib.rs:226-227 | Splitting into lines undoes joining lines with `'\n'`, for lines with no `'\n'` and no trailing `'\r'` |
| Text.UnlinesOfLines | src/lib.rs:226-227 | For text without `'\r'`, joining the lines back with `'\n'` gives the text, with a final `'\n'` added when it had none |
| Text.LinesHaveNoLineFeed | src/lib.rs:226-227 | No line contains a line feed |
| Text.LinesCons | src/lib.rs:226-227 | A line followed by `'\n'` is the first line, and the lines of the rest follow it |
| Text.LinesOfUnlinesThen | src/lib.rs:226-227 | Complete lines followed by more text split into those lines followed by the lines of the rest |
| Text.LinesOfUnlinesCrLf | src/lib.rs:226-227 | Lines joined with `"\r\n"` endings split back into the same lines: the `'\r'` before each `'\n'` is removed |
| Text.LinesOfLineFeedFree | src/lib.rs:226-227 | A text without `'\n'` is one line, kept whole, including a trailing `'\r'`; the empty text has no lines |
| Text.CarriageReturnExamples | src/lib.rs:226-227 | `"a\r"` is the single line `"a\r"`, while `"a\r\n"` is the single line `"a"` |
| Text.LinesOfLower | src/lib.rs:263-269 | Lowercasing the text and then splitting it gives the lowercased lines, one for one |
| Text.FindLineFeedLower | src/lib.rs:263-269 | Lowercasing does not move the first line feed |
| Matching.MatchesFromLeftmost | src/lib.rs:230-234 | The scan returns the leftmost occurrence, then the leftmost one after its end, and so on, with no occurrence skipped |
| Matching.LeftmostSound | src/lib.rs:230-234 | Every offset found that way is an occurrence, and consecutive occurrences do not overlap |
| Matching.MatchesFromSkips | src/lib.rs:230-234 | The scan passes over positions that do not hold the query's first character |
| Matching.NoFirstCharNoMatches | src/lib.rs:230-234 | A line without the query's first character has no offsets |
| Matching.LeftmostUnique | src/lib.rs:230-234 | At most one offset list is leftmost-first for a non-empty query |
| Matching.MatchIndicesCharacterised | src/lib.rs:230-234 | For a non-empty query, an offset list equals `match_indices` if and only if it is the leftmost-first sequence of occurrences |
| Matching.MatchIndicesSound | src/lib.rs:230-234 | Every offset is an occurrence of the query; offsets increase, and each starts at or after the end of the previous match |
| Matching.MatchIndicesLeftmost | src/lib.rs:230-234 | A non-empty query yields the leftmost-first occurrences; the empty query yields every offset from 0 to the line length |
| Matching.MatchIndicesFound | src/lib.rs:230-234 | There is at least one offset if and only if the line contains the query |
| Matching.MatchIndicesCoverAll | src/lib.rs:230-234 | Every occurrence of a non-empty query overlaps some reported match, so none is missed |
| Searching.KeepMatchedSound | src/lib.rs:237 | The filter keeps only entries with offsets, unchanged, with strictly increasing line numbers |
| Searching.KeepMatchedComplete | src/lib.rs:237 | The filter drops no entry that has offsets |
| Searching.KeepMatchedAll | src/lib.rs:237 | When every entry has offsets, the filter keeps the list as it is |
| Searching.AnnotatedHits | src/lib.rs:226-238 | Each hit carries its line number, its line as written, and the offsets of the query in its key; a line is reported if and only if its key contains the query |
| Searching.HitsAreAnnotated | src/lib.rs:226-238 | Each hit is a numbered line as written, with the offsets of the query in its key, and those offsets show the key contains the query; hits are in line order |
| Searching.HitsReported | src/lib.rs:226-238 | A line is reported if and only if its key contains the query |
| Searching.SearchSpec | src/lib.rs:222-239 | Each hit's line is the line with that number, and its offsets are non-empty, non-overlapping, leftmost-first occurrences of the query. Hits are in line order, and a line is reported if and only if it contains the query |
| Searching.SearchCaseInsensitiveSpec | src/lib.rs:257-277 | Each hit carries the original line, and its offsets are non-overlapping occurrences of the lowercased query in the lowercased line. Hits are in line order, and a line is reported if and only if its lowercase form contains the lowercased query |
| Searching.CaseInsensitiveIsSearchOfLowered | src/lib.rs:257-277 | Case-insensitive search reports the same line numbers and offsets as case-sensitive search of the lowercased query in the lowercased text, but keeps each original line |
| Searching.SearchWithinCaseInsensitive | src/lib.rs:257-277 | Every line that case-sensitive search reports, case-insensitive search reports too |
| Searching.CaseInsensitiveIgnoresQueryCase | src/lib.rs:261 | The result does not depend on the case of the query |
| Highlight.CutSpec | src/lib.rs:318-321 | One iteration's chunks spell the line from the cursor to the end of the match, and highlight exactly the match |
| Highlight.SplitFromSucceeds | src/lib.rs:314-328 | The loop finishes without a panic if and only if each offset is at or after the consumed prefix and each match fits in the line |
| Highlight.SplitFromRebuilds | src/lib.rs:314-328 | On success the chunks spell the unconsumed rest of the line |
| Highlight.SplitFromHighlights | src/lib.rs:314-328 | On success there is one highlighted chunk per offset, holding the line's text at that offset |
| Highlight.SplitFromPlaces | src/lib.rs:314-328 | On success the highlighted chunks start, in the spelled-out line, exactly at the offsets, in order |
| Highlight.SplitFromShape | src/lib.rs:314-328 | On success every plain chunk but the last is non-empty and is followed by a highlighted chunk, so no two plain chunks are adjacent; the last chunk is plain and holds the text after the last match |
| Highlight.SplitFromRedWidth | src/lib.rs:321 | On success every highlighted chunk is as long as the query |
| Highlight.SplitFromSplitsAt | src/lib.rs:314-328 | On success the chunks are a correct split: they spell the rest of the line, highlight query-length text at exactly the offsets, and are well shaped |
| Highlight.SplitsAtLast | src/lib.rs:328 | A correct split that is a single chunk is the plain rest of the line, with no offsets |
| Highlight.SplitsAtRed | src/lib.rs:314-326 | A correct split that opens with a highlighted chunk has its first offset at the cursor; the remaining chunks split the rest after the match |
| Highlight.SplitsAtNormal | src/lib.rs:314-326 | A correct split that opens with plain text has a highlighted chunk next, at the first offset; the chunks after it split the rest after the match |
| Highlight.SplitFromDetermined | src/lib.rs:314-328 | Any correct split of the rest of the line is the one the loop returns |
| Highlight.SplitByMatchesCharacterised | src/lib.rs:305-331 | `split_by_matches` returns a list of chunks if and only if that list spells the line, highlights query-length text starting exactly at the offsets, and never has two plain chunks in a row or an empty plain chunk before a match; so the output is determined by the line, the offsets and the query length |
| Highlight.SplitByMatchesSpec | src/lib.rs:305-331 | Succeeds if and only if the offsets are placed in order within the line. Then the chunks rebuild the line, the highlighted chunks start exactly at the offsets and the k-th holds the text at the k-th offset, plain chunks before a match are non-empty and followed by a highlighted chunk, and a plain chunk always comes last |
| Highlight.GlueStep | src/lib.rs:314-326 | One loop iteration moves one offset's chunks from what remains to be computed to what is already pushed |
| Highlight.SplitByMatchesLoop | src/lib.rs:305-331 | The loop as written, with its cursor and growing output vector, panics exactly where the recursive definition does and otherwise returns the same chunks |
| Highlight.SearchHitsRebuild | src/lib.rs:106 | For every hit of `search`, splitting its line at its offsets with the query length succeeds, rebuilds the line, and highlights exactly the query, once per offset |
| Highlight.LowerMatchesRebuild | src/lib.rs:106 | Splitting a line at offsets of the lowercased query in the lowercased line rebuilds the line and highlights the query up to case |
| Highlight.CaseInsensitiveHitsRebuild | src/lib.rs:106 | For every hit of `search_case_insensitive`, the split succeeds, rebuilds the original line, and highlights the query up to case, once per offset |
| Highlight.SplitOneMatch | src/lib.rs:369-384 | One match in `safe, fast, productive.` gives plain `safe, fast, pro`, highlighted `duct`, plain `ive.` |
| Highlight.SplitAdjacentMatches | src/lib.rs:396-414 | Adjacent matches in `Pick three, rustrust.` give two adjacent highlighted chunks with no empty plain chunk between them |
| Highlight.SplitPanics | src/lib.rs:314-321 | Out-of-order offsets, an offset past the line, and a match running off the end each give their own failure |
| Walker.Join | src/lib.rs:175 | An entry's path starts with its directory's path and ends with its name; a separator stands right before the name unless the directory is empty, and at most one separator is added |
| Walker.JoinInjective | src/lib.rs:175 | Different names in one directory give different paths |
| Walker.RunDirDispatches | src/lib.rs:167-203 | A start that is not a listable directory fails at once with no jobs; every job is a file reached from the start, and a walk that ends without an error dispatches every such file; the walk fails if and only if the start cannot be listed or some entry breaks it |
| Walker.ReachedIsUnder | src/lib.rs:175-197 | Every file reached through an entry lies at or below the entry's path |
| Walker.UnderDifferentNames | src/lib.rs:175 | Paths at or below two different names of one directory are different |
| Walker.SeparateEntries | src/lib.rs:173-201 | A job of one entry is never a job of a later entry of the same listing |
| Walker.JobsDistinct | src/lib.rs:171-201 | In a tree whose names are proper and distinct within each directory, the walk dispatches no path twice |
| Walker.EntryJobsDistinct | src/lib.rs:174-197 | The same for a single entry |
| Walker.RunDirDistinct | src/lib.rs:167-203 | A whole walk of such a tree searches no file twice |
| Walker.WalkAppend | src/lib.rs:171-203 | Walking a listing in two parts is walking the first part and, only if it ends without an error, the second |
| Walker.FaultStopsWalk | src/lib.rs:176 | After an error, the remaining entries are not visited: the walk's jobs and error stay those of the part that failed |
| Walker.EarlierJobsRemain | src/lib.rs:171-201 | Jobs dispatched by the first part of a listing stay, in order, at the front of the jobs of the whole listing, whether or not a later entry fails |
| Walker.FaultIffBreaks | src/lib.rs:171-201 | A listing's walk ends with an error if and only if some entry that is readable and not ignored has metadata that cannot be read, or passes the hidden filter and is a directory that cannot be listed or whose own listing breaks |
| Walker.EntryFaultIffBreaks | src/lib.rs:174-197 | The same for a single entry: the ignore rule comes first, then the metadata lookup, then the hidden filter, then entering a directory |
| Walker.JobsAreReached | src/lib.rs:171-201 | Every dispatched job is the full path of a file reached only through entries that pass the filter and the ignore rule |
| Walker.ReachedAreJobs | src/lib.rs:171-201 | A walk that ends without an error dispatches every such file |
| Walker.DispatchedIffReached | src/lib.rs:171-201 | For a walk that ends without an error, a path is dispatched if and only if it is a reached file; every job is a reached file in any case |
| Walker.PruneLeavesNoHidden | src/lib.rs:189 | Removing hidden entries leaves no file or directory with a hidden name, at any depth; only entries whose metadata fails are kept whatever their name |
| Walker.PruneEntryLeavesNoHidden | src/lib.rs:189 | The same for a single entry |
| Walker.HiddenIsPruned | src/lib.rs:189-197 | With hidden files not shown, the walk equals the walk with hidden files shown over the tree with hidden entries removed. So hidden directories are never entered and hidden files never dispatched |
| Walker.HiddenEntryIsPruned | src/lib.rs:189-197 | The same for a single entry |
| Walker.HiddenEntrySkipped | src/lib.rs:189 | A hidden file or directory contributes nothing when hidden files are not shown |
| Walker.OneJobPerFile | src/lib.rs:171-201 | With hidden files shown and nothing ignored, a walk of a tree without failing entries ends without an error, with as many jobs as the tree has files |
| Walker.OneJobPerEntry | src/lib.rs:174-197 | The same for a single entry |
| Walker.SmallTreeHidden | src/lib.rs:189-197 | A root with `a.txt`, `.secret` and `sub/b.txt` gives two jobs, for `a.txt` and `sub/b.txt`, when hidden files are not shown |
| Walker.SmallTreeShown | src/lib.rs:189-197 | The same tree gives three jobs when hidden files are shown |
| LibTests.PoemLines | src/lib.rs:340-344 | The text of the `case_sensitive` test has the four lines the test writes |
| LibTests.TrustPoemLines | src/lib.rs:352-356 | The text of the `case_insensitive` test has the four lines the test writes |
| LibTests.CaseSensitive | src/lib.rs:338-347 | `search("duct", …)` returns exactly `[([15], (1, "safe, fast, productive."))]`; `DUCT TAPE!` differs in case and is not reported |
| LibTests.CaseInsensitive | src/lib.rs:350-366 | `search_case_insensitive("rUsT", …)` returns exactly the hits `([0], 0)`, `([12, 16], 2)` and `([1], 3)`, each with its line as written |
| LibTests.SplitOneMatchOfSearch | src/lib.rs:369-384 | Splitting the first hit of `case_sensitive` gives plain `safe, fast, pro`, highlighted `duct`, plain `ive.` |
| LibTests.SplitMultipleMatchesOfSearch | src/lib.rs:396-414 | Splitting the second hit of `case_insensitive` gives plain `Pick three, `, highlighted `rust` twice, plain `.` |
| DocExamples.SearchExample | src/lib.rs:210-220 | `search("test", …)` on the documented two-line text returns exactly `([4], (0, …))` and `([14], (1, "THIS IS A TesTtestTest"))`; `TesT` and `Test` differ in case and are not reported |
| DocExamples.SearchCaseInsensitiveExample | src/lib.rs:247-255 | `search_case_insensitive("test", …)` returns exactly `([4, 24], (0, …))` and `([10, 14, 18], (1, …))`, each with its line as written |
| DocExamples.SplitExample | src/lib.rs:284-303 | Splitting the first case-insensitive hit gives plain `I'm `, highlighted `teST`, plain `ing a case sensi`, highlighted `test`, plain `ive query`: a highlighted chunk keeps the case the line is written in |

## Left out

- The thread pool (`src/thread_pool.rs`): jobs are recorded as the paths they would search and are never run. Worker threads, channels and shutdown are concurrency this model does not cover.
- `src/main.rs`: argument handling, the choice between `run`, `run_dir` and `run_dir_with_git`, and `Config::build`. The choice of walk appears only as the `ignored` parameter.
- `run`: reading a file and printing its hits with colours and line numbers. It is file I/O and terminal output. What it prints is the output of `split_by_matches`, which is modelled.
- Real file-system access: changing and restoring the working directory, `read_dir`, `metadata`. These are abstracted into the `Entry` tree:
  - the listing order is the order of the sequence;
  - a failure to return to the parent directory after a subdirectory is not modelled;
  - a cycle through symbolic links, which would make the real walk recurse until an I/O error or a stack overflow ends it, cannot be expressed in a finite tree.
- `Repository::is_path_ignored` is a call into the git2 library. It is a parameter of the walk, and its own error result is not modelled.
- Symbolic links to directories: the real walk changes into a directory and lists `current_dir()`, which resolves symbolic links, so the files under a linked directory are dispatched under the target's physical path. The model names them by the link's own path, the parent's path joined with the link's name. Modelling this needs the physical location of every directory, which the `Entry` tree does not carry.
- Walker.RunDirDistinct: holds for the tree as modelled. On a real file system a symbolic link to a directory that is also walked directly makes the walk search the same physical files twice, for the reason above.
- Walker.RunDirDispatches: does not model a path that is not valid UTF-8, which makes the real code keep the parent's path (`path.to_str()` returning `None`) or panic (`file_name().unwrap().to_str().unwrap()`). Model strings are always valid text.
- Text.Lower: lowercasing is ASCII only, so it keeps the length and the offsets. Rust's `to_lowercase` is full Unicode and can change the length of a string. Then offsets found in the lowercased line do not line up with the original line that `split_by_matches` cuts.
- Text.LinesOfLineFeedFree: `Lines` follows the current standard library's `str::lines`, which keeps a final `'\r'` that no `'\n'` follows. Older Rust versions stripped that `'\r'` as well; under them `"a\r"` would be the line `"a"`.
- Offsets are character positions, not byte positions. With ASCII text they coincide. `split_at` panicking inside a multi-byte character is not modelled.
- Highlight.SplitByMatchesLoop: models the subtraction `index - real_index` as a panic when it would go negative, as in a debug build. A release build wraps around instead, and then `split_at` panics; either way the call panics.
- Colours are chunk tags (`Normal`, `Red`); the terminal escape codes of the `colored` crate are left out.
