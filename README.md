# nipa-results in Dafny

A model of the core of `nipa-results`, a viewer for the outcome of a batch
test run stored as a directory tree. The tree has one directory per patch
number, and inside it one directory per test. Each test directory holds a
`retcode` file and, optionally, a `summary` log. The program has two front
ends. One is a plain-text report that sorts the records, prints them grouped
by test and adds totals. The other is a terminal browser: a list of tests with
pass/total counts, and a detail pane with one tab per patch and the selected
patch's log.

The model covers the following:

- `Record`: turning one `retcode` directory into a `Test` record (`Test::new`),
  with Rust's `str::parse` for `u8` and `i64` written out in `Decimal`.
  `Test::new` appears twice in the source, in `src/test.rs:14-35` and
  `src/main.rs:12-33`. The two copies are identical and are modelled once.
- `Store` and `Tui`: the browser's `App`. This covers `from_results`, which
  folds the records into a two-level map (test → patch → exit code, where the
  last record wins). It also covers `handle_key`, the key-driven state
  machine. `Tui.App` is a class whose fields `HandleKey` updates in place. The store, the key list and the root path never change after construction, so they are `const` fields.
  `Navigation.Next` is the function it is proved against.
- `Render`: what the two panes show. That is each test's row label and
  colour, the patch tab strip and its highlight, the log path, the
  placeholder for an unreadable log, and the first visible log line.
- `Report`: `print_results`, as a method that sorts an array in place and
  returns the lines it prints, with the pass and fail counters.
- `Ordering`: shared machinery. It holds Rust's string order and a stable
  insertion sort, with proofs that the sort output is ordered, is a
  permutation of the input and keeps equal-ranked elements in input order.
  It also proves that any stable sort yields the same sequence, which is why
  the library merge sort behind `sort_by` may be modelled by this one.

Some of the source's behaviour may surprise a reader of the program:

- The test list is in the `HashMap`'s iteration order, not sorted by name.
  The model keeps that order as `App.keys`. That field is any enumeration of
  the store's tests, and no contract depends on which one.
- Patch tabs are sorted as text (`"10"` before `"2"`, `Render.TabOrderExample`),
  while the report sorts patches numerically.
- An unreadable `retcode` file panics in `Test::new` (an `unwrap` on the
  read) instead of giving 404. The model makes the file's text a
  precondition. 404 comes only from text that does not parse. Nothing is
  trimmed, so `"0\n"` gives 404 (`Record.ExitCodeSentinel`).
- The first visible log line is `scroll % lines` with no `max(1, …)`, which
  is the second finding below. The model states the source's expression and
  uses the guarded one.

## Model

| member | source | states |
|---|---|---|
| Decimal.DecimalString | src/main.rs:73 | the text `to_string` prints for a number: non-empty, digits only, no leading zero, and its digits denote the number |
| Decimal.ParseU8 | src/test.rs:23-26 | `parse::<u8>` succeeds exactly on an optional `+` followed by digits worth less than 256, and yields their value |
| Decimal.ParseI64 | src/test.rs:33 | `parse::<i64>` succeeds exactly on an optional sign followed by digits whose signed value fits in 64 bits, and yields that value |
| Decimal.ParseU8DecimalString | src/tui.rs:157-160 | printing a `u8` and parsing the text back gives the same number |
| Decimal.DecimalStringInjective | src/tui.rs:157 | distinct patch ids print as distinct texts |
| Decimal.ParseI64DecimalString | src/test.rs:33 | a non-negative `i64` written in decimal parses back to itself |
| Decimal.ParseI64Negative | src/test.rs:33 | `-` followed by the digits of n parses to -n, down to the least `i64` |
| Decimal.ParsersRejectTrailingText | src/test.rs:23-33 | neither parser trims: a non-digit character after the first makes both fail |
| Palette.ExitColour | src/main.rs:66-72 | an exit code shows green exactly when it is 0 and red exactly when it is not |
| Ordering.LexLeTotal | src/tui.rs:158 | string order compares any two strings |
| Ordering.LexLeAntisymmetric | src/tui.rs:158 | two strings ordered both ways are equal |
| Ordering.LexLeTransitive | src/tui.rs:158 | string order is transitive |
| Ordering.LexLeTotalOrder | src/tui.rs:158 | string order is a total order |
| Ordering.InsertBy | src/main.rs:55 | one insertion step adds exactly the new element |
| Ordering.SortBy | src/main.rs:55 | the sort returns a permutation of its input |
| Ordering.InsertBySorted | src/main.rs:55 | inserting into an ordered sequence keeps it ordered |
| Ordering.SortBySorted | src/main.rs:55 | the sort output is ordered by any total preorder |
| Ordering.InsertByEqualTo | src/main.rs:55 | an insertion lands after every element ranked equal to it |
| Ordering.SortByStable | src/main.rs:55 | the sort is stable: each group of equally ranked elements keeps its input order |
| Ordering.SortedUnique | src/tui.rs:158 | under a total order, two ordered arrangements of the same elements are equal |
| Ordering.StableSortUnique | src/main.rs:55 | two ordered, stable arrangements of the same elements are equal, so every stable sort gives one result |
| Ordering.SortByElements | src/tui.rs:158 | sorting keeps the length and the set of elements |
| Ordering.DistinctPermutation | src/tui.rs:158 | a permutation of a sequence without repeats has none |
| Ordering.SameElementsSameMultiset | src/tui.rs:157-158 | two repeat-free sequences with the same elements are permutations of each other |
| Record.FileName | src/test.rs:16 | `file_name` is the last component, present exactly for a non-empty path |
| Record.Parent | src/test.rs:20 | `parent` drops the last component, present exactly for a non-empty path |
| Record.PatchIdOf | src/test.rs:19-28 | the patch id; a non-zero id is always the parent directory's name parsed as `u8` |
| Record.ExitCodeOf | src/test.rs:33 | the exit code; anything but 404 is the `retcode` text parsed as `i64`, and text that does not parse gives 404 |
| Record.NewTest | src/test.rs:14-35 | the record's test is the directory's name, its patch is the parent's name parsed as `u8` or 0, and its result is the `retcode` text parsed as `i64` or 404 |
| Record.NamedPathHasParent | src/test.rs:20-27 | on every path `Test::new` accepts, `parent()` is present, so its `None` arm is unreachable |
| Record.PatchIdDefaults | src/test.rs:19-28 | the patch id is the parent's number when it parses, else 0, and 0 without a parent |
| Record.PatchIdOfNumberedDir | src/test.rs:21-24 | a directory named by a number below 256 gives that patch id |
| Record.PatchIdOfNamedDir | src/test.rs:25 | a directory named `patchA` gives patch id 0 |
| Record.ExitCodeSentinel | src/test.rs:33 | `abc` and `0` followed by a newline give 404, `0` gives 0, `-1` gives -1 |
| Record.Clone | src/test.rs:7-11 | the clone equals the original |
| Store.Insert | src/tui.rs:29-33 | one step of the fold: the record's test is stored, and the record's patch maps to its exit code |
| Store.InsertUpdates | src/tui.rs:29-33 | the step adds the record's test to the tests, and its patch to that test's patches, and leaves every other test and every other patch as it was |
| Store.Aggregate | src/tui.rs:28-35 | the fold of all records, with no more tests than records |
| Store.AggregateTests | src/tui.rs:28-35 | the store's tests are exactly the records' test names |
| Store.AggregatePairs | src/tui.rs:29-33 | a (test, patch) pair is stored exactly when some record carries it |
| Store.AggregateLastWins | src/tui.rs:31 | a pair's stored exit code is that of the last record carrying the pair |
| Store.AggregateNonEmpty | src/tui.rs:32 | every stored test has at least one patch |
| Store.BuildStore | src/tui.rs:27-36 | the loop builds the fold of all records, plus an enumeration listing each test once |
| Store.PatchCounts | src/tui.rs:89 | the patch count of each listed test, in list order |
| Tui.App.Counts | src/tui.rs:89 | in every valid app, one count per listed test, each at least 1 |
| Tui.App.FromResults | src/tui.rs:25-38 | the new app holds the fold of the records and the given path, starts unselected, not exiting and unscrolled, and its key list enumerates the store |
| Tui.App.HandleKey | src/tui.rs:50-108 | the four navigation fields change exactly as `Navigation.Next` says and the app stays valid; the store, key list and path are constants, so `Navigation.NextInBounds` carries over and keeps the selections in bounds |
| Navigation.Next | src/tui.rs:50-108 | the state after one key press; the exit flag is set exactly by `q` or Esc and never cleared (its other properties are the lemmas below) |
| Navigation.Initial | src/tui.rs:26 | the starting state: nothing selected, not exiting, scroll 0 |
| Navigation.Decrement | src/tui.rs:57 | `i.max(1) - 1` steps back one, stopping at 0 |
| Navigation.DownIndexAsWritten | src/tui.rs:65 | Down as written, with `usize` wrap-around: `min(i, T - 2) + 1` with two or more tests, and `i + 1` with fewer |
| Navigation.DownAsWrittenLeavesList | src/tui.rs:65 | with fewer than two tests, Down as written moves to i+1, past the last test |
| Navigation.DownIndex | src/tui.rs:65 | Down moves one forward and stops at the last test |
| Navigation.DownIndexAgrees | src/tui.rs:65 | with two or more tests the guarded Down equals the source's expression |
| Navigation.RightIndex | src/tui.rs:89 | Right moves one patch forward and stops at the last patch |
| Navigation.NextKeepsPatchWithinTest | src/tui.rs:50-108 | no key selects a patch while no test is selected |
| Navigation.NextInBounds | src/tui.rs:50-108 | with at least one test, every key keeps both selections within bounds |
| Navigation.EmptyStoreSelectsPastEnd | src/tui.rs:53-98 | with no tests, any arrow key selects a test that does not exist |
| Navigation.QuitOnlyExits | src/tui.rs:52 | `q` and Esc set the exit flag and change nothing else |
| Navigation.OtherKeysChangeNothing | src/tui.rs:105 | every other key leaves the state unchanged |
| Navigation.WrappingIncrement | src/tui.rs:100 | `scroll += 1` on a `u16` in a release build: one more, and 65535 wraps to 0 |
| Navigation.ScrollKeys | src/tui.rs:99-104 | Enter scrolls one line on (wrapping at 2^16); Backspace one line back, never below 0 |
| Navigation.VerticalMoves | src/tui.rs:53-68 | Up and Down reset the patch to 0 and the scroll to 0, and move the test selection by one within bounds |
| Navigation.HorizontalMoves | src/tui.rs:69-98 | Left and Right reset the scroll, keep the test, move the patch by one within bounds, and select test 0 and patch 0 when nothing was selected |
| Navigation.MovesStopAtEdges | src/tui.rs:57-89 | at the first or last test or patch, a move towards the edge leaves the selection where it is |
| Navigation.SelectionChangeResets | src/tui.rs:53-68 | whenever the test selection changes, the patch returns to 0 and the scroll to the top |
| Navigation.Replay | src/tui.rs:40-48 | the event loop stops exactly when a quit key has been pressed: the result exits exactly when the start state did or the keys hold `q` or Esc, and an exiting state takes no more keys |
| Navigation.ReplayInBounds | src/tui.rs:40-48 | any run of key presses through the event loop keeps the selections in bounds when there is a test |
| Render.PassCount | src/tui.rs:115-116 | the number of patches with exit code 0, at most the number of patches |
| Render.RowColour | src/tui.rs:118-125 | light red exactly at no passes, light green exactly when every one of at least one patch passed, light yellow otherwise |
| Render.PassPlusFail | src/tui.rs:115-116 | passing and failing patches together are all of a test's patches |
| Render.ListRow | src/tui.rs:113-126 | the row reads `<test>  <passes>/<patches>` in decimal; it is light red exactly when no patch passed, light green exactly when all did, light yellow exactly for a mix |
| Render.CountMeaning | src/tui.rs:116-120 | a pass count of 0 means every exit code is non-zero; a pass count equal to the total means every one is 0 |
| Render.PartialRowExample | src/tui.rs:113-126 | patches 1 (exit 0) and 2 (exit 1) of `alpha` give the store `alpha: {1: 0, 2: 1}` and the yellow row `alpha  1/2` |
| Render.List | src/tui.rs:110-139 | one row per test in key order, highlighted in the selected row's own colour exactly when a test is selected |
| Render.Ascending | src/tui.rs:157 | an enumeration of a test's patch ids, strictly increasing |
| Render.EnumerationNames | src/tui.rs:157 | the texts of any enumeration of patch ids are one per patch, without repeats |
| Render.PatchTabs | src/tui.rs:157-158 | the tabs are the patch ids' texts, one per patch, without repeats, in string order |
| Render.TabsIndependentOfKeyOrder | src/tui.rs:157-158 | whatever order the map yields its patch ids in, the tab strip is the same |
| Render.TabOrderExample | src/tui.rs:157-158 | patches 2 and 10 give the tabs `10`, `2` |
| Render.TabParses | src/tui.rs:160 | every tab parses back as `u8` to a patch of the test, so the `unwrap` never fails |
| Render.SelectedPatch | src/tui.rs:160 | the selected tab names a patch of the test |
| Render.LineCount | src/tui.rs:175 | `lines().count()` is 0 exactly for empty text |
| Render.LogText | src/tui.rs:174 | the log shown is the file's text, or `Cannot read <file>`, which has a line |
| Render.EmptyLogPanics | src/tui.rs:175-177 | an empty log makes the start line as written divide by zero |
| Render.StartLine | src/tui.rs:177 | the first visible line lies within the text, and equals the scroll modulo the line count when there are lines |
| Render.StartLineAsWritten | src/tui.rs:175-177 | the source's start line: undefined exactly when the line count's low 16 bits are 0, and otherwise below them |
| Render.StartLineAgrees | src/tui.rs:177 | for 1 to 65535 lines the corrected start line equals the source's |
| Render.LongLogTruncates | src/tui.rs:175-177 | with 65537 lines and scroll 5 the source shows line 0, the corrected start line shows line 5 |
| Render.ScrollForwardCycles | src/tui.rs:99-101 | each Enter moves the first visible line down one, and from the last line back to the first |
| Render.PatchPane | src/tui.rs:155-178 | the pane of a selected patch: the tabs in string order with the selected one marked, that patch's text, a green highlight exactly for exit code 0 and red otherwise, the `<patch>/<test>/summary` header under the root path, the log text (or the placeholder), and the start line, which is the scroll offset modulo the line count and lies within the text |
| Render.DetailPane | src/tui.rs:141-179 | an empty box exactly when no test is at the index (the selection, or 0) or no patch is selected; otherwise the pane of the selected test's selected patch |
| Report.RecordLe | src/main.rs:55 | the report's comparison: records are ordered by test name first, and within one test by patch number |
| Report.RecordLeTotalPreorder | src/main.rs:55 | the report's comparison (test name, then patch number) is total and transitive |
| Report.Tally | src/main.rs:53-72 | the pass (or fail) counter after a run of records, at most their number |
| Report.Listing | src/main.rs:57-74 | the lines printed for a run of records: between one and two per record, starting with the first record's header |
| Report.EntryOf | src/main.rs:65-73 | a record's line shows its patch and exit code, green for 0 and red otherwise |
| Report.BlockLines | src/main.rs:59-74 | each record adds its test's header when it starts a new test, then its entry |
| Report.ListingEntries | src/main.rs:59-74 | the report has one entry per record, in record order |
| Report.ListingHeaders | src/main.rs:60-63 | the headers name exactly the records' tests |
| Report.SortedHeadersDistinct | src/main.rs:55-63 | after the sort no test's header is printed twice |
| Report.OneHeaderPerTest | src/main.rs:55-63 | after the sort there are as many headers as distinct test names |
| Report.TallyTotal | src/main.rs:66-72 | every record is counted as a pass or a failure |
| Report.TallyPermutation | src/main.rs:53-72 | the totals do not depend on the order of the records |
| Report.ReportOrder | src/main.rs:55 | the sorted records are ordered by test and patch, are a permutation of the input, and records with equal test and patch keep their input order |
| Report.StableSortsAgree | src/main.rs:55 | any stable sort by the report's comparison gives the modelled order |
| Report.ListingStep | src/main.rs:59-74 | one more record adds its header, entry and tally |
| Report.SortResults | src/main.rs:55 | the array ends up holding the stable sort of its old contents by test name and then patch |
| Report.ListResults | src/main.rs:57-76 | the loop emits the grouped listing of the records, then the rule and the totals; pass and fail count the zero and non-zero exit codes and sum to the number of records |
| Report.PrintResults | src/main.rs:52-78 | the array ends up sorted as `sort_by` sorts it; the lines are the grouped listing, a rule and the totals; pass and fail count the zero and non-zero exit codes of the input and sum to its length |

## Left out

- File I/O: the `retcode` text and the log contents are inputs to the model. Reading them is not modelled, and `read` in `Render.DetailPane` stands for `read_to_string`.
- `parse_results` (src/main.rs:36-50): the recursive directory walk depends on the file system's listing order and on `read_dir`, so it is not modelled.
- `main` (src/main.rs:80-99): argument handling and the call sequence are left out.
- `App::run` (src/tui.rs:40-48): the terminal, the event source and drawing are left out. `Navigation.Replay` models only its dispatch of keys until a quit.
- Drawing with ratatui (layouts, blocks, borders, `Tabs`, `Paragraph`, the footer at src/tui.rs:183-200): the model stops at the values the widgets are given.
- The `ListState` offset that ratatui adjusts during rendering (src/tui.rs:138): only the selected index is modelled.
- `println!` formatting and the `colored` crate: the report is a sequence of structured lines, not text with escape codes.
- `HashMap` internals: the iteration order is an arbitrary enumeration of the keys.
- Record.Path: a path is a list of normal component names. `.`, `..`, prefixes and non-UTF-8 names (which make `to_str().unwrap()` panic) are not modelled.
- Record.NewTest: the source panics when `retcode` cannot be read. The model makes its text a precondition.
- Navigation.Next: Enter is modelled with release-build `u16` wrap-around. A debug build panics at 65535 instead.
- Navigation.RightIndex: `p + 1` on `usize` cannot overflow for selections that stay in bounds, so it is modelled without wrap-around.
- Tui.App.HandleKey: Down uses the guarded `Navigation.DownIndex`, not the source's underflowing expression, as described in the first finding.
- Render.PatchPane: the first visible line uses the guarded `Render.StartLine`, not `scroll % lines as u16`, as described in the second finding.
- Render.DetailPane: the first visible line comes from `Render.PatchPane`, so it is the guarded one too.
- Report.PrintResults: the counters are unbounded; in the source they are `i32` and would overflow only past 2^31 records.
- With no tests at all, any arrow key selects index 0, and the next frame's `unwrap` at src/tui.rs:132 panics (`Navigation.EmptyStoreSelectsPastEnd`). An empty results tree is outside what the browser is for, so this is not listed as a finding, and the in-bounds lemmas assume at least one test.

## Findings

| source | as written | input that shows it | evidently intended | confidence | as-written member | corrected member |
|---|---|---|---|---|---|---|
| src/tui.rs:65 | Down computes `i.min(len - 2) + 1` on `usize` | one test, test 0 selected, press Down: `1 - 2` underflows (a panic in debug builds, a wrap in release builds giving index 1, and then the `unwrap` at src/tui.rs:132 panics) | Down stops at the last test | not executed | Navigation.DownAsWrittenLeavesList | Navigation.DownIndex |
| src/tui.rs:175-177 | the first visible line is `scroll % lines as u16` | an empty `summary` file: `lines().count()` is 0 and the remainder divides by zero (a line count that is a multiple of 65536 does the same after the cast); past 65535 lines the cast also changes the divisor, so with 65537 lines the source always shows line 0 (`Render.LongLogTruncates`) | start line `scroll % max(1, lines)` | not executed | Render.EmptyLogPanics | Render.StartLine |
