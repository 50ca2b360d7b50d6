# GTestsGodot test-runner dock, modelled in Dafny

GTestsGodot is a dock for the Godot editor that runs NUnit tests. It shows them in a tree widget and each row shows the state of a test. This project models the part of the dock that keeps state:

- **Result store.** `GTestsGodotTestRunner` keeps a dictionary from a test to an optional result:
  - no entry: the test has not run;
  - a null entry: the test is in progress;
  - a result: the test has finished.

  Starting a run removes the entries of the tests the filter passes. Start and finish events then write entries.
- **States and labels.** A test without children takes its state from its store entry. A test with children takes the least state, by enum value, of its children.
  - A label is the test's name, or for a suite `"Name (N found)"` or `"Name (P / N passing)"`.
  - The output text of a selected test is one of three fixed messages, or a report of its name, message, output and stack trace.
- **Tree projection.** A side table maps each test to its row in the widget.
  - `CreateTreeItemForTest` fills it over a whole subtree.
  - `UpdateTestTreeItem` relabels a test's row and then its ancestors' rows.
  - `RefreshAvaliableTests` rebuilds the widget.
  - `TryGetTestFromTreeItem` maps a selected row back to its test.
- **Filters.** `MatchEverything` passes every test. `MatchDescendantsOf(anchor)` passes the anchor and every test below it, found by walking up the parent chain.

Files, one module each, in dependency order:

- `TestState.dfy`: the `TestState` enum and its order.
- `TestTree.dfy`: the test tree, as an arena of nodes indexed by id.
  - The root is id 0.
  - Every other test's parent has a smaller id, which makes the parent chain acyclic.
  - `Depth` measures walks up the tree, and `|tree| - t` measures walks down.
- `Filters.dfy`: the two filters.
- `Runner.dfy`: the result store as a class `TestRunner`, plus the functions `Cleared`, `Started` and `Finished` that specify it.
- `DockViews.dfy`: the state, label and output-text functions and what is proved about them.
- `EditorWidget.dfy`: the dock as a class `TestRunnerDock`.
  - Its fields are the side table `treeItems`, the widget rows `items`, the output label, the runner and the platform line break.
  - Its methods are proved against the spec function `Created` for row creation, and against the predicates `Valid`, `Complete` and `UpToDate`.
  - `UpToDate` says every row shows its test's current label and state.

The main results:

- **Aggregation.** A suite's state is the least state of the leaves below it, and one in-progress leaf makes every ancestor show InProgress.
- **Creating rows.** `CreateTreeItemForTest` is idempotent (`CreatedTwice`). It gives rows to exactly the subtree of the test, keeps every existing row, and hangs each new row under its parent's row.
- **Relabelling.** `UpdateTestTreeItem` relabels the test and its ancestors up to the first one without a row, and no other row.
- **Keeping rows current.** Every dock operation (refresh, run start, start and finish events, clicks) keeps every row up to date.
- **Row lookup.** `TryGetTestFromTreeItem` finds a test iff some test owns the row, and then that test is the only one.

## Model

| member | source | states |
|---|---|---|
| TestStates.TestState.Value | Scripts/Enums/TestState.cs:3-12 | The enum values are 0..6, with 0 exactly for InProgress and 6 exactly for Passed |
| TestStates.ValuesDistinct | Scripts/Enums/TestState.cs:3-12 | Two states have equal values iff they are the same state |
| TestStates.LessIsStrictTotalOrder | Scripts/Enums/TestState.cs:3-12 | Comparing enum values is irreflexive, asymmetric, transitive and total on distinct states |
| TestStates.Ordering | Scripts/Enums/TestState.cs:5-11 | InProgress < Failed < Warning < Inconclusive < Skipped < NotRun < Passed |
| TestStates.InProgressIsLeast | Scripts/Enums/TestState.cs:5 | InProgress is below every other state and wins every fold step, in either argument position |
| TestStates.PassedIsGreatest | Scripts/Enums/TestState.cs:11 | Passed is above every other state and is the identity of the fold step |
| TestStates.Less | Scripts/EditorWidget/TestRunnerDock.cs:223 | `childState < worstState`: the comparison of enum values; its order is stated by Ordering and LessIsStrictTotalOrder |
| TestStates.Min | Scripts/EditorWidget/TestRunnerDock.cs:221-226 | The fold step returns one of its two arguments, and a value at most both |
| TestStates.MinCommutes | Scripts/EditorWidget/TestRunnerDock.cs:223-226 | The fold step's result does not depend on argument order |
| TestTrees.Parent | Scripts/Filters/MatchDescendantsOfFilter.cs:29-34 | A test's parent is absent exactly for the root, has a smaller id, and lists the test among its children |
| TestTrees.Children | Scripts/EditorWidget/TestRunnerDock.cs:338-341 | A test's children are distinct, have larger ids, and each names the test as its parent |
| TestTrees.Ancestors | Scripts/Filters/MatchDescendantsOfFilter.cs:29-34 | Every test on the parent chain has a smaller id than the test |
| Filters.IsDescendantOf | Scripts/Filters/MatchDescendantsOfFilter.cs:22-35 | The walk up the parent chain, ending on a match or at the root; it terminates because Depth decreases; its meaning is stated by DescendantIffOnChain |
| Filters.Pass | Scripts/Filters/MatchDescendantsOfFilter.cs:20 | MatchDescendantsOf passes by the walk and MatchEverything (Scripts/Filters/MatchEverythingTestFilter.cs:20) passes everything; stated by PassIffOnChain and MatchEverythingPassesAll |
| Filters.IsExplicitMatch | Scripts/Filters/MatchDescendantsOfFilter.cs:19-20 | IsExplicitMatch equals Pass for both filters and every test |
| Filters.MatchEverythingPassesAll | Scripts/Filters/MatchEverythingTestFilter.cs:19-20 | MatchEverything passes and explicitly matches every test |
| Filters.AnchorPasses | Scripts/Filters/MatchDescendantsOfFilter.cs:24-27 | The anchor passes its own MatchDescendantsOf filter |
| Filters.PassIffOnChain | Scripts/Filters/MatchDescendantsOfFilter.cs:20-35 | MatchDescendantsOf(anchor) passes t iff t is the anchor or the anchor lies on t's parent chain |
| Filters.DescendantIffOnChain | Scripts/Filters/MatchDescendantsOfFilter.cs:22-35 | The recursive walk answers exactly "is a the test itself or one of its ancestors" |
| Filters.DescendantIdBound | Scripts/Filters/MatchDescendantsOfFilter.cs:22-35 | An ancestor-or-self never has a larger id than its descendant |
| Filters.ParentOfAnchorFails | Scripts/Filters/MatchDescendantsOfFilter.cs:29-32 | The anchor's parent does not pass the anchor's filter |
| Filters.SiblingSubtreeFails | Scripts/Filters/MatchDescendantsOfFilter.cs:22-35 | No test under a sibling of the anchor passes the anchor's filter |
| Filters.ChildOfPassingPasses | Scripts/Filters/MatchDescendantsOfFilter.cs:22-35 | Passing is closed downwards: every child of a passing test passes, under either filter |
| Filters.DescendantTransitive | Scripts/Filters/MatchDescendantsOfFilter.cs:22-35 | Ancestor-or-self is transitive |
| Filters.DescendantOfChild | Scripts/Filters/MatchDescendantsOfFilter.cs:22-35 | A descendant of a child is a descendant of the parent |
| Filters.AncestorsAreOrdered | Scripts/Filters/MatchDescendantsOfFilter.cs:22-35 | Two ancestors of one test are ancestor-or-self of each other one way or the other |
| Filters.DescendantAntisymmetric | Scripts/Filters/MatchDescendantsOfFilter.cs:22-35 | Two tests that are each other's ancestor-or-self are the same test |
| Filters.RootIsAncestorOfAll | Scripts/Filters/MatchDescendantsOfFilter.cs:29-34 | The walk from any test reaches the root, so MatchDescendantsOf(root) passes exactly what MatchEverything passes |
| Runners.Cleared | Scripts/Runners/GTestsGodotTestRunner.cs:36-46 | After clearing, no entry of a passing test is left, every entry of a failing test is kept with its exact value, and no key is added |
| Runners.Started | Scripts/Runners/GTestsGodotTestRunner.cs:48-53 | A start event leaves the test in progress and every other entry as it was |
| Runners.Finished | Scripts/Runners/GTestsGodotTestRunner.cs:55-60 | A finish event stores the result for its test, overwriting any entry, and leaves every other entry as it was |
| Runners.ClearingEverythingEmpties | Scripts/Filters/MatchEverythingTestFilter.cs:20 | Clearing with MatchEverything empties the store |
| Runners.ClearingRootEmpties | Scripts/Runners/GTestsGodotTestRunner.cs:36-46 | Clearing with MatchDescendantsOf(root) empties the store |
| Runners.ClearingIsIdempotent | Scripts/Runners/GTestsGodotTestRunner.cs:36-46 | Clearing a second time with the same filter changes nothing |
| Runners.LastEventWins | Scripts/Runners/GTestsGodotTestRunner.cs:48-60 | A finish after a start leaves the result, a start after a finish leaves the test in progress, and a start before a finish is forgotten |
| Runners.TestRunner.constructor | Scripts/Runners/GTestsGodotTestRunner.cs:18-27 | A new runner holds the loaded tree and no results |
| Runners.TestRunner.StartTestRun | Scripts/Runners/GTestsGodotTestRunner.cs:29-46 | The store becomes Cleared of the old store, and the setup calls name each removed test exactly once and no other test |
| Runners.TestRunner.WhenTestStarted | Scripts/Runners/GTestsGodotTestRunner.cs:48-53 | The store becomes Started of the old store |
| Runners.TestRunner.WhenTestFinished | Scripts/Runners/GTestsGodotTestRunner.cs:55-60 | The store becomes Finished of the old store |
| Runners.TestRunner.TryGetTestTree | Scripts/Runners/GTestsGodotTestRunner.cs:70-74 | Reports true iff a tree is loaded, and then returns its root, which has no parent |
| Runners.TestRunner.TryGetTestResult | Scripts/Runners/GTestsGodotTestRunner.cs:76-79 | Reports true iff the test is a key, and then returns its stored entry, null included |
| DockViews.StatusToState | Scripts/EditorWidget/TestRunnerDock.cs:247-255 | The status switch; stated by StatusMapping |
| DockViews.LeafState | Scripts/EditorWidget/TestRunnerDock.cs:232-255 | The state of a childless test from its entry; stated by LeafStateCases |
| DockViews.State | Scripts/EditorWidget/TestRunnerDock.cs:212-256 | `GetTestState`; stated by SuiteStateIsLeastChild, StateComesFromLeaf and StateIsLeastLeaf, and computed by TestRunnerDock.GetTestState |
| DockViews.FoldChildren | Scripts/EditorWidget/TestRunnerDock.cs:217-229 | The `worstState` loop after k children; stated by FoldIsLeastOfPrefix |
| DockViews.LeafStateCases | Scripts/EditorWidget/TestRunnerDock.cs:232-255 | A childless test with no entry is NotRun, one with a null entry is InProgress, and a finished one maps its status |
| DockViews.StatusMapping | Scripts/EditorWidget/TestRunnerDock.cs:247-255 | The five known statuses map to the states of the same name, and any other status to Inconclusive |
| DockViews.SuiteStateIsLeastChild | Scripts/EditorWidget/TestRunnerDock.cs:215-230 | A test with children has a state at most each child's state and equal to one of them, and it is Passed iff every child is Passed |
| DockViews.FoldIsLeastOfPrefix | Scripts/EditorWidget/TestRunnerDock.cs:217-229 | After k children the worstState fold is at most each of their states, equals one of them when k > 0, and is Passed when k = 0 |
| DockViews.SuiteIgnoresOwnEntry | Scripts/EditorWidget/TestRunnerDock.cs:215-230 | A test with children shows the same state whatever its own entry is, or without one |
| DockViews.StateLocal | Scripts/EditorWidget/TestRunnerDock.cs:212-256 | Two stores that agree on a test and everything below it give it the same state |
| DockViews.StateBoundedByDescendants | Scripts/EditorWidget/TestRunnerDock.cs:212-256 | A test's state is at most the state of every test below it |
| DockViews.InProgressDominates | Scripts/EditorWidget/TestRunnerDock.cs:215-230 | One descendant in progress makes the test show InProgress, even when another descendant failed |
| DockViews.StateComesFromLeaf | Scripts/EditorWidget/TestRunnerDock.cs:212-256 | A test's state is the leaf state of some childless test below it |
| DockViews.StateIsLeastLeaf | Scripts/EditorWidget/TestRunnerDock.cs:212-256 | A test's state is at most the leaf state of every childless test below it |
| DockViews.Decimal | Scripts/EditorWidget/TestRunnerDock.cs:197 | A count prints as a non-empty run of digits without a leading zero |
| DockViews.DecimalRoundTrip | Scripts/EditorWidget/TestRunnerDock.cs:197 | Reading the printed digits back gives the count |
| DockViews.DecimalInjective | Scripts/EditorWidget/TestRunnerDock.cs:197-200 | Different counts print differently |
| DockViews.Label | Scripts/EditorWidget/TestRunnerDock.cs:186-201 | `GetTestLabel`; stated by LabelForms, SuiteLabelShowsResult and LabelDeterminesCounts |
| DockViews.LabelForms | Scripts/EditorWidget/TestRunnerDock.cs:186-201 | A non-suite's label is its name; a suite without a result reads "Name (N found)"; a suite with a result reads "Name (P / N passing)" |
| DockViews.SuiteLabelShowsResult | Scripts/EditorWidget/TestRunnerDock.cs:193-200 | A suite's label ends in " found)" iff it has no result yet |
| DockViews.LabelDeterminesCounts | Scripts/EditorWidget/TestRunnerDock.cs:186-201 | Equal labels of same-named suites mean the same kind of entry, the same test-case count, and the same pass count |
| DockViews.FoundLabelCounts | Scripts/EditorWidget/TestRunnerDock.cs:197 | Equal "found" labels show equal test-case counts |
| DockViews.PassingLabelCounts | Scripts/EditorWidget/TestRunnerDock.cs:200 | Equal "passing" labels show equal pass counts and equal test-case counts |
| DockViews.NewLine.Text | Scripts/EditorWidget/TestRunnerDock.cs:297 | The platform line break is non-empty and ends in a line feed |
| DockViews.IsWhiteSpace | Scripts/EditorWidget/TestRunnerDock.cs:301 | `char.IsWhiteSpace`, used by `string.IsNullOrWhiteSpace`: the Unicode separators and U+0009..U+000D, U+0085 |
| DockViews.IsNullOrWhiteSpace | Scripts/EditorWidget/TestRunnerDock.cs:301 | `string.IsNullOrWhiteSpace`: null, or every character is white space |
| DockViews.LineIfNotEmpty | Scripts/EditorWidget/TestRunnerDock.cs:299-305 | `PrintIfNotEmpty`: the appended line, or nothing for a blank string; stated through FailureReportParts |
| DockViews.OutputText | Scripts/EditorWidget/TestRunnerDock.cs:273-316 | The text `DisplayTestOutput` shows; stated by OutputTextFixedCases, FailureReportShape, FailureReportIsNotFixed and FailureReportParts, and built by TestRunnerDock.DisplayTestOutput |
| DockViews.OutputTextFixedCases | Scripts/EditorWidget/TestRunnerDock.cs:275-293 | No entry shows "Test not run.", a null entry "Test in progress...", and a passed result "Test passed." |
| DockViews.FailureReportShape | Scripts/EditorWidget/TestRunnerDock.cs:295-315 | The report of a result that did not pass starts with the result's name on a line of its own and ends with a line break |
| DockViews.FailureReportIsNotFixed | Scripts/EditorWidget/TestRunnerDock.cs:273-316 | The report of a result that did not pass is never one of the three fixed texts |
| DockViews.FailureReportParts | Scripts/EditorWidget/TestRunnerDock.cs:297-315 | With blank message, output and stack trace the report is just the name line; a non-blank stack trace is always its last line |
| EditorWidget.RowsDistinct | Scripts/EditorWidget/TestRunnerDock.cs:330-335 | In a valid side table no two tests share a row; validity also makes every row some mapped test's row, so there is exactly one row per mapped test |
| EditorWidget.AddRowKeepsValid | Scripts/EditorWidget/TestRunnerDock.cs:326-335 | A new row for an unmapped test, under its parent's row, keeps the side table valid |
| EditorWidget.ValidIsParentClosed | Scripts/EditorWidget/TestRunnerDock.cs:326-328 | A valid side table maps the parent of every mapped test |
| EditorWidget.ParentRow | Scripts/EditorWidget/TestRunnerDock.cs:326-330 | A new row hangs under its parent's row; a parentless test's row becomes the widget root when the widget is empty and otherwise hangs under the existing root row |
| EditorWidget.Created | Scripts/EditorWidget/TestRunnerDock.cs:318-342 | The rows after `CreateTreeItemForTest`, which the method is proved equal to; stated by CreatedExtends, CreatedKeepsValid and CreatedKeys |
| EditorWidget.CreatedChildren | Scripts/EditorWidget/TestRunnerDock.cs:338-341 | The rows after the foreach over the first n children; stated by CreatedChildrenExtends, CreatedChildrenKeepValid and CreatedChildrenKeys |
| EditorWidget.CreatedExtends | Scripts/EditorWidget/TestRunnerDock.cs:318-342 | Creating rows never drops, moves or rewrites an existing mapping or row |
| EditorWidget.CreatedChildrenExtends | Scripts/EditorWidget/TestRunnerDock.cs:338-341 | Creating the rows of the first n children keeps every existing mapping and row |
| EditorWidget.CreatedKeepsValid | Scripts/EditorWidget/TestRunnerDock.cs:326-341 | Creating rows for a test whose parent has a row (for the root test: on an empty widget) keeps the side table valid: each new row hangs under its parent's row |
| EditorWidget.CreatedChildrenKeepValid | Scripts/EditorWidget/TestRunnerDock.cs:337-341 | Creating the children's rows keeps the side table valid |
| EditorWidget.CreatedKeys | Scripts/EditorWidget/TestRunnerDock.cs:318-342 | Creating rows for an unmapped test adds to the mapped tests exactly its subtree |
| EditorWidget.CreatedTwice | Scripts/EditorWidget/TestRunnerDock.cs:318-323 | Creating a test's rows a second time changes nothing: the second call returns at the `ContainsKey` check |
| EditorWidget.CreatedChildrenKeys | Scripts/EditorWidget/TestRunnerDock.cs:337-341 | After the first n children, the mapped tests are the old ones, the test, and those children's subtrees |
| EditorWidget.ChildSubtreesParentClosed | Scripts/EditorWidget/TestRunnerDock.cs:337-341 | Adding a test and some of its children's subtrees to a parent-closed set keeps it parent-closed |
| EditorWidget.Subtree | Scripts/EditorWidget/TestRunnerDock.cs:337-341 | The tests the creation walk visits from a test; stated by SubtreeIsDescendants |
| EditorWidget.SubtreeIsDescendants | Scripts/EditorWidget/TestRunnerDock.cs:337-341 | The tests the creation walk visits are exactly the tests below (or equal to) the start test |
| EditorWidget.ChildIsFresh | Scripts/EditorWidget/TestRunnerDock.cs:338-341 | During the walk the next child has no row yet and lies under no earlier sibling |
| EditorWidget.CreatedFromNothing | Scripts/EditorWidget/TestRunnerDock.cs:101-113 | Building from an empty widget gives a valid side table whose keys are exactly the tests of the tree |
| EditorWidget.RelabelChain | Scripts/EditorWidget/TestRunnerDock.cs:162-184 | The tests `UpdateTestTreeItem` relabels, in order; stated by ChainIsAncestors, ChainCoversAncestors and ChainSkipsDescendantsAndSiblings |
| EditorWidget.ChainIsAncestors | Scripts/EditorWidget/TestRunnerDock.cs:162-184 | Relabelling reaches only mapped ancestors-or-self of the test, and reaches the test iff it is mapped |
| EditorWidget.ChainCoversAncestors | Scripts/EditorWidget/TestRunnerDock.cs:178-183 | When every mapped test's parent is mapped, relabelling a mapped test reaches every one of its ancestors |
| EditorWidget.ChainSkipsDescendantsAndSiblings | Scripts/EditorWidget/TestRunnerDock.cs:162-184 | Relabelling never reaches a strict descendant or a sibling of the test |
| EditorWidget.OffChainRowsKept | Scripts/EditorWidget/TestRunnerDock.cs:162-184 | A mapped test outside the relabelled chain keeps its row content |
| EditorWidget.DisplayLocal | Scripts/EditorWidget/TestRunnerDock.cs:171-172 | A row's label and state depend only on the entries of the test and the tests below it |
| EditorWidget.OneEntryChanged | Scripts/EditorWidget/TestRunnerDock.cs:171-172 | A test that is no ancestor-or-self of t shows the same label and state after t's entry changes |
| EditorWidget.ClearedSyncedAbove | Scripts/Runners/GTestsGodotTestRunner.cs:36-46 | After clearing, the only rows that can be stale are those with a cleared test below them |
| EditorWidget.OneEntrySyncedAbove | Scripts/Runners/GTestsGodotTestRunner.cs:48-60 | After a start or finish event, the only rows that can be stale are those of the test and its ancestors |
| EditorWidget.PendingStep | Scripts/EditorWidget/TestRunnerDock.cs:162-184 | Relabelling a pending test leaves its row and its ancestors' rows current, so it is no longer pending |
| EditorWidget.TestRunnerDock.constructor | Scripts/EditorWidget/TestRunnerDock.cs:50-60 | Start-up creates the runner with no results and a widget holding exactly one row per test of the tree and no other row, each under its parent's row and up to date |
| EditorWidget.TestRunnerDock.GetTestState | Scripts/EditorWidget/TestRunnerDock.cs:212-256 | The recursion with its worstState loop returns State of the test |
| EditorWidget.TestRunnerDock.UpdateTestTreeItem | Scripts/EditorWidget/TestRunnerDock.cs:162-184 | Every test on the relabel chain shows its current label and state, every other row is unchanged, and no row's parent changes |
| EditorWidget.TestRunnerDock.CreateTreeItemForTest | Scripts/EditorWidget/TestRunnerDock.cs:318-342 | Requires the parent to have a row; the new side table, rows and owners are Created of the old ones, where a parentless test's row becomes the widget root on an empty widget and hangs under the existing root row otherwise |
| EditorWidget.TestRunnerDock.RefreshAvaliableTests | Scripts/EditorWidget/TestRunnerDock.cs:101-119 | Afterwards exactly the tests of the tree have rows, each test has exactly one row and every row belongs to a test, row parents mirror test parents, and every row is up to date |
| EditorWidget.TestRunnerDock.RelabelAll | Scripts/EditorWidget/TestRunnerDock.cs:115-118 | Relabelling every mapped test brings every row up to date and keeps each row's parent |
| EditorWidget.TestRunnerDock.StartTestRun | Scripts/EditorWidget/TestRunnerDock.cs:121-131 | The store becomes Cleared of the old store, every row is up to date, and the side table and row parents are unchanged |
| EditorWidget.TestRunnerDock.WhenTestStarted | Scripts/EditorWidget/TestRunnerDock.cs:133-142 | When only the test's and its ancestors' rows may be stale, afterwards every row is up to date and the side table is unchanged |
| EditorWidget.TestRunnerDock.WhenTestFinished | Scripts/EditorWidget/TestRunnerDock.cs:144-152 | When only the test's and its ancestors' rows may be stale, afterwards every row is up to date |
| EditorWidget.TestRunnerDock.TestStarted | Scripts/Runners/GTestsGodotTestRunner.cs:48-53 | A start event puts the test in progress and every row is up to date afterwards |
| EditorWidget.TestRunnerDock.TestFinished | Scripts/Runners/GTestsGodotTestRunner.cs:55-60 | A finish event stores the result and every row is up to date afterwards |
| EditorWidget.TestRunnerDock.TryGetTestFromTreeItem | Scripts/EditorWidget/TestRunnerDock.cs:344-352 | Reports true iff some test has the row; the returned test has it, and any test that has it is the returned one |
| EditorWidget.TestRunnerDock.DisplayTestOutput | Scripts/EditorWidget/TestRunnerDock.cs:273-316 | The output label becomes OutputText of the test's entry |
| EditorWidget.TestRunnerDock.RefreshButtonClick | Scripts/EditorWidget/TestRunnerDock.cs:62-65 | The widget is rebuilt with exactly one row per test and no other row, each up to date |
| EditorWidget.TestRunnerDock.RunButtonClick | Scripts/EditorWidget/TestRunnerDock.cs:67-71 | After a rebuild to exactly one row per test and a MatchEverything run, no test has a result and every row is up to date |
| EditorWidget.TestRunnerDock.TestResultTreeItemSelected | Scripts/EditorWidget/TestRunnerDock.cs:73-85 | The output of the selected row's test is shown; a selection that is no test's row leaves the label as it was |
| EditorWidget.TestRunnerDock.TestResultTreeItemActivated | Scripts/EditorWidget/TestRunnerDock.cs:87-99 | The selected row's test and everything below it are cleared for a run; a selection that is no test's row changes nothing |

Aggregation compares the enum values of `Scripts/Enums/TestState.cs`. InProgress = 0 is the least value, so a suite with any test in progress below it shows InProgress, even when another test below it failed (`DockViews.InProgressDominates`). A "Failed is worst" reading does not match the code.

## Left out

- The editor plugin (`GTestsGodotPlugin.cs`), `_Process`, `SetButtonsEnabled` and `ConnectEvents` are left out. They are Godot wiring and per-frame polling of `IsTestsRunning`, which only enables and disables the buttons.
- `TestStateToIconColor` is left out: a row stores the state that picks its icon colour, not the floating-point colour.
- NUnit is left out: `FrameworkController`, `LoadTests` and `RunAsync`.
  - The loaded tree is a constructor parameter, and an empty arena stands for "no loaded test".
  - A run is whatever sequence of `TestStarted` / `TestFinished` calls the caller makes.
  - `PassCount`, `TestCaseCount`, `Message`, `Output` and `StackTrace` are opaque fields.
- `GTestsGodotTestListener` forwards two callbacks. It is not modelled as an object: `TestStarted` and `TestFinished` call the runner's handler and then the dock's handler directly.
- `Callable.From(...).CallDeferred()` is left out. The dock's handlers run at once, as sequential calls on the one dock object.
- Godot's `Tree`/`TreeItem` widget is a sequence of rows. Each row holds its parent row, its text and its icon state, and a row is identified by its index. `SetIcon` and `SetIconMaxWidth` are not modelled.
- `Environment.NewLine` is a constructor parameter (`LF` or `CRLF`).
- `char.IsWhiteSpace` is modelled by the fixed list of Unicode white-space characters, as `IsWhiteSpace`.
- `InitializeTestRunner` inside `StartTestRun` does nothing in the model: the runner is created once, in the constructor.
- A run's `onTestSetup` callback is not interleaved with the removals. `Runners.TestRunner.StartTestRun` removes every entry first and returns each removed test once, in some order. `EditorWidget.TestRunnerDock.StartTestRun` then relabels them in that order. Every relabel reads the store only after all removals, so the rows end the same either way, but the labels a row shows in between are not modelled.
- `EditorWidget.TestRunnerDock.CreateTreeItemForTest` requires the parent to have a row already. The source throws `KeyNotFoundException` in that case, and that path is not modelled.
- The dock's invariant `Inv` says the side table is valid, every test has a row, and every row is up to date. The constructor establishes it and every operation below ensures it. The preconditions differ by member:
  - `StartTestRun`, `TestStarted`, `TestFinished` and `TestResultTreeItemActivated` require `Inv`.
  - `WhenTestStarted` and `WhenTestFinished` require `Valid`, `Complete` and `SyncedAbove` of the event's test. The runner has just written that test's entry, so the rows of the test and its ancestors may be stale, and every other row is up to date.
  - `RefreshAvaliableTests`, `RefreshButtonClick`, `RunButtonClick`, `TestResultTreeItemSelected` and `TryGetTestFromTreeItem` require only `Valid`: the first three rebuild the widget, and the last two only read the rows.
- Test identity is the node's id in the arena, not object identity, and the arena order encodes acyclicity.
- `owners`, the test each row was created for, is a ghost field. It is not program state; it shows that no two tests share a row and that every row belongs to a mapped test.
