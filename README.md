# Change-impact test selection of playwright-platform

This project models the test selector of the two runner scripts
`scripts/testUtils.js` and `scripts/runFlowTaggedTests.js`, and proves what
they select and how they run the selection. It works in five steps:

1. The changed files are read from the output of `git diff --name-only HEAD~1 HEAD`.
2. Flow-tag selection:
   - changed files under `core/src/flows/` name *flows*;
   - a test under `feature-teams/` declares the flows it covers in `// @flow <name>` comments;
   - a test is selected when one of its tags names a changed flow.
3. Import selection:
   - every changed file under `core/src/` gives a package import identifier (`playwright-core-utils/dist/...`);
   - a test is selected when its text contains one of those identifiers.
4. The two selections are united, flow-tag tests first, each test once.
5. The tests are grouped by team directory. Each team is built and run in turn, and a team's error is logged without stopping the others.

The modules follow the scripts:

| file | models |
|---|---|
| `changed_files.dfy` | `getChangedFiles` |
| `import_paths.dfy` | `mapCoreFilesToImportPaths` |
| `discovery.dfy` | `findAllTestFiles`; the file system as a value |
| `import_match.dfy` | `findTestsForChangedImports` |
| `team_runner.dfy` | `runTests`; the process as a class |
| `flow_tag_regex.dfy` | the tag regex and its `exec` loop |
| `flow_tags.dfy` | `detectChangedFlows`, `parseFlowTags`, `findTestsForChangedFlows` and the example of team-a |
| `flow_selection.dfy` | the union in `main` |
| `js_strings.dfy` | the JavaScript string and path operations used |
| `seqs.dfy` | `Set` insertion order |
| `wrappers.dfy` | `Option` |

The world outside the scripts is made of inputs:
- the diff outcome is an `Option<string>`, with `None` where `execSync` throws;
- the `feature-teams` directory is a tree of `Entry` values;
- file contents are a map, and a path outside it cannot be read;
- `process.chdir` and `execSync` consult an `Environment`, which lists the directories that cannot be entered and the commands that fail in a given directory.

`Process` holds the working directory and the trace of console lines and commands run.

Loops that change state are methods with loop invariants:
- `MapCoreFilesToImportPaths`, `SearchDirectory`, `FindTestsForChangedImports` and `GroupTestsByTeam`;
- `RunTeams`, `DetectChangedFlows`, `ScanFlowTags` and `FindTestsForChangedFlows`.

Each is proved equal to a function, and the lemmas state the properties of that function.

`runTests` (scripts/testUtils.js:115-132) is a sequential loop. It swallows every team's error, never restores the working directory, and returns nothing. There is no concurrency bound, timeout or exit status to model. The model proves that the loop leaves the process in the last team directory it entered (`TeamRunner.RunLoopLeavesCwd`).

## Model

| member | source | states |
|---|---|---|
| ChangedFiles.GetChangedFiles | scripts/testUtils.js:6-19 | When the diff command throws, the changed-file list is empty |
| ChangedFiles.ChangedFilesAreFileLines | scripts/testUtils.js:12-15 | Each entry is an untrimmed, newline-free line of the diff output whose trimmed form is neither empty nor `~`. Every such line is kept as many times as it occurs in the output, and the output's line order is preserved |
| ChangedFiles.FileLinesExactly | scripts/testUtils.js:12-15 | The filter keeps exactly the lines passing the test, unchanged, each with its number of occurrences, and in their order |
| JsStrings.TrimEmptyIffAllSpace | scripts/testUtils.js:13-14 | `trim()` gives `''` iff every character is ECMAScript white space |
| JsStrings.TrimIsCoreSlice | scripts/testUtils.js:13 | `trim()` is a contiguous slice that neither starts nor ends with white space; only white space is cut off |
| JsStrings.Split | scripts/testUtils.js:12 | `split('\n')` yields at least one piece, and no piece holds a newline |
| JsStrings.JoinSplit | scripts/testUtils.js:12 | Joining the pieces of `split('\n')` gives back the output: splitting loses nothing |
| JsStrings.SplitJoin | scripts/testUtils.js:12 | Splitting a join of newline-free lines gives back those lines |
| ImportPaths.ImportPathOfCoreFile | scripts/testUtils.js:30-31 | For a `core/src/` file, the identifier is `playwright-core-utils/dist/` followed by the rest of the path with its first `.ts` removed |
| ImportPaths.MapCoreFilesToImportPaths | scripts/testUtils.js:23-37 | The `forEach` that fills the `Map` returns the map of the last-writer specification |
| ImportPaths.ImportPathMapKeys | scripts/testUtils.js:26-34 | A key exists iff some changed file starts with `core/src/` and has that identifier |
| ImportPaths.ImportPathMapLastWriter | scripts/testUtils.js:32 | The value under a key is the last changed core file with that identifier; a later `set` overwrites an earlier one |
| ImportPaths.CoreFileMapKeys | scripts/testUtils.js:26-34 | The keys of the filled map are the keys of the core files, for any key function |
| ImportPaths.CoreFileMapLastWriter | scripts/testUtils.js:26-34 | The value under each key is the last core file with that key, for any key function |
| ImportPaths.LoginFlowImportPath | scripts/testUtils.js:29 | `core/src/flows/loginFlow.ts` is identified as `playwright-core-utils/dist/flows/loginFlow` |
| JsStrings.IndexOfFromLeftmost | scripts/testUtils.js:30 | `indexOf` finds the leftmost occurrence at or after its start, and reports none only when none exists |
| JsStrings.ReplaceFirstAt | scripts/testUtils.js:30 | `replace` with a string pattern rewrites the leftmost occurrence only |
| JsStrings.ReplaceFirstPrefix | scripts/testUtils.js:30 | Replacing a prefix strips it from the front |
| JsStrings.ReplaceFirstAbsent | scripts/testUtils.js:30 | Without an occurrence, `replace` leaves the string unchanged |
| Discovery.TestFileCollector.constructor | scripts/testUtils.js:41 | The shared `testFiles` array starts empty |
| Discovery.TestFileCollector.SearchDirectory | scripts/testUtils.js:43-55 | The recursive walk appends to `testFiles` exactly the test files under the directory, in walk order |
| Discovery.FindAllTestFiles | scripts/testUtils.js:40-61 | The result is the test files of the whole `feature-teams` tree |
| Discovery.TestFilesExactly | scripts/testUtils.js:43-55 | A path is returned iff it is the path of a file (not a directory) at any depth whose name ends in `.test.ts` |
| Discovery.DiscoveredEndWithTestSuffix | scripts/testUtils.js:51-52 | Every returned path ends in `.test.ts` and never in `.spec.ts` |
| ImportMatch.ReferencesAnyImport | scripts/testUtils.js:76-81 | The inner loop, with its `break`, finds a match iff the text contains some identifier as a substring |
| ImportMatch.FindTestsForChangedImports | scripts/testUtils.js:64-88 | The result is the import selection. An empty map returns `[]` before reading any file; otherwise every discovered file is read once, in order |
| ImportMatch.ReferencingFilesExactly | scripts/testUtils.js:72-85 | A file is collected iff it is listed, readable, and contains an identifier; the collection follows list order |
| ImportMatch.ImportSelectionExactly | scripts/testUtils.js:65-87 | An empty map selects nothing. Otherwise a test is selected iff it is discovered, readable and contains a key. Unreadable files are skipped; there are no duplicates; discovery order is kept |
| JsStrings.ContainsIffOccurs | scripts/testUtils.js:77 | `includes` holds iff the identifier occurs at some index |
| TeamRunner.SegmentEnd | scripts/testUtils.js:104 | `[^\/\\]+` is greedy: the run stops at the first separator or at the end |
| TeamRunner.FindTeamFrom | scripts/testUtils.js:104 | The regex search finds the leftmost start of `feature-teams[\/\\][^\/\\]`, and reports none only when none exists |
| TeamRunner.TeamOfExactly | scripts/testUtils.js:104-106 | A path has a team iff the pattern matches somewhere. The team is the maximal separator-free segment captured at the leftmost match |
| TeamRunner.TeamOfPrefixed | scripts/testUtils.js:103-106 | `feature-teams/<team>` followed by a separator or by nothing belongs to `<team>` |
| TeamRunner.ExampleTeam | scripts/testUtils.js:103 | `feature-teams/team-a/tests/example.test.ts` belongs to `team-a` |
| TeamRunner.Group | scripts/testUtils.js:100-112 | The teams listed in iteration order are exactly the keys of the `Map` |
| TeamRunner.GroupTestsByTeam | scripts/testUtils.js:100-112 | The `forEach` that fills the `Map` of arrays yields the grouping function |
| TeamRunner.GroupExactly | scripts/testUtils.js:102-112 | Each team appears once iff some test belongs to it. The teams are the tests' teams with repeats dropped, ordered by where each team first occurs among the tests. Each team's list holds its tests in input order |
| TeamRunner.GroupTeamsInOrder | scripts/testUtils.js:102-110 | The `Map`'s keys, in insertion order, are the tests' teams in input order with every repeat dropped |
| TeamRunner.GroupPlacesEachTestOnce | scripts/testUtils.js:104-111 | A test with a team is in that team's list and in no other list; a test without a team is in no list |
| TeamRunner.OfTeamMembers | scripts/testUtils.js:110 | A team's list holds exactly the tests whose team it is |
| TeamRunner.GroupedTotal | scripts/testUtils.js:102-112 | The grouped total equals the number of tests with a team, which is at most the number of tests |
| TeamRunner.RewriteTestPath | scripts/testUtils.js:127 | A discovered path `<base>feature-teams/<team>/<rest>.ts` becomes `<base>dist/<rest>.js`. Here `<base>` is empty or the repository directory followed by `/`. It holds when no `.ts` comes before the extension and `feature-teams/<team>/` does not already start inside `<base>` |
| TeamRunner.ReplaceAfterBase | scripts/testUtils.js:127 | When the pattern does not start inside `<base>`, `replace` on `<base><pattern><tail>` rewrites exactly that pattern |
| TeamRunner.Process.Print | scripts/testUtils.js:93 | A console line is appended to the trace; the directory is unchanged |
| TeamRunner.Process.ChangeDir | scripts/testUtils.js:121 | `process.chdir` succeeds iff the directory can be entered, and only then moves the process |
| TeamRunner.Process.ExecSync | scripts/testUtils.js:124 | The command is recorded with its directory. It succeeds iff it does not fail there |
| TeamRunner.GroupEntries | scripts/testUtils.js:115 | The iteration yields one `[team, tests]` pair per team. The teams come in the order each is first met among the tests, and each is paired with its own tests in input order |
| TeamRunner.RunTeam | scripts/testUtils.js:116-131 | One iteration does the following: announce the team; enter its directory; build; run mocha on the rewritten paths. The first failure ends the `try` and is reported |
| TeamRunner.RunTeams | scripts/testUtils.js:115-132 | The team loop's trace and final directory are those of the loop specification |
| TeamRunner.RunTests | scripts/testUtils.js:91-133 | An empty list logs "No ... tests found" and does nothing else. Otherwise the count is logged, then the team loop runs over the grouping |
| TeamRunner.AttemptReports | scripts/testUtils.js:116-131 | One iteration announces its team once. It reports the team iff the team's directory is missing, its build fails or its test run fails |
| TeamRunner.RunLoopAttemptsEveryTeam | scripts/testUtils.js:115-132 | Every team is attempted exactly once, in iteration order, whatever failed before it. Exactly the failing teams are reported |
| TeamRunner.RunLoopLeavesCwd | scripts/testUtils.js:121 | The directory is never restored. The loop ends in the last team directory it entered, or where it started if it entered none |
| TeamRunner.RunTestsAnnouncesTeams | scripts/testUtils.js:115-132 | A run announces the grouping's teams, which are the tests' teams in input order with repeats dropped, and reports exactly the failing ones |
| Seqs.Dedup | scripts/runFlowTaggedTests.js:92 | A `Set` built from a list holds each element once, and exactly the list's elements |
| Seqs.FirstIndex | scripts/runFlowTaggedTests.js:20 | The position returned holds the element, and no earlier position does |
| Seqs.DedupFirstOccurrenceOrder | scripts/runFlowTaggedTests.js:20-24 | `Array.from` of a `Set` lists the elements in the order of their first insertion: an element listed earlier was first added earlier |
| Seqs.DedupNoDups | scripts/runFlowTaggedTests.js:92 | A list without duplicates passes through a `Set` unchanged |
| Seqs.DedupConcat | scripts/runFlowTaggedTests.js:92 | Deduplicating a concatenation gives the first part deduplicated, followed by the second part's new elements, deduplicated |
| Seqs.WithoutMembers | scripts/runFlowTaggedTests.js:92 | The second part's new elements are exactly its elements absent from the first |
| FlowTags.DetectChangedFlows | scripts/runFlowTaggedTests.js:12-25 | The `forEach` that fills the `Set` returns the changed flows |
| FlowTags.FlowNamesExactly | scripts/runFlowTaggedTests.js:15-21 | A name is produced iff some changed file is a flow file with that basename |
| FlowTags.ChangedFlowsExactly | scripts/runFlowTaggedTests.js:12-25 | A flow is reported iff some changed file starts with `core/src/flows/`, ends with `.ts`, and has that name. Each flow appears once. The order is that of the first changed file naming each flow |
| FlowTags.FlowNameOf | scripts/runFlowTaggedTests.js:17-19 | `core/src/flows/<name>.ts` is a flow file named `<name>`, for any non-empty slash-free name |
| JsStrings.BasenameStripsExtension | scripts/runFlowTaggedTests.js:19 | When the last segment is longer than `.ts`, `basename(file, '.ts')` is that segment without `.ts` |
| TagRegex.MatchAt | scripts/runFlowTaggedTests.js:34 | A match at `i` starts at `i`. Its capture is non-empty, lies within the text, and begins at least 8 characters after `i` (`//`, `@flow` and one space) |
| TagRegex.MatchAtIff | scripts/runFlowTaggedTests.js:34 | The scanner matches at `i` capturing a tag iff `//`, `\s*`, `@flow`, `\s+` and a greedy `\w+` capture of that tag match at `i` |
| TagRegex.MatchAtSound | scripts/runFlowTaggedTests.js:34 | Each match the scanner finds is accepted by the regex |
| TagRegex.MatchAtComplete | scripts/runFlowTaggedTests.js:34 | Each match the regex accepts is the one the scanner finds |
| TagRegex.ExecFrom | scripts/runFlowTaggedTests.js:37 | `exec` returns a match starting at or after `lastIndex` |
| TagRegex.ExecFromLeftmost | scripts/runFlowTaggedTests.js:37 | The match is the leftmost one; `null` means no match starts at or after `lastIndex` |
| TagRegex.FlowTagRegex.constructor | scripts/runFlowTaggedTests.js:34 | A fresh global regex has `lastIndex` 0 |
| TagRegex.FlowTagRegex.Exec | scripts/runFlowTaggedTests.js:37 | `exec` searches from `lastIndex`. It moves `lastIndex` to the match's end, or back to 0 when nothing matches |
| TagRegex.ScanFlowTags | scripts/runFlowTaggedTests.js:31-41 | The `while` loop collects one capture per match, each search resuming at the previous match's end, in order and with repeats |
| TagRegex.FlowTagsNoMatch | scripts/runFlowTaggedTests.js:37-41 | The text has no tags iff no match starts anywhere in it |
| TagRegex.FlowTagsAreWords | scripts/runFlowTaggedTests.js:34 | Every tag is a non-empty run of `\w` characters |
| TagRegex.TagLineMatchAt | scripts/runFlowTaggedTests.js:34 | The line `// @flow <tag>` matches where it starts and captures `<tag>` |
| TagRegex.TagLineNext | scripts/runFlowTaggedTests.js:37-39 | A tag line contributes its tag, and scanning resumes after it |
| TagRegex.SlashFreeHeaderSkipped | scripts/runFlowTaggedTests.js:37 | Text without `/` before position `h` contributes no tag |
| TagRegex.HeaderThenTwoTagLines | scripts/runFlowTaggedTests.js:37-39 | A slash-free header followed by two tag lines yields those two tags first, in order |
| TagRegex.RepeatedTagKept | scripts/runFlowTaggedTests.js:37-39 | The same tag on two lines is reported twice: tags are not de-duplicated |
| FlowTags.ParseFlowTags | scripts/runFlowTaggedTests.js:28-46 | The result is the tags of the file's text. An unreadable file yields `[]` |
| FlowTags.TagsMeetFlows | scripts/runFlowTaggedTests.js:61-66 | The loop, with its `break`, finds a flow iff some changed flow is among the tags |
| FlowTags.FindTestsForChangedFlows | scripts/runFlowTaggedTests.js:49-70 | The result is the flow-tag selection |
| FlowTags.TaggedFilesExactly | scripts/runFlowTaggedTests.js:57-67 | A file is collected iff it is listed and its tags meet the changed flows; list order is kept |
| FlowTags.FlowSelectionExactly | scripts/runFlowTaggedTests.js:50-69 | No changed flow selects nothing. Otherwise a test is selected iff it is discovered and one of its tags is a changed flow. Unreadable tests are never selected; there are no duplicates; discovery order is kept |
| FlowTags.ExampleDiscovery | scripts/testUtils.js:43-55 | Over team-a's `tests` directory with its seven files, discovery returns the six `.test.ts` files in listing order (cart, checkout, example, navigation, profile, search) and skips `example.spec.ts` |
| FlowTags.SnocTestFile | scripts/testUtils.js:51-52 | A `.test.ts` file as the next entry of a listing adds its joined path to the walk's result |
| FlowTags.SnocOtherFile | scripts/testUtils.js:51 | An entry that is a file not ending in `.test.ts` adds nothing |
| FlowTags.CheckoutFlowChanged | scripts/runFlowTaggedTests.js:17-20 | A change to `core/src/flows/checkoutFlow.ts` names the single flow `checkoutFlow` |
| FlowTags.HeaderedTextIsTagged | feature-teams/team-a/tests/cart.test.ts:1-6 | A slash-free header followed by two tag lines and any rest has the shape of the example test files |
| FlowTags.ExampleTags | feature-teams/team-a/tests/checkout.test.ts:5-6 | The example files' tags begin `cartFlow, checkoutFlow` and `checkoutFlow, paymentFlow` |
| FlowTags.TaggedFilesUnmet | scripts/runFlowTaggedTests.js:57-67 | Files whose tags miss every changed flow add nothing to the selection |
| FlowTags.OthersUnmet | scripts/runFlowTaggedTests.js:61-66 | A test whose text has no `checkoutFlow` tag, or which cannot be read, does not meet a change to `checkoutFlow` |
| FlowTags.FirstTwoSelected | scripts/runFlowTaggedTests.js:57-69 | When the first two discovered tests differ and are tagged with a changed flow, and no later test is, exactly those two are selected, in order |
| FlowTags.CheckoutChangeSelectsCartAndCheckout | scripts/runFlowTaggedTests.js:17-64 | Changing `core/src/flows/checkoutFlow.ts` selects `cart.test.ts` and `checkout.test.ts`, in that order, and no other test of team-a |
| FlowSelection.CombineExactly | scripts/runFlowTaggedTests.js:92 | The union lists the flow-tag tests first, then the import tests not among them. Each test appears once, and a test is present iff it is in either list |
| FlowSelection.FlowTaggedSelectionExactly | scripts/runFlowTaggedTests.js:74-92 | The combined selection is the flow-tag tests followed by the new import-matched tests, without duplicates. A test is in it iff it is discovered and either one of its tags is a changed flow, or it is readable and contains an identifier of a changed core file |
| FlowSelection.AffectedSelectionIncluded | scripts/runAffectedTests.js:14-17 | The combined selection holds every test that the import-only runner selects for the same changed files |
| FlowSelection.RunFlowTaggedTests | scripts/runFlowTaggedTests.js:73-96 | `main` logs the count of the combined selection, then runs the team loop over its grouping. An empty selection logs "No linked to changed flows tests found." and runs nothing |

## Left out

- Real processes and files are inputs instead:
  - `execSync` of git, npm and mocha;
  - `fs.readdirSync` and `fs.readFileSync`;
  - `process.chdir`.

  The model covers the diff outcome, a directory tree, a map of file contents, and an environment that decides which directories and commands fail.
- The console lines of `main` that print intermediate lists (scripts/runFlowTaggedTests.js:75-93) and the per-file `console.error` calls in the `catch` blocks are not traced. The traced messages are the `runTests` lines.
- The wiring of `main` in scripts/runAffectedTests.js is not modelled as a method. Its selection appears only as `FlowSelection.AffectedSelection`, which the superset property is stated against.
- JavaScript `Map` iteration order over the import map is not modelled: it is a Dafny `map`. Only its key set is observable in the selection, so this changes no result.
- `path.join` normalisation of `.`, `..` and doubled separators is not modelled. Paths are joined with `/`, and a directory name is taken to be free of separators.
- FlowTags.FlowNameOf: requires a non-empty name, so a change to `core/src/flows/.ts` is not covered by the lemma. `FlowName` itself follows Node's `path.basename` there and returns `.ts`.
- FlowTags.CheckoutChangeSelectsCartAndCheckout: the texts are not restated in full, so the lemma is stated over every text of the same shape:
  - `cart.test.ts` and `checkout.test.ts` may be any text with a header free of `/`, then their two tag lines, then anything. The repository's own headers have that shape.
  - The other four `.test.ts` files may be any text without a `checkoutFlow` tag. Their tags in the repository are `navigationFlow`, `profileFlow` and `userDataFlow`, `searchFlow`, and none.
- FlowTags.ExampleDiscovery: the tree holds only team-a's `tests` directory, whose seven files are listed in name order. The order of `readdirSync` is not otherwise fixed by Node, and entries of team-a outside `tests` are not part of this model.
- Every directory listing by `readdirSync` (scripts/testUtils.js:44) is assumed to succeed. The call sits outside any `try`, and the walk is reached from both selections (scripts/testUtils.js:69, scripts/runFlowTaggedTests.js:54). A throw there ends `main` before any team runs; that abort path is not modelled.
- The browser automation modules, fixtures, page objects, reporters, data factories and configuration files are not part of this model.
