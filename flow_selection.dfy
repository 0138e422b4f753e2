/** `main` of scripts/runFlowTaggedTests.js: the tests selected by flow tags,
    then the tests selected by import references that are not already
    present, handed to `runTests`. The `console.log` lines of `main` itself
    are not part of the model. */
module FlowSelection {
  import opened Wrappers
  import opened JsStrings
  import opened Seqs
  import opened ChangedFiles
  import opened ImportPaths
  import opened Discovery
  import opened ImportMatch
  import opened FlowTags
  import opened TeamRunner

  /** `[...new Set([...testsFromFlowTags, ...testsFromImports])]`. */
  function Combine(fromFlowTags: seq<string>, fromImports: seq<string>): seq<string> {
    Dedup(fromFlowTags + fromImports)
  }

  /** The union keeps each test of either list once: first the flow-tag
      tests, each at its first occurrence, then the import-matched tests that
      are not flow-tag tests. */
  lemma CombineExactly(fromFlowTags: seq<string>, fromImports: seq<string>)
    ensures Combine(fromFlowTags, fromImports) == Dedup(fromFlowTags) + Dedup(Without(fromImports, fromFlowTags))
    ensures NoDups(Combine(fromFlowTags, fromImports))
    ensures forall t :: t in Combine(fromFlowTags, fromImports) <==> t in fromFlowTags || t in fromImports
  {
    DedupConcat(fromFlowTags, fromImports);
  }

  /** The tests `main` hands to `runTests` for the changed files. */
  ghost function FlowTaggedSelection(fs: FileSystem, changedFiles: seq<string>): seq<string> {
    Combine(TestsForChangedFlows(fs, ChangedFlows(changedFiles)),
            TestsForChangedImports(fs, ImportPathMap(changedFiles)))
  }

  /** The tests the import-only runner (scripts/runAffectedTests.js) selects
      for the same changed files. */
  ghost function AffectedSelection(fs: FileSystem, changedFiles: seq<string>): seq<string> {
    TestsForChangedImports(fs, ImportPathMap(changedFiles))
  }

  /** The combined selection is the flow-tag selection followed by the
      import-matched tests it does not already hold, without duplicates. A
      test is in it iff it is discovered and either one of its tags names a
      changed flow, or it is readable and its text contains an import
      identifier of a changed core file. */
  lemma FlowTaggedSelectionExactly(fs: FileSystem, changedFiles: seq<string>)
    ensures var byFlow := TestsForChangedFlows(fs, ChangedFlows(changedFiles));
      FlowTaggedSelection(fs, changedFiles) == byFlow + Without(AffectedSelection(fs, changedFiles), byFlow)
    ensures NoDups(FlowTaggedSelection(fs, changedFiles))
    ensures forall t :: t in FlowTaggedSelection(fs, changedFiles) <==>
      && t in AllTestFiles(fs)
      && (|| (exists flow :: flow in ChangedFlows(changedFiles) && flow in FlowTagsOf(fs, t))
          || (&& |ImportPathMap(changedFiles)| != 0 && ReadFile(fs, t).Some?
              && exists k :: k in ImportPathMap(changedFiles) && Contains(ReadFile(fs, t).value, k)))
  {
    var byFlow := TestsForChangedFlows(fs, ChangedFlows(changedFiles));
    var byImport := AffectedSelection(fs, changedFiles);
    FlowSelectionExactly(fs, ChangedFlows(changedFiles));
    ImportSelectionExactly(fs, ImportPathMap(changedFiles));
    CombineExactly(byFlow, byImport);
    DedupNoDups(byFlow);
    WithoutMembers(byImport, byFlow);
    DedupNoDups(Without(byImport, byFlow));
  }

  /** The combined selection holds every test the import-only runner selects
      for the same changed files. */
  lemma AffectedSelectionIncluded(fs: FileSystem, changedFiles: seq<string>)
    ensures forall t :: t in AffectedSelection(fs, changedFiles) ==> t in FlowTaggedSelection(fs, changedFiles)
  {
    CombineExactly(TestsForChangedFlows(fs, ChangedFlows(changedFiles)), AffectedSelection(fs, changedFiles));
  }

  /** `main()`, with `diff` the outcome of the `git diff` call (`None` where
      it throws). */
  method RunFlowTaggedTests(proc: Process, fs: FileSystem, diff: Option<string>)
    modifies proc
    ensures var tests := FlowTaggedSelection(fs, GetChangedFiles(diff));
      && (|tests| == 0 ==>
            proc.trace == old(proc.trace) + [Log(NoneFound("linked to changed flows"))] && proc.cwd == old(proc.cwd))
      && (|tests| != 0 ==>
            var run := RunLoop(proc.env, old(proc.cwd), fs, Entries(Group(tests)));
            && proc.trace == old(proc.trace) + [Log(Found(|tests|, "linked to changed flows"))] + run.steps
            && proc.cwd == run.cwd)
  {
    var changedFiles := GetChangedFiles(diff);
    var changedFlows := DetectChangedFlows(changedFiles);
    var testsFromFlowTags := FindTestsForChangedFlows(fs, changedFlows);
    var importPathMap := MapCoreFilesToImportPaths(changedFiles);
    var testsFromImports, _ := FindTestsForChangedImports(fs, importPathMap);
    var testsToRun := Combine(testsFromFlowTags, testsFromImports);
    RunTests(proc, fs, testsToRun, "linked to changed flows");
  }
}
