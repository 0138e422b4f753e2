/** `findAllTestFiles` (scripts/testUtils.js): a recursive walk of the
    `feature-teams` directory that collects every `*.test.ts` file. The file
    system is a value: the directory tree as `readdirSync` would list it, and
    the text `readFileSync` would return for each readable file. */
module Discovery {
  import opened Wrappers
  import opened JsStrings

  /** A directory entry: a file, or a directory with its own entries. */
  datatype Entry = File(name: string) | Directory(name: string, entries: seq<Entry>)

  /** What the scripts see of the repository: the directory holding `scripts/`'s
      parent (`path.join(__dirname, '..')`), the listing of its `feature-teams`
      directory, and the readable files' contents. A path absent from
      `contents` cannot be read. */
  datatype FileSystem = FileSystem(repoDir: string, featureTeams: seq<Entry>, contents: map<string, string>)

  const TestSuffix := ".test.ts"

  /** `path.join(__dirname, '..', 'feature-teams')`. */
  function TestRoot(fs: FileSystem): string {
    JoinPath(fs.repoDir, "feature-teams")
  }

  /** `fs.readFileSync(path, 'utf8')`, with `None` where it throws. */
  function ReadFile(fs: FileSystem, path: string): Option<string> {
    if path in fs.contents then Some(fs.contents[path]) else None
  }

  /** The test files found by `searchDirectory(dir)` over `entries`, in the walk's order. */
  function TestFilesIn(dir: string, entries: seq<Entry>): seq<string>
    decreases entries
  {
    if |entries| == 0 then []
    else
      var entry := entries[|entries| - 1];
      var fullPath := JoinPath(dir, entry.name);
      TestFilesIn(dir, entries[..|entries| - 1]) +
        match entry
        case Directory(_, sub) => TestFilesIn(fullPath, sub)
        case File(name) => if EndsWith(name, TestSuffix) then [fullPath] else []
  }

  /** The test files of the whole `feature-teams` tree. */
  function AllTestFiles(fs: FileSystem): seq<string> {
    TestFilesIn(TestRoot(fs), fs.featureTeams)
  }

  /** The closure's shared `testFiles` array, pushed onto during the recursion. */
  class TestFileCollector {
    var testFiles: seq<string>

    constructor ()
      ensures testFiles == []
    {
      testFiles := [];
    }

    /** `searchDirectory(dir)` with `entries` the listing of `dir`. */
    method SearchDirectory(dir: string, entries: seq<Entry>)
      modifies this
      ensures testFiles == old(testFiles) + TestFilesIn(dir, entries)
      decreases entries
    {
      for i := 0 to |entries|
        invariant testFiles == old(testFiles) + TestFilesIn(dir, entries[..i])
      {
        var entry := entries[i];
        var fullPath := JoinPath(dir, entry.name);
        assert entries[..i + 1][..i] == entries[..i];
        if entry.Directory? {
          SearchDirectory(fullPath, entry.entries);
        } else if EndsWith(entry.name, TestSuffix) {
          testFiles := testFiles + [fullPath];
        }
      }
      assert entries[..|entries|] == entries;
    }
  }

  /** `findAllTestFiles()`. */
  method FindAllTestFiles(fs: FileSystem) returns (testFiles: seq<string>)
    ensures testFiles == AllTestFiles(fs)
  {
    var collector := new TestFileCollector();
    collector.SearchDirectory(TestRoot(fs), fs.featureTeams);
    testFiles := collector.testFiles;
  }

  /** `p` is the path of a file named `name` somewhere under `dir`, whose listing is `entries`. */
  ghost predicate FileUnder(dir: string, entries: seq<Entry>, name: string, p: string)
    decreases entries, 1
  {
    exists i :: 0 <= i < |entries| && EntryHolds(dir, entries, i, name, p)
  }

  /** Entry `i` of `entries` is, or (a directory) contains, the file `name` at path `p`. */
  ghost predicate EntryHolds(dir: string, entries: seq<Entry>, i: int, name: string, p: string)
    requires 0 <= i < |entries|
    decreases entries, 0
  {
    if entries[i].File? then entries[i].name == name && p == JoinPath(dir, name)
    else FileUnder(JoinPath(dir, entries[i].name), entries[i].entries, name, p)
  }

  /** Discovery returns exactly the paths of the files (not directories) whose
      name ends in `.test.ts`, at any depth. */
  lemma {:induction false} TestFilesExactly(dir: string, entries: seq<Entry>, p: string)
    ensures p in TestFilesIn(dir, entries) <==>
      exists name :: EndsWith(name, TestSuffix) && FileUnder(dir, entries, name, p)
    decreases entries
  {
    if |entries| > 0 {
      var init := entries[..|entries| - 1];
      var entry := entries[|entries| - 1];
      var fullPath := JoinPath(dir, entry.name);
      TestFilesExactly(dir, init, p);
      if entry.Directory? {
        TestFilesExactly(fullPath, entry.entries, p);
      }
      FileUnderSplit(dir, entries, p);
    }
  }

  /** A file lies under `entries` iff it lies under all but the last entry or under the last one. */
  lemma FileUnderSplit(dir: string, entries: seq<Entry>, p: string)
    requires |entries| > 0
    ensures forall name :: FileUnder(dir, entries, name, p) <==>
      FileUnder(dir, entries[..|entries| - 1], name, p) || EntryHolds(dir, entries, |entries| - 1, name, p)
  {
    forall name ensures FileUnder(dir, entries, name, p) <==>
      FileUnder(dir, entries[..|entries| - 1], name, p) || EntryHolds(dir, entries, |entries| - 1, name, p)
    {
      FileUnderSplitAt(dir, entries, name, p);
    }
  }

  lemma FileUnderSplitAt(dir: string, entries: seq<Entry>, name: string, p: string)
    requires |entries| > 0
    ensures FileUnder(dir, entries, name, p) <==>
      FileUnder(dir, entries[..|entries| - 1], name, p) || EntryHolds(dir, entries, |entries| - 1, name, p)
  {
    var init := entries[..|entries| - 1];
    if FileUnder(dir, init, name, p) {
      FileUnderWitness(dir, init, name, p);
      var i :| 0 <= i < |init| && EntryHolds(dir, init, i, name, p);
      assert entries[i] == init[i];
      FileUnderIntro(dir, entries, i, name, p);
    }
    if EntryHolds(dir, entries, |entries| - 1, name, p) {
      FileUnderIntro(dir, entries, |entries| - 1, name, p);
    }
    if FileUnder(dir, entries, name, p) {
      FileUnderWitness(dir, entries, name, p);
      var i :| 0 <= i < |entries| && EntryHolds(dir, entries, i, name, p);
      if i < |init| {
        assert init[i] == entries[i];
        FileUnderIntro(dir, init, i, name, p);
      }
    }
  }

  lemma FileUnderWitness(dir: string, entries: seq<Entry>, name: string, p: string)
    requires FileUnder(dir, entries, name, p)
    ensures exists i :: 0 <= i < |entries| && EntryHolds(dir, entries, i, name, p)
  {
  }

  lemma FileUnderIntro(dir: string, entries: seq<Entry>, i: int, name: string, p: string)
    requires 0 <= i < |entries| && EntryHolds(dir, entries, i, name, p)
    ensures FileUnder(dir, entries, name, p)
  {
  }

  /** Every discovered path ends in `.test.ts`: a `*.spec.ts` file such as
      `feature-teams/team-a/tests/example.spec.ts` is never returned. */
  lemma {:induction false} DiscoveredEndWithTestSuffix(dir: string, entries: seq<Entry>)
    ensures forall p :: p in TestFilesIn(dir, entries) ==> EndsWith(p, TestSuffix) && !EndsWith(p, ".spec.ts")
    decreases entries
  {
    if |entries| > 0 {
      var entry := entries[|entries| - 1];
      DiscoveredEndWithTestSuffix(dir, entries[..|entries| - 1]);
      if entry.Directory? {
        DiscoveredEndWithTestSuffix(JoinPath(dir, entry.name), entry.entries);
      } else if EndsWith(entry.name, TestSuffix) {
        JoinPathEndsWith(dir, entry.name, TestSuffix);
        TestFileIsNotSpec(JoinPath(dir, entry.name));
      }
    }
  }

  /** A joined path ends with whatever the entry name ends with. */
  lemma JoinPathEndsWith(dir: string, name: string, suffix: string)
    requires EndsWith(name, suffix)
    ensures EndsWith(JoinPath(dir, name), suffix)
  {
    var p := JoinPath(dir, name);
    assert p[|p| - |suffix|..] == name[|name| - |suffix|..];
  }

  /** No path ends in both `.test.ts` and `.spec.ts`. */
  lemma TestFileIsNotSpec(p: string)
    requires EndsWith(p, TestSuffix)
    ensures !EndsWith(p, ".spec.ts")
  {
    assert p[|p| - 7] == p[|p| - 8..][1] == 't';
  }
}
