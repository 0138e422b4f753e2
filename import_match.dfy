/** `findTestsForChangedImports` (scripts/testUtils.js): a test is selected
    when its text contains one of the import identifiers as a plain substring,
    wherever it appears (an import line, a comment, a string literal). */
module ImportMatch {
  import opened Wrappers
  import opened JsStrings
  import opened Seqs
  import opened Discovery

  /** Some identifier occurs in `content`. */
  ghost predicate ReferencesAny(content: string, importPaths: set<string>) {
    exists importPath :: importPath in importPaths && Contains(content, importPath)
  }

  /** The discovered files, in order, that can be read and reference an identifier. */
  ghost function ReferencingFiles(fs: FileSystem, files: seq<string>, importPaths: set<string>): seq<string> {
    if |files| == 0 then []
    else
      var init := ReferencingFiles(fs, files[..|files| - 1], importPaths);
      var file := files[|files| - 1];
      match ReadFile(fs, file)
      case Some(content) => if ReferencesAny(content, importPaths) then init + [file] else init
      case None => init
  }

  /** The selection: nothing when the map is empty, otherwise the referencing
      files collected into a `Set`. */
  ghost function TestsForChangedImports(fs: FileSystem, importPathMap: map<string, string>): seq<string> {
    if |importPathMap| == 0 then []
    else Dedup(ReferencingFiles(fs, AllTestFiles(fs), importPathMap.Keys))
  }

  /** The inner `for (const [importPath] of importPathMap)` loop with its `break`. */
  method ReferencesAnyImport(content: string, importPaths: set<string>) returns (found: bool)
    ensures found <==> ReferencesAny(content, importPaths)
  {
    var remaining := importPaths;
    found := false;
    while remaining != {}
      invariant remaining <= importPaths
      invariant forall k :: k in importPaths - remaining ==> !Contains(content, k)
      decreases remaining
    {
      var importPath :| importPath in remaining;
      if Contains(content, importPath) {
        found := true;
        break;
      }
      remaining := remaining - {importPath};
    }
  }

  /** `findTestsForChangedImports(importPathMap)`. `filesRead` lists the paths
      handed to `readFileSync`, in order. */
  method FindTestsForChangedImports(fs: FileSystem, importPathMap: map<string, string>)
    returns (testsToRun: seq<string>, filesRead: seq<string>)
    ensures testsToRun == TestsForChangedImports(fs, importPathMap)
    ensures |importPathMap| == 0 ==> filesRead == []
    ensures |importPathMap| != 0 ==> filesRead == AllTestFiles(fs)
  {
    if |importPathMap| == 0 {
      return [], [];
    }
    var testFiles := FindAllTestFiles(fs);
    testsToRun, filesRead := [], [];
    for i := 0 to |testFiles|
      invariant testsToRun == Dedup(ReferencingFiles(fs, testFiles[..i], importPathMap.Keys))
      invariant filesRead == testFiles[..i]
    {
      var testFile := testFiles[i];
      assert testFiles[..i + 1][..i] == testFiles[..i];
      var content := ReadFile(fs, testFile);
      filesRead := filesRead + [testFile];
      if content.Some? {
        var found := ReferencesAnyImport(content.value, importPathMap.Keys);
        if found && testFile !in testsToRun {
          testsToRun := testsToRun + [testFile];
        }
      }
    }
    assert testFiles[..|testFiles|] == testFiles;
  }

  /** The referencing files are exactly the readable, referencing ones among
      `files`, in the order of `files`. */
  lemma {:induction false} ReferencingFilesExactly(fs: FileSystem, files: seq<string>, importPaths: set<string>)
    ensures forall f :: f in ReferencingFiles(fs, files, importPaths) <==>
      f in files && ReadFile(fs, f).Some? && ReferencesAny(ReadFile(fs, f).value, importPaths)
    ensures IsSubseq(ReferencingFiles(fs, files, importPaths), files)
  {
    if |files| > 0 {
      var init := files[..|files| - 1];
      var file := files[|files| - 1];
      ReferencingFilesExactly(fs, init, importPaths);
      assert files == init + [file];
      var r := ReferencingFiles(fs, init, importPaths);
      if ReferencingFiles(fs, files, importPaths) == r + [file] {
        SubseqAppend(r, init, file);
      } else {
        SubseqAppendRight(r, init, file);
      }
    }
  }

  /** An empty map selects nothing; otherwise a test is selected iff it is
      discovered, readable, and its text contains some identifier. The
      selection has no duplicates and follows discovery order. */
  lemma ImportSelectionExactly(fs: FileSystem, importPathMap: map<string, string>)
    ensures |importPathMap| == 0 ==> TestsForChangedImports(fs, importPathMap) == []
    ensures forall t :: t in TestsForChangedImports(fs, importPathMap) <==>
      && |importPathMap| != 0 && t in AllTestFiles(fs)
      && ReadFile(fs, t).Some?
      && exists k :: k in importPathMap && Contains(ReadFile(fs, t).value, k)
    ensures NoDups(TestsForChangedImports(fs, importPathMap))
    ensures IsSubseq(TestsForChangedImports(fs, importPathMap), AllTestFiles(fs))
  {
    if |importPathMap| != 0 {
      var sel := ReferencingFiles(fs, AllTestFiles(fs), importPathMap.Keys);
      ReferencingFilesExactly(fs, AllTestFiles(fs), importPathMap.Keys);
      DedupIsSubseq(sel);
      SubseqTrans(Dedup(sel), sel, AllTestFiles(fs));
    }
  }
}
