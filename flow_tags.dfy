/** The flow-tag selector of scripts/runFlowTaggedTests.js: changed flow
    files name flows, tests declare the flows they cover in `// @flow <name>`
    comments, and a test is selected when one of its tags names a changed flow. */
module FlowTags {
  import opened Wrappers
  import opened JsStrings
  import opened Seqs
  import opened Discovery
  import opened TagRegex

  const FlowsDir := "core/src/flows/"
  const FlowExt := ".ts"

  /** `file.startsWith('core/src/flows/') && file.endsWith('.ts')`. */
  predicate IsFlowFile(file: string) {
    FlowsDir <= file && EndsWith(file, FlowExt)
  }

  /** `path.basename(file, '.ts')`. */
  function FlowName(file: string): string {
    Basename(file, FlowExt)
  }

  /** The flow name of every flow file among `files`, in order, repeats included. */
  function FlowNames(files: seq<string>): seq<string> {
    if |files| == 0 then []
    else
      var file := files[|files| - 1];
      FlowNames(files[..|files| - 1]) + if IsFlowFile(file) then [FlowName(file)] else []
  }

  /** `Array.from(changedFlows)` after the `forEach`. */
  function ChangedFlows(files: seq<string>): seq<string> {
    Dedup(FlowNames(files))
  }

  /** `detectChangedFlows(changedFiles)`. */
  method DetectChangedFlows(changedFiles: seq<string>) returns (changedFlows: seq<string>)
    ensures changedFlows == ChangedFlows(changedFiles)
  {
    changedFlows := [];
    for i := 0 to |changedFiles|
      invariant changedFlows == Dedup(FlowNames(changedFiles[..i]))
    {
      var file := changedFiles[i];
      assert changedFiles[..i + 1][..i] == changedFiles[..i];
      if FlowsDir <= file && EndsWith(file, FlowExt) {
        var flowName := Basename(file, FlowExt);
        assert FlowNames(changedFiles[..i + 1]) == FlowNames(changedFiles[..i]) + [flowName];
        DedupSnoc(FlowNames(changedFiles[..i]), flowName);
        if flowName !in changedFlows {
          changedFlows := changedFlows + [flowName];
        }
      } else {
        assert FlowNames(changedFiles[..i]) + [] == FlowNames(changedFiles[..i]);
      }
    }
    assert changedFiles[..|changedFiles|] == changedFiles;
  }

  lemma {:induction false} FlowNamesExactly(files: seq<string>)
    ensures forall name :: name in FlowNames(files) <==> exists f :: f in files && IsFlowFile(f) && FlowName(f) == name
  {
    if |files| > 0 {
      FlowNamesExactly(files[..|files| - 1]);
      assert files == files[..|files| - 1] + [files[|files| - 1]];
    }
  }

  /** A flow is reported iff some changed file is a flow file with that name;
      each flow once, in the order its first file appears. */
  lemma ChangedFlowsExactly(files: seq<string>)
    ensures forall name :: name in ChangedFlows(files) <==> exists f :: f in files && IsFlowFile(f) && FlowName(f) == name
    ensures NoDups(ChangedFlows(files))
    ensures IsSubseq(ChangedFlows(files), FlowNames(files))
    ensures forall i, j :: 0 <= i < j < |ChangedFlows(files)| ==>
      FirstIndex(FlowNames(files), ChangedFlows(files)[i]) < FirstIndex(FlowNames(files), ChangedFlows(files)[j])
  {
    FlowNamesExactly(files);
    DedupIsSubseq(FlowNames(files));
    DedupFirstOccurrenceOrder(FlowNames(files));
  }

  /** The last segment of a path ending in `/` and a slash-free name is that name. */
  lemma {:induction false} LastSegmentAfterSlash(dir: string, name: string)
    requires '/' !in name
    ensures LastSegment(dir + "/" + name) == name
  {
    if |name| > 0 {
      var init := name[..|name| - 1];
      LastSegmentAfterSlash(dir, init);
      assert (dir + "/" + name)[..|dir + "/" + name| - 1] == dir + "/" + init;
      assert init + [name[|name| - 1]] == name;
    } else {
      assert dir + "/" + name == dir + "/";
    }
  }

  /** `core/src/flows/<name>.ts` is a flow file named `<name>`, for any
      non-empty, slash-free `<name>`: `core/src/flows/loginFlow.ts` names `loginFlow`. */
  lemma FlowNameOf(name: string)
    requires name != [] && '/' !in name
    ensures IsFlowFile(FlowsDir + name + FlowExt)
    ensures FlowName(FlowsDir + name + FlowExt) == name
  {
    var file := FlowsDir + name + FlowExt;
    assert file == "core/src/flows" + "/" + (name + FlowExt);
    LastSegmentAfterSlash("core/src/flows", name + FlowExt);
    var seg := name + FlowExt;
    assert seg[|seg| - 3..] == FlowExt;
    assert seg[..|seg| - 3] == name;
    assert file[|file| - 3..] == FlowExt;
    assert file[..|FlowsDir|] == FlowsDir;
  }

  /** `parseFlowTags(testFile)`: the tags of the file's text, and none when
      `readFileSync` throws. */
  function FlowTagsOf(fs: FileSystem, testFile: string): seq<string> {
    match ReadFile(fs, testFile)
    case None => []
    case Some(content) => FlowTags(content)
  }

  /** `parseFlowTags(testFile)`. */
  method ParseFlowTags(fs: FileSystem, testFile: string) returns (flowTags: seq<string>)
    ensures flowTags == FlowTagsOf(fs, testFile)
  {
    var content := ReadFile(fs, testFile);
    if content.None? {
      return [];
    }
    flowTags := ScanFlowTags(content.value);
  }

  // ---------------------------------------------------------------------
  // Selection by flow tags

  /** Some changed flow is among the tags. */
  predicate TagsMeet(flowTags: seq<string>, changedFlows: seq<string>) {
    exists flow :: flow in changedFlows && flow in flowTags
  }

  /** The `for (const flow of changedFlows)` loop with its `break`. */
  method TagsMeetFlows(flowTags: seq<string>, changedFlows: seq<string>) returns (found: bool)
    ensures found <==> TagsMeet(flowTags, changedFlows)
  {
    for i := 0 to |changedFlows|
      invariant forall k :: 0 <= k < i ==> changedFlows[k] !in flowTags
    {
      if changedFlows[i] in flowTags {
        return true;
      }
    }
    return false;
  }

  /** The files among `files`, in order, whose tags meet the changed flows. */
  function TaggedFiles(fs: FileSystem, files: seq<string>, changedFlows: seq<string>): seq<string> {
    if |files| == 0 then []
    else
      var file := files[|files| - 1];
      TaggedFiles(fs, files[..|files| - 1], changedFlows) +
        if TagsMeet(FlowTagsOf(fs, file), changedFlows) then [file] else []
  }

  /** One more file extends the selection by that file exactly when its tags
      meet the changed flows. */
  lemma TaggedFilesStep(fs: FileSystem, files: seq<string>, i: nat, changedFlows: seq<string>)
    requires i < |files|
    ensures TaggedFiles(fs, files[..i + 1], changedFlows) ==
      if TagsMeet(FlowTagsOf(fs, files[i]), changedFlows)
      then TaggedFiles(fs, files[..i], changedFlows) + [files[i]]
      else TaggedFiles(fs, files[..i], changedFlows)
  {
    assert files[..i + 1][..i] == files[..i];
    assert TaggedFiles(fs, files[..i], changedFlows) + [] == TaggedFiles(fs, files[..i], changedFlows);
  }

  /** The selection of `findTestsForChangedFlows`. */
  function TestsForChangedFlows(fs: FileSystem, changedFlows: seq<string>): seq<string> {
    if |changedFlows| == 0 then []
    else Dedup(TaggedFiles(fs, AllTestFiles(fs), changedFlows))
  }

  /** `findTestsForChangedFlows(changedFlows)`. */
  method FindTestsForChangedFlows(fs: FileSystem, changedFlows: seq<string>) returns (testsToRun: seq<string>)
    ensures testsToRun == TestsForChangedFlows(fs, changedFlows)
  {
    if |changedFlows| == 0 {
      return [];
    }
    var testFiles := FindAllTestFiles(fs);
    testsToRun := [];
    for i := 0 to |testFiles|
      invariant testsToRun == Dedup(TaggedFiles(fs, testFiles[..i], changedFlows))
    {
      var testFile := testFiles[i];
      var flowTags := ParseFlowTags(fs, testFile);
      var found := TagsMeetFlows(flowTags, changedFlows);
      TaggedFilesStep(fs, testFiles, i, changedFlows);
      if found {
        DedupSnoc(TaggedFiles(fs, testFiles[..i], changedFlows), testFile);
        if testFile !in testsToRun {
          testsToRun := testsToRun + [testFile];
        }
      }
    }
    assert testFiles[..|testFiles|] == testFiles;
  }

  lemma {:induction false} TaggedFilesExactly(fs: FileSystem, files: seq<string>, changedFlows: seq<string>)
    ensures forall f :: f in TaggedFiles(fs, files, changedFlows) <==> f in files && TagsMeet(FlowTagsOf(fs, f), changedFlows)
    ensures IsSubseq(TaggedFiles(fs, files, changedFlows), files)
  {
    if |files| > 0 {
      var init := files[..|files| - 1];
      var file := files[|files| - 1];
      TaggedFilesExactly(fs, init, changedFlows);
      assert files == init + [file];
      var r := TaggedFiles(fs, init, changedFlows);
      if TagsMeet(FlowTagsOf(fs, file), changedFlows) {
        SubseqAppend(r, init, file);
      } else {
        assert r + [] == r;
        SubseqAppendRight(r, init, file);
      }
    }
  }

  /** No changed flow selects nothing; otherwise a test is selected iff it is
      discovered and one of its tags is a changed flow. The selection has no
      duplicates and follows discovery order; an unreadable test has no tags
      and is never selected. */
  lemma FlowSelectionExactly(fs: FileSystem, changedFlows: seq<string>)
    ensures |changedFlows| == 0 ==> TestsForChangedFlows(fs, changedFlows) == []
    ensures forall t :: t in TestsForChangedFlows(fs, changedFlows) <==>
      && t in AllTestFiles(fs)
      && exists flow :: flow in changedFlows && flow in FlowTagsOf(fs, t)
    ensures forall t :: ReadFile(fs, t).None? ==> t !in TestsForChangedFlows(fs, changedFlows)
    ensures NoDups(TestsForChangedFlows(fs, changedFlows))
    ensures IsSubseq(TestsForChangedFlows(fs, changedFlows), AllTestFiles(fs))
  {
    if |changedFlows| != 0 {
      var sel := TaggedFiles(fs, AllTestFiles(fs), changedFlows);
      TaggedFilesExactly(fs, AllTestFiles(fs), changedFlows);
      DedupIsSubseq(sel);
      SubseqTrans(Dedup(sel), sel, AllTestFiles(fs));
    }
  }

  // ---------------------------------------------------------------------
  // Example: the tagged tests of team-a

  /** `feature-teams/team-a/tests`, as the walk builds it from an empty `repoDir`. */
  const TeamATests := JoinPath(JoinPath("feature-teams", "team-a"), "tests")
  /** `feature-teams/team-a/tests/cart.test.ts`. */
  const CartTest := JoinPath(TeamATests, "cart" + TestSuffix)
  /** `feature-teams/team-a/tests/checkout.test.ts`. */
  const CheckoutTest := JoinPath(TeamATests, "checkout" + TestSuffix)

  /** `feature-teams/team-a/tests/example.test.ts`. */
  const ExampleTest := JoinPath(TeamATests, "example" + TestSuffix)
  /** `feature-teams/team-a/tests/navigation.test.ts`. */
  const NavigationTest := JoinPath(TeamATests, "navigation" + TestSuffix)
  /** `feature-teams/team-a/tests/profile.test.ts`. */
  const ProfileTest := JoinPath(TeamATests, "profile" + TestSuffix)
  /** `feature-teams/team-a/tests/search.test.ts`. */
  const SearchTest := JoinPath(TeamATests, "search" + TestSuffix)
  /** The `.test.ts` files of team-a, in listing order. */
  const TeamATestFiles := [CartTest, CheckoutTest, ExampleTest, NavigationTest, ProfileTest, SearchTest]
  /** The `.test.ts` files of team-a other than cart and checkout. */
  const OtherTests := TeamATestFiles[2..]

  /** The listing of `feature-teams/team-a/tests`, in name order: six
      `.test.ts` files and `example.spec.ts`. */
  const TeamAListing := [File("cart" + TestSuffix), File("checkout" + TestSuffix), File("example.spec.ts"),
    File("example" + TestSuffix), File("navigation" + TestSuffix), File("profile" + TestSuffix),
    File("search" + TestSuffix)]

  /** The listing of `feature-teams`: team-a with its `tests` directory. */
  const ExampleTree := [Directory("team-a", [Directory("tests", TeamAListing)])]

  /** The repository with `ExampleTree`, the texts of `cart.test.ts` and
      `checkout.test.ts`, and `others` for the texts of any other files. */
  function ExampleRepo(cartText: string, checkoutText: string, others: map<string, string>): FileSystem {
    FileSystem("", ExampleTree, others[CartTest := cartText][CheckoutTest := checkoutText])
  }

  /** `text` opens with `h` characters without `/` (an import header), then
      the tag lines of `a` and `b`, then anything. */
  ghost predicate TaggedAfterHeader(text: string, h: nat, a: string, b: string) {
    && LineAt(text, h, TagLine(a))
    && LineAt(text, h + |TagLine(a)|, TagLine(b))
    && '/' !in text[..h]
  }

  /** The `tests` listing yields its six `.test.ts` files in listing order
      and skips `example.spec.ts`. */
  lemma TeamAListingTests()
    ensures TestFilesIn(TeamATests, TeamAListing) == TeamATestFiles
  {
    var d, l, f := TeamATests, TeamAListing, TeamATestFiles;
    TeamAListingMiddle();
    assert TestFilesIn(d, l[..6]) == f[..5] by { SnocTestFile(d, l, 5, f, 4, "profile"); }
    assert TestFilesIn(d, l[..7]) == f[..6] by { SnocTestFile(d, l, 6, f, 5, "search"); }
    assert l[..7] == l && f[..6] == f;
  }

  /** The first three entries: cart and checkout are tests, `example.spec.ts` is not. */
  lemma TeamAListingStart()
    ensures TestFilesIn(TeamATests, TeamAListing[..3]) == TeamATestFiles[..2]
  {
    var d, l, f := TeamATests, TeamAListing, TeamATestFiles;
    assert !EndsWith("example.spec.ts", TestSuffix) by {
      var spec := "example.spec.ts";
      assert spec[7..][1] == spec[8] == 's';
    }
    assert TestFilesIn(d, l[..1]) == f[..1] by {
      assert l[..0] == [] && f[..0] == [];
      SnocTestFile(d, l, 0, f, 0, "cart");
    }
    assert TestFilesIn(d, l[..2]) == f[..2] by { SnocTestFile(d, l, 1, f, 1, "checkout"); }
    SnocOtherFile(d, l, 2, f, 2, "example.spec.ts");
  }

  /** The next two entries, `example.test.ts` and `navigation.test.ts`, are tests. */
  lemma TeamAListingMiddle()
    ensures TestFilesIn(TeamATests, TeamAListing[..5]) == TeamATestFiles[..4]
  {
    var d, l, f := TeamATests, TeamAListing, TeamATestFiles;
    TeamAListingStart();
    assert TestFilesIn(d, l[..4]) == f[..3] by { SnocTestFile(d, l, 3, f, 2, "example"); }
    SnocTestFile(d, l, 4, f, 3, "navigation");
  }

  /** A `<stem>.test.ts` file as the next entry of a listing adds its path as
      the next path of the walk's result. */
  lemma SnocTestFile(dir: string, l: seq<Entry>, k: nat, f: seq<string>, j: nat, stem: string)
    requires k < |l| && j < |f|
    requires l[k] == File(stem + TestSuffix) && f[j] == JoinPath(dir, stem + TestSuffix)
    requires TestFilesIn(dir, l[..k]) == f[..j]
    ensures TestFilesIn(dir, l[..k + 1]) == f[..j + 1]
  {
    EndsWithSuffix(stem, TestSuffix);
    assert l[..k + 1][..k] == l[..k];
    assert f[..j + 1] == f[..j] + [f[j]];
  }

  /** A file that is not a test as the next entry leaves the walk's result unchanged. */
  lemma SnocOtherFile(dir: string, l: seq<Entry>, k: nat, f: seq<string>, j: nat, name: string)
    requires k < |l| && j <= |f|
    requires l[k] == File(name) && !EndsWith(name, TestSuffix)
    requires TestFilesIn(dir, l[..k]) == f[..j]
    ensures TestFilesIn(dir, l[..k + 1]) == f[..j]
  {
    assert l[..k + 1][..k] == l[..k];
    assert f[..j] + [] == f[..j];
  }

  /** Discovery over the example tree finds team-a's six `.test.ts` files,
      cart and checkout first. */
  lemma ExampleDiscovery(fs: FileSystem)
    requires fs.repoDir == "" && fs.featureTeams == ExampleTree
    ensures AllTestFiles(fs) == TeamATestFiles
  {
    TeamAListingTests();
    var found := TeamATestFiles;
    var teamA := [Directory("tests", TeamAListing)];
    assert teamA[..0] == [] && ExampleTree[..0] == [];
    assert TestFilesIn(JoinPath("feature-teams", "team-a"), teamA) == [] + found;
    assert TestFilesIn("feature-teams", ExampleTree) == [] + found;
    assert TestRoot(fs) == "feature-teams";
  }

  /** A string ends with what was appended to it. */
  lemma EndsWithSuffix(stem: string, suffix: string)
    ensures EndsWith(stem + suffix, suffix)
  {
    assert (stem + suffix)[|stem|..] == suffix;
  }

  /** A slash-free header, two tag lines and any text have that shape. */
  lemma HeaderedTextIsTagged(head: string, a: string, b: string, rest: string)
    requires '/' !in head
    ensures TaggedAfterHeader(head + (TagLine(a) + (TagLine(b) + rest)), |head|, a, b)
  {
    PartsAt(head, TagLine(a), TagLine(b), rest);
  }

  /** A change to `core/src/flows/checkoutFlow.ts` names the one flow `checkoutFlow`. */
  lemma CheckoutFlowChanged()
    ensures ChangedFlows(["core/src/flows/checkoutFlow.ts"]) == ["checkoutFlow"]
  {
    FlowNameOf("checkoutFlow");
    assert FlowsDir + "checkoutFlow" + FlowExt == "core/src/flows/checkoutFlow.ts";
    var files := ["core/src/flows/checkoutFlow.ts"];
    assert files[..0] == [];
    assert FlowNames(files) == ["checkoutFlow"];
  }

  /** The example flow names are words. */
  lemma ExampleFlowNamesAreWords()
    ensures IsWord("cartFlow") && IsWord("checkoutFlow") && IsWord("paymentFlow")
  {
    CartFlowChars();
    CheckoutFlowChars();
    PaymentFlowChars();
    WordCharsIsWord("cartFlow");
    WordCharsIsWord("checkoutFlow");
    WordCharsIsWord("paymentFlow");
  }

  lemma CartFlowChars()
    ensures WordChars("cartFlow")
  {
  }

  lemma CheckoutFlowChars()
    ensures WordChars("checkoutFlow")
  {
  }

  lemma PaymentFlowChars()
    ensures WordChars("paymentFlow")
  {
  }

  /** The example paths differ: cart and checkout from each other and from the rest. */
  lemma ExamplePathsDiffer()
    ensures CartTest != CheckoutTest
    ensures CartTest !in OtherTests && CheckoutTest !in OtherTests
  {
    assert |CartTest| != |CheckoutTest|;
    assert forall f :: f in OtherTests ==> |f| != |CartTest| && |f| != |CheckoutTest|;
  }

  /** The example files read back as written; any other path reads from `others`. */
  lemma ExampleContents(cartText: string, checkoutText: string, others: map<string, string>)
    ensures var fs := ExampleRepo(cartText, checkoutText, others);
      && ReadFile(fs, CartTest) == Some(cartText) && ReadFile(fs, CheckoutTest) == Some(checkoutText)
      && forall f :: f !in [CartTest, CheckoutTest] ==>
           ReadFile(fs, f) == if f in others then Some(others[f]) else None
  {
    ExamplePathsDiffer();
  }

  /** Both example files carry the `checkoutFlow` tag, after the tag before it
      (`cartFlow`) or before the tag after it (`paymentFlow`). */
  lemma ExampleTags(cartText: string, h1: nat, checkoutText: string, h2: nat, others: map<string, string>)
    requires TaggedAfterHeader(cartText, h1, "cartFlow", "checkoutFlow")
    requires TaggedAfterHeader(checkoutText, h2, "checkoutFlow", "paymentFlow")
    ensures var fs := ExampleRepo(cartText, checkoutText, others);
      && |FlowTagsOf(fs, CartTest)| >= 2 && FlowTagsOf(fs, CartTest)[..2] == ["cartFlow", "checkoutFlow"]
      && |FlowTagsOf(fs, CheckoutTest)| >= 2 && FlowTagsOf(fs, CheckoutTest)[..2] == ["checkoutFlow", "paymentFlow"]
  {
    ExampleFlowNamesAreWords();
    ExampleContents(cartText, checkoutText, others);
    var p1 := h1 + |TagLine("cartFlow")|;
    var q1 := p1 + |TagLine("checkoutFlow")|;
    HeaderThenTwoTagLines(cartText, h1, p1, q1, "cartFlow", "checkoutFlow");
    var p2 := h2 + |TagLine("checkoutFlow")|;
    var q2 := p2 + |TagLine("paymentFlow")|;
    HeaderThenTwoTagLines(checkoutText, h2, p2, q2, "checkoutFlow", "paymentFlow");
  }

  /** The other four tests do not meet a change to `checkoutFlow` when none of
      the other texts carries that tag (an unreadable test has no tags). */
  lemma OthersUnmet(cartText: string, checkoutText: string, others: map<string, string>)
    requires forall f :: f in others ==> "checkoutFlow" !in FlowTags(others[f])
    ensures forall f :: f in OtherTests ==>
      !TagsMeet(FlowTagsOf(ExampleRepo(cartText, checkoutText, others), f), ["checkoutFlow"])
  {
    ExamplePathsDiffer();
    ExampleContents(cartText, checkoutText, others);
  }

  /** Tags that start with two given flows meet a change to the second or the first. */
  lemma TwoTagsMeet(tags: seq<string>, a: string, b: string)
    requires |tags| >= 2 && tags[..2] == [a, b]
    ensures TagsMeet(tags, [a]) && TagsMeet(tags, [b])
  {
    assert tags[0] == tags[..2][0] == a && tags[1] == tags[..2][1] == b;
    assert a in [a] && a in tags;
    assert b in [b] && b in tags;
  }

  /** Files whose tags miss the changed flows add nothing to the selection. */
  lemma {:induction false} TaggedFilesUnmet(fs: FileSystem, p: seq<string>, q: seq<string>, flows: seq<string>)
    requires forall f :: f in q ==> !TagsMeet(FlowTagsOf(fs, f), flows)
    ensures TaggedFiles(fs, p + q, flows) == TaggedFiles(fs, p, flows)
  {
    if |q| == 0 {
      assert p + q == p;
    } else {
      var q' := q[..|q| - 1];
      TaggedFilesUnmet(fs, p, q', flows);
      assert (p + q)[..|p + q| - 1] == p + q';
      assert TaggedFiles(fs, p + q', flows) + [] == TaggedFiles(fs, p + q', flows);
    }
  }

  /** When the first two discovered tests are tagged with a changed flow and
      no later one is, exactly those two are selected. */
  lemma FirstTwoSelected(fs: FileSystem, flows: seq<string>)
    requires |AllTestFiles(fs)| >= 2 && AllTestFiles(fs)[0] != AllTestFiles(fs)[1] && |flows| > 0
    requires TagsMeet(FlowTagsOf(fs, AllTestFiles(fs)[0]), flows) && TagsMeet(FlowTagsOf(fs, AllTestFiles(fs)[1]), flows)
    requires forall f :: f in AllTestFiles(fs)[2..] ==> !TagsMeet(FlowTagsOf(fs, f), flows)
    ensures TestsForChangedFlows(fs, flows) == AllTestFiles(fs)[..2]
  {
    var all := AllTestFiles(fs);
    var a, b := all[0], all[1];
    var tests := [a, b];
    assert all == tests + all[2..];
    TaggedFilesUnmet(fs, tests, all[2..], flows);
    assert tests[..1] == [a] && [a][..0] == [];
    assert TaggedFiles(fs, [a], flows) == [] + [a] == [a];
    assert TaggedFiles(fs, tests, flows) == [a] + [b] == tests;
    DedupNoDups(tests);
  }

  /** Cart and checkout come first among team-a's tests. */
  lemma TeamATestFilesStart()
    ensures TeamATestFiles[0] == CartTest && TeamATestFiles[1] == CheckoutTest
    ensures TeamATestFiles[..2] == [CartTest, CheckoutTest]
  {
  }

  /** Changing `core/src/flows/checkoutFlow.ts` selects `cart.test.ts` and
      `checkout.test.ts` and no other test of team-a, whatever the import
      headers (without `/`) of the two, whatever follows their tag lines, and
      whatever the other four tests contain as long as none is tagged
      `checkoutFlow`. */
  lemma CheckoutChangeSelectsCartAndCheckout(cartText: string, h1: nat, checkoutText: string, h2: nat,
                                              others: map<string, string>)
    requires TaggedAfterHeader(cartText, h1, "cartFlow", "checkoutFlow")
    requires TaggedAfterHeader(checkoutText, h2, "checkoutFlow", "paymentFlow")
    requires forall f :: f in others ==> "checkoutFlow" !in FlowTags(others[f])
    ensures TestsForChangedFlows(ExampleRepo(cartText, checkoutText, others),
                                 ChangedFlows(["core/src/flows/checkoutFlow.ts"])) == [CartTest, CheckoutTest]
  {
    var fs := ExampleRepo(cartText, checkoutText, others);
    var flows := ["checkoutFlow"];
    var all := AllTestFiles(fs);
    ExampleDiscovery(fs);
    TeamATestFilesStart();
    CheckoutFlowChanged();
    ExampleTags(cartText, h1, checkoutText, h2, others);
    TwoTagsMeet(FlowTagsOf(fs, CartTest), "cartFlow", "checkoutFlow");
    TwoTagsMeet(FlowTagsOf(fs, CheckoutTest), "checkoutFlow", "paymentFlow");
    OthersUnmet(cartText, checkoutText, others);
    ExamplePathsDiffer();
    FirstTwoSelected(fs, flows);
    assert all[..2] == [CartTest, CheckoutTest];
  }
}
