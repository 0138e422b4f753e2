/** `runTests` (scripts/testUtils.js): the selected tests are grouped by the
    team directory named after `feature-teams/` (or `feature-teams\`), and
    each team is then built and run in turn; an error of one team is logged
    and the loop goes on with the next. */
module TeamRunner {
  import opened Wrappers
  import opened JsStrings
  import opened Seqs
  import opened Discovery

  const TeamsDir := "feature-teams"

  /** The class `[\/\\]` of the team regex. */
  predicate IsSep(c: char) {
    c == '/' || c == '\\'
  }

  /** `feature-teams[\/\\]` followed by at least one character of `[^\/\\]` starts at `i`. */
  predicate TeamMatchAt(s: string, i: nat) {
    && i + 14 < |s|
    && s[i..i + 13] == TeamsDir
    && IsSep(s[i + 13])
    && !IsSep(s[i + 14])
  }

  /** The end of the greedy run of `[^\/\\]` characters starting at `j`. */
  function SegmentEnd(s: string, j: nat): (r: nat)
    requires j <= |s|
    ensures j <= r <= |s|
    ensures forall k :: j <= k < r ==> !IsSep(s[k])
    ensures r == |s| || IsSep(s[r])
    decreases |s| - j
  {
    if j == |s| || IsSep(s[j]) then j else SegmentEnd(s, j + 1)
  }

  /** The leftmost match at or after `from`. */
  function FindTeamFrom(s: string, from: nat): (r: Option<nat>)
    ensures r.Some? ==> from <= r.value && TeamMatchAt(s, r.value)
    ensures r.Some? ==> forall j :: from <= j < r.value ==> !TeamMatchAt(s, j)
    ensures r.None? ==> forall j :: from <= j ==> !TeamMatchAt(s, j)
    decreases |s| - from
  {
    if from + 14 >= |s| then None
    else if TeamMatchAt(s, from) then Some(from)
    else FindTeamFrom(s, from + 1)
  }

  /** `match[1]` of `testPath.match(/feature-teams[\/\\]([^\/\\]+)/)`, or `None`
      where the path does not match. */
  function TeamOf(testPath: string): Option<string> {
    match FindTeamFrom(testPath, 0)
    case None => None
    case Some(i) => Some(testPath[i + 14..SegmentEnd(testPath, i + 14)])
  }

  /** `team` is captured by a match starting at `i`: the directory name, a
      separator, then `team` as a maximal run of non-separators. */
  ghost predicate CapturedAt(s: string, i: nat, team: string) {
    && i + 14 + |team| <= |s|
    && s[i..i + 13] == TeamsDir && IsSep(s[i + 13])
    && |team| > 0 && s[i + 14..i + 14 + |team|] == team
    && (forall k :: 0 <= k < |team| ==> !IsSep(team[k]))
    && (i + 14 + |team| == |s| || IsSep(s[i + 14 + |team|]))
  }

  /** A greedy run ending at a separator or at the end is the run `SegmentEnd` finds. */
  lemma SegmentEndUnique(s: string, j: nat, e: nat)
    requires j <= e <= |s|
    requires forall k :: j <= k < e ==> !IsSep(s[k])
    requires e == |s| || IsSep(s[e])
    ensures SegmentEnd(s, j) == e
  {
  }

  /** The regex semantics: a path has a team iff the pattern matches somewhere,
      and the team is the segment captured at the leftmost match. */
  lemma TeamOfExactly(s: string, team: string)
    ensures TeamOf(s).None? <==> forall i :: 0 <= i < |s| ==> !TeamMatchAt(s, i)
    ensures TeamOf(s) == Some(team) <==>
      exists i: nat :: CapturedAt(s, i, team) && forall j :: 0 <= j < i ==> !TeamMatchAt(s, j)
  {
    if TeamOf(s) == Some(team) {
      TeamOfCaptures(s);
    }
    if exists i: nat :: CapturedAt(s, i, team) && forall j :: 0 <= j < i ==> !TeamMatchAt(s, j) {
      var i: nat :| CapturedAt(s, i, team) && forall j :: 0 <= j < i ==> !TeamMatchAt(s, j);
      CaptureIsTeam(s, i, team);
    }
  }

  lemma TeamOfCaptures(s: string)
    requires TeamOf(s).Some?
    ensures var i := FindTeamFrom(s, 0).value;
      CapturedAt(s, i, TeamOf(s).value) && forall j :: 0 <= j < i ==> !TeamMatchAt(s, j)
  {
  }

  lemma CaptureIsTeam(s: string, i: nat, team: string)
    requires CapturedAt(s, i, team) && forall j :: 0 <= j < i ==> !TeamMatchAt(s, j)
    ensures TeamOf(s) == Some(team)
  {
    assert s[i + 14] == team[0];
    assert TeamMatchAt(s, i);
    assert FindTeamFrom(s, 0) == Some(i);
    SegmentEndUnique(s, i + 14, i + 14 + |team|);
  }

  /** A path that begins with `feature-teams/<team>` where `<team>` is followed
      by a separator or the end belongs to `<team>`. */
  lemma TeamOfPrefixed(team: string, rest: string)
    requires |team| > 0 && forall k :: 0 <= k < |team| ==> !IsSep(team[k])
    requires rest == [] || IsSep(rest[0])
    ensures TeamOf(TeamsDir + "/" + team + rest) == Some(team)
  {
    var s := TeamsDir + "/" + team + rest;
    assert s[..13] == TeamsDir;
    assert s[14..14 + |team|] == team;
    assert TeamMatchAt(s, 0);
    if rest != [] {
      assert s[14 + |team|] == rest[0];
    }
    SegmentEndUnique(s, 14, 14 + |team|);
  }

  /** The example given at scripts/testUtils.js:103:
      `feature-teams/team-a/tests/example.test.ts` belongs to `team-a`. */
  lemma ExampleTeam()
    ensures TeamOf("feature-teams/team-a/tests/example.test.ts") == Some("team-a")
  {
    ExampleTeamPath();
    TeamOfPrefixed("team-a", "/tests/example.test.ts");
  }

  lemma ExampleTeamPath()
    ensures "feature-teams/team-a/tests/example.test.ts" == TeamsDir + "/" + "team-a" + "/tests/example.test.ts"
  {
  }

  /** `testsByTeam`: the teams in insertion order (the order a `Map` iterates)
      and the tests pushed for each. */
  datatype Grouping = Grouping(teams: seq<string>, byTeam: map<string, seq<string>>)

  /** The `Map` after the `forEach` over `tests`. */
  function Group(tests: seq<string>): (r: Grouping)
    ensures forall team :: team in r.teams <==> team in r.byTeam
  {
    if |tests| == 0 then Grouping([], map[])
    else
      var g := Group(tests[..|tests| - 1]);
      var testPath := tests[|tests| - 1];
      match TeamOf(testPath)
      case None => g
      case Some(team) =>
        if team in g.byTeam then Grouping(g.teams, g.byTeam[team := g.byTeam[team] + [testPath]])
        else Grouping(g.teams + [team], g.byTeam[team := [testPath]])
  }

  /** The grouping `forEach`, filling a fresh `Map` of arrays. */
  method GroupTestsByTeam(testsToRun: seq<string>) returns (teams: seq<string>, testsByTeam: map<string, seq<string>>)
    ensures Grouping(teams, testsByTeam) == Group(testsToRun)
  {
    teams, testsByTeam := [], map[];
    for i := 0 to |testsToRun|
      invariant Grouping(teams, testsByTeam) == Group(testsToRun[..i])
    {
      var testPath := testsToRun[i];
      assert testsToRun[..i + 1][..i] == testsToRun[..i];
      var team := TeamOf(testPath);
      if team.Some? {
        if team.value in testsByTeam {
          testsByTeam := testsByTeam[team.value := testsByTeam[team.value] + [testPath]];
        } else {
          teams := teams + [team.value];
          testsByTeam := testsByTeam[team.value := [testPath]];
        }
      }
    }
    assert testsToRun[..|testsToRun|] == testsToRun;
  }

  /** The tests of `team` among `tests`, in input order. */
  function OfTeam(tests: seq<string>, team: string): seq<string> {
    if |tests| == 0 then []
    else if TeamOf(tests[|tests| - 1]) == Some(team) then OfTeam(tests[..|tests| - 1], team) + [tests[|tests| - 1]]
    else OfTeam(tests[..|tests| - 1], team)
  }

  /** The tests that have a team at all, in input order. */
  function Matching(tests: seq<string>): seq<string> {
    if |tests| == 0 then []
    else if TeamOf(tests[|tests| - 1]).Some? then Matching(tests[..|tests| - 1]) + [tests[|tests| - 1]]
    else Matching(tests[..|tests| - 1])
  }

  /** The team of every test that has one, in input order, repeats included. */
  function TeamSeq(tests: seq<string>): seq<string> {
    if |tests| == 0 then []
    else
      var init := TeamSeq(tests[..|tests| - 1]);
      match TeamOf(tests[|tests| - 1])
      case None => init
      case Some(team) => init + [team]
  }

  /** The number of grouped tests, summed over `teams`. */
  function GroupedCount(teams: seq<string>, byTeam: map<string, seq<string>>): nat {
    if |teams| == 0 then 0
    else
      var team := teams[|teams| - 1];
      GroupedCount(teams[..|teams| - 1], byTeam) + if team in byTeam then |byTeam[team]| else 0
  }

  /** Teams appear once each, exactly for the teams some test belongs to, in
      the order in which each team is first met among the tests (the key order
      of a `Map`); each team's list is its tests in input order. */
  lemma GroupExactly(tests: seq<string>)
    ensures NoDups(Group(tests).teams)
    ensures forall team :: team in Group(tests).teams <==> exists t :: t in tests && TeamOf(t) == Some(team)
    ensures Group(tests).teams == Dedup(TeamSeq(tests))
    ensures forall i, j :: 0 <= i < j < |Group(tests).teams| ==>
      FirstIndex(TeamSeq(tests), Group(tests).teams[i]) < FirstIndex(TeamSeq(tests), Group(tests).teams[j])
    ensures forall team :: team in Group(tests).byTeam ==> Group(tests).byTeam[team] == OfTeam(tests, team)
  {
    GroupTeams(tests);
    GroupTeamsInOrder(tests);
    DedupFirstOccurrenceOrder(TeamSeq(tests));
    GroupLists(tests);
  }

  /** The teams of a grouping are the deduplicated sequence of the tests' teams. */
  lemma {:induction false} GroupTeamsInOrder(tests: seq<string>)
    ensures Group(tests).teams == Dedup(TeamSeq(tests))
  {
    if |tests| > 0 {
      var init := tests[..|tests| - 1];
      GroupTeamsInOrder(init);
      match TeamOf(tests[|tests| - 1])
      case None =>
      case Some(team) =>
        DedupSnoc(TeamSeq(init), team);
    }
  }

  lemma {:induction false} GroupTeams(tests: seq<string>)
    ensures NoDups(Group(tests).teams)
    ensures forall team :: team in Group(tests).teams <==> exists t :: t in tests && TeamOf(t) == Some(team)
  {
    if |tests| > 0 {
      var init := tests[..|tests| - 1];
      var testPath := tests[|tests| - 1];
      GroupTeams(init);
      assert tests == init + [testPath];
      var g := Group(init);
      if TeamOf(testPath).Some? && TeamOf(testPath).value !in g.byTeam {
        NoDupsConcat(g.teams, [TeamOf(testPath).value]);
      }
    }
  }

  lemma {:induction false} GroupLists(tests: seq<string>)
    ensures forall team :: team in Group(tests).byTeam ==> Group(tests).byTeam[team] == OfTeam(tests, team)
  {
    if |tests| > 0 {
      var init := tests[..|tests| - 1];
      var testPath := tests[|tests| - 1];
      GroupLists(init);
      GroupTeams(init);
      var g := Group(init);
      if TeamOf(testPath).Some? && TeamOf(testPath).value !in g.byTeam {
        OfTeamEmpty(init, TeamOf(testPath).value);
      }
    }
  }

  /** A team no test belongs to has an empty list. */
  lemma {:induction false} OfTeamEmpty(tests: seq<string>, team: string)
    requires forall t :: t in tests ==> TeamOf(t) != Some(team)
    ensures OfTeam(tests, team) == []
  {
    if |tests| > 0 {
      OfTeamEmpty(tests[..|tests| - 1], team);
    }
  }

  /** The members of a team's list are the tests with that team. */
  lemma {:induction false} OfTeamMembers(tests: seq<string>, team: string)
    ensures forall t :: t in OfTeam(tests, team) <==> t in tests && TeamOf(t) == Some(team)
  {
    if |tests| > 0 {
      OfTeamMembers(tests[..|tests| - 1], team);
      assert tests == tests[..|tests| - 1] + [tests[|tests| - 1]];
    }
  }

  /** Each test with a team lands in the list of exactly that team; a test
      without one is in no list. */
  lemma GroupPlacesEachTestOnce(tests: seq<string>, t: string)
    ensures forall team :: team in Group(tests).byTeam ==>
      (t in Group(tests).byTeam[team] <==> t in tests && TeamOf(t) == Some(team))
    ensures TeamOf(t).None? ==> forall team :: team in Group(tests).byTeam ==> t !in Group(tests).byTeam[team]
  {
    GroupExactly(tests);
    forall team | team in Group(tests).byTeam {
      OfTeamMembers(tests, team);
    }
  }

  /** Adding one test to the list of a team already present adds one to the count. */
  lemma {:induction false} GroupedCountBump(teams: seq<string>, byTeam: map<string, seq<string>>, team: string, t: string)
    requires NoDups(teams) && team in byTeam
    ensures GroupedCount(teams, byTeam[team := byTeam[team] + [t]]) ==
      GroupedCount(teams, byTeam) + if team in teams then 1 else 0
  {
    if |teams| > 0 {
      var init := teams[..|teams| - 1];
      assert NoDups(init) by {
        assert forall i :: 0 <= i < |init| ==> init[i] == teams[i];
      }
      GroupedCountBump(init, byTeam, team, t);
      if teams[|teams| - 1] == team {
        assert team !in init by {
          assert forall i :: 0 <= i < |init| ==> init[i] == teams[i];
        }
      }
    }
  }

  /** Updating a key outside `teams` does not change their count. */
  lemma {:induction false} GroupedCountOther(teams: seq<string>, byTeam: map<string, seq<string>>, team: string, v: seq<string>)
    requires team !in teams
    ensures GroupedCount(teams, byTeam[team := v]) == GroupedCount(teams, byTeam)
  {
    if |teams| > 0 {
      GroupedCountOther(teams[..|teams| - 1], byTeam, team, v);
    }
  }

  /** The grouped total is the number of tests with a team, at most the input length. */
  lemma {:induction false} GroupedTotal(tests: seq<string>)
    ensures GroupedCount(Group(tests).teams, Group(tests).byTeam) == |Matching(tests)|
    ensures |Matching(tests)| <= |tests|
  {
    if |tests| > 0 {
      var init := tests[..|tests| - 1];
      var testPath := tests[|tests| - 1];
      GroupedTotal(init);
      GroupExactly(init);
      var g := Group(init);
      if TeamOf(testPath).Some? {
        var team := TeamOf(testPath).value;
        if team in g.byTeam {
          GroupedCountBump(g.teams, g.byTeam, team, testPath);
        } else {
          GroupedCountOther(g.teams, g.byTeam, team, [testPath]);
          var teams' := g.teams + [team];
          assert teams'[..|teams'| - 1] == g.teams;
        }
      }
    }
  }

  /** `t.replace('.ts', '.js').replace(`feature-teams/${team}/`, 'dist/')`:
      both replace only their first occurrence. */
  function RewritePath(team: string, t: string): string {
    ReplaceFirst(ReplaceFirst(t, ".ts", ".js"), TeamPrefix(team), "dist/")
  }

  /** `feature-teams/<team>/`, the part of a test path that becomes `dist/`. */
  function TeamPrefix(team: string): string {
    TeamsDir + "/" + team + "/"
  }

  /** A discovered test path `<base>feature-teams/<team>/<rest>.ts`, where
      `<base>` is empty or the repository directory followed by `/`, becomes
      `<base>dist/<rest>.js`, provided no other `.ts` comes before the
      extension and `feature-teams/<team>/` does not already start inside
      `<base>`: both replacements act on the first occurrence only. */
  lemma RewriteTestPath(base: string, team: string, rest: string)
    requires !Contains(base + TeamPrefix(team) + rest, ".ts")
    requires forall j :: 0 <= j < |base| ==> !OccursAt(base + TeamPrefix(team), TeamPrefix(team), j)
    ensures RewritePath(team, base + TeamPrefix(team) + rest + ".ts") == base + "dist/" + rest + ".js"
  {
    var x := base + TeamPrefix(team) + rest;
    var t := x + ".ts";
    NoEarlierExtension(x);
    assert t[|x|..] == ".ts";
    assert t[..|x|] == x;
    ReplaceFirstAt(t, ".ts", ".js", |x|);
    assert t[|x| + 3..] == [];
    assert ReplaceFirst(t, ".ts", ".js") == base + TeamPrefix(team) + (rest + ".js");
    ReplaceAfterBase(base, TeamPrefix(team), rest + ".js", "dist/");
    assert base + "dist/" + (rest + ".js") == base + "dist/" + rest + ".js";
  }

  /** Replacing the first occurrence of `p` in `base + p + tail`, when no
      occurrence starts inside `base`, swaps exactly that `p`. */
  lemma ReplaceAfterBase(base: string, p: string, tail: string, rep: string)
    requires forall j :: 0 <= j < |base| ==> !OccursAt(base + p, p, j)
    ensures ReplaceFirst(base + p + tail, p, rep) == base + rep + tail
  {
    var y := base + p + tail;
    forall j | 0 <= j < |base|
      ensures !OccursAt(y, p, j)
    {
      assert !OccursAt(base + p, p, j);
      assert y[..|base| + |p|] == base + p;
      assert y[j..j + |p|] == (base + p)[j..j + |p|];
    }
    assert y[|base|..|base| + |p|] == p;
    ReplaceFirstAt(y, p, rep, |base|);
    assert y[..|base|] == base;
    assert y[|base| + |p|..] == tail;
  }

  /** Appending `.ts` to a string without `.ts` adds no earlier occurrence. */
  lemma NoEarlierExtension(x: string)
    requires !Contains(x, ".ts")
    ensures forall j :: 0 <= j < |x| ==> !OccursAt(x + ".ts", ".ts", j)
  {
    var t := x + ".ts";
    ContainsIffOccurs(x, ".ts");
    forall j | 0 <= j < |x| ensures !OccursAt(t, ".ts", j) {
      if j + 3 <= |x| {
        assert t[j..j + 3] == x[j..j + 3];
        assert !OccursAt(x, ".ts", j);
      } else if j == |x| - 1 {
        assert t[j + 1] == '.';
        assert t[j..j + 3][1] == t[j + 1];
      } else {
        assert t[j + 2] == '.';
        assert t[j..j + 3][2] == t[j + 2];
      }
    }
  }

  /** `npx mocha ${testPaths.join(' ')}`. */
  function MochaCommand(testPaths: seq<string>): string {
    "npx mocha " + Join(testPaths, ' ')
  }

  /** The command that runs a team's tests. */
  function TeamMochaCommand(team: string, tests: seq<string>): string {
    MochaCommand(seq(|tests|, k requires 0 <= k < |tests| => RewritePath(team, tests[k])))
  }

  const BuildCommand := "npm run build"

  /** What `console.log` and `console.error` print. */
  datatype Message =
    | NoneFound(description: string)
    | Found(count: nat, description: string)
    | Running(team: string)
    | TeamFailed(team: string)

  /** An observable effect: a console line, or a command run by `execSync` in a directory. */
  datatype Step = Log(message: Message) | Exec(cwd: string, command: string)

  /** The outcomes of the calls into the operating system: the directories
      `process.chdir` cannot enter, and the commands that exit non-zero when
      run in a given directory. */
  datatype Environment = Environment(missingDirs: set<string>, failing: set<(string, string)>)

  /** The running process: its working directory and everything it has
      printed or executed so far. */
  class Process {
    const env: Environment
    var cwd: string
    var trace: seq<Step>

    constructor (env: Environment, cwd: string)
      ensures this.env == env && this.cwd == cwd && trace == []
    {
      this.env := env;
      this.cwd := cwd;
      trace := [];
    }

    /** `console.log` / `console.error`. */
    method Print(message: Message)
      modifies this
      ensures trace == old(trace) + [Log(message)] && cwd == old(cwd)
    {
      trace := trace + [Log(message)];
    }

    /** `process.chdir(dir)`: `ok` is false where it throws. */
    method ChangeDir(dir: string) returns (ok: bool)
      modifies this
      ensures ok <==> dir !in env.missingDirs
      ensures cwd == (if ok then dir else old(cwd)) && trace == old(trace)
    {
      ok := dir !in env.missingDirs;
      if ok {
        cwd := dir;
      }
    }

    /** `execSync(command)` in the current directory: `ok` is false where it throws. */
    method ExecSync(command: string) returns (ok: bool)
      modifies this
      ensures ok <==> (old(cwd), command) !in env.failing
      ensures trace == old(trace) + [Exec(old(cwd), command)] && cwd == old(cwd)
    {
      ok := (cwd, command) !in env.failing;
      trace := trace + [Exec(cwd, command)];
    }
  }

  /** What one iteration of the team loop prints and runs, and the working
      directory it leaves behind. */
  datatype Outcome = Outcome(steps: seq<Step>, cwd: string)

  /** One team's `try` with `mocha` its test command: enter its directory,
      build, run its tests; the first failure ends the `try` and is reported. */
  function Attempt(env: Environment, cwd: string, teamDir: string, team: string, mocha: string): Outcome {
    var running := [Log(Running(team))];
    var failed := [Log(TeamFailed(team))];
    if teamDir in env.missingDirs then Outcome(running + failed, cwd)
    else
      var build := [Exec(teamDir, BuildCommand)];
      var run := [Exec(teamDir, mocha)];
      Outcome(running + build +
              (if (teamDir, BuildCommand) in env.failing then failed
               else run + if (teamDir, mocha) in env.failing then failed else []),
              teamDir)
  }

  /** `path.join(__dirname, '..', 'feature-teams', team)`. */
  function TeamDir(fs: FileSystem, team: string): string {
    JoinPath(TestRoot(fs), team)
  }

  /** The team fails: its directory cannot be entered, or its build or test run fails there. */
  predicate TeamFails(env: Environment, teamDir: string, mocha: string) {
    || teamDir in env.missingDirs
    || (teamDir, BuildCommand) in env.failing
    || (teamDir, mocha) in env.failing
  }

  /** A `[team, tests]` pair yielded by iterating `testsByTeam`. */
  type TeamEntry = (string, seq<string>)

  /** The pairs of a grouping, in the order a `Map` iterates them. */
  function Entries(g: Grouping): (r: seq<TeamEntry>)
    requires forall team :: team in g.teams ==> team in g.byTeam
    ensures |r| == |g.teams|
    ensures forall k :: 0 <= k < |r| ==> r[k] == (g.teams[k], g.byTeam[g.teams[k]])
  {
    seq(|g.teams|, k requires 0 <= k < |g.teams| => (g.teams[k], g.byTeam[g.teams[k]]))
  }

  /** The teams of `entries`, in order. */
  function TeamsOf(entries: seq<TeamEntry>): seq<string> {
    if |entries| == 0 then [] else TeamsOf(entries[..|entries| - 1]) + [entries[|entries| - 1].0]
  }

  /** The loop `for (const [team, tests] of testsByTeam)` over `entries`. */
  function RunLoop(env: Environment, cwd: string, fs: FileSystem, entries: seq<TeamEntry>): Outcome {
    if |entries| == 0 then Outcome([], cwd)
    else
      var (team, tests) := entries[|entries| - 1];
      var before := RunLoop(env, cwd, fs, entries[..|entries| - 1]);
      var attempt := Attempt(env, before.cwd, TeamDir(fs, team), team, TeamMochaCommand(team, tests));
      Outcome(before.steps + attempt.steps, attempt.cwd)
  }

  /** One iteration of the team loop, with its `try`/`catch`. */
  method RunTeam(proc: Process, fs: FileSystem, team: string, tests: seq<string>)
    modifies proc
    ensures var attempt := Attempt(proc.env, old(proc.cwd), TeamDir(fs, team), team, TeamMochaCommand(team, tests));
      proc.trace == old(proc.trace) + attempt.steps && proc.cwd == attempt.cwd
  {
    proc.Print(Running(team));
    var teamDir := JoinPath(TestRoot(fs), team);
    var ok := proc.ChangeDir(teamDir);
    if ok {
      ok := proc.ExecSync(BuildCommand);
      if ok {
        var testPaths := seq(|tests|, k requires 0 <= k < |tests| => RewritePath(team, tests[k]));
        ok := proc.ExecSync(MochaCommand(testPaths));
      }
    }
    if !ok {
      proc.Print(TeamFailed(team));
    }
  }

  /** `runTests(testsToRun, description)`. */
  method RunTests(proc: Process, fs: FileSystem, testsToRun: seq<string>, description: string)
    modifies proc
    ensures |testsToRun| == 0 ==> proc.trace == old(proc.trace) + [Log(NoneFound(description))] && proc.cwd == old(proc.cwd)
    ensures |testsToRun| != 0 ==>
      var run := RunLoop(proc.env, old(proc.cwd), fs, Entries(Group(testsToRun)));
      proc.trace == old(proc.trace) + [Log(Found(|testsToRun|, description))] + run.steps && proc.cwd == run.cwd
  {
    if |testsToRun| == 0 {
      proc.Print(NoneFound(description));
      return;
    }
    proc.Print(Found(|testsToRun|, description));
    var teams, testsByTeam := GroupTestsByTeam(testsToRun);
    RunTeams(proc, fs, Entries(Grouping(teams, testsByTeam)));
  }

  /** The loop `for (const [team, tests] of testsByTeam)`. */
  method RunTeams(proc: Process, fs: FileSystem, entries: seq<TeamEntry>)
    modifies proc
    ensures var run := RunLoop(proc.env, old(proc.cwd), fs, entries);
      proc.trace == old(proc.trace) + run.steps && proc.cwd == run.cwd
  {
    for i := 0 to |entries|
      invariant proc.trace == old(proc.trace) + RunLoop(proc.env, old(proc.cwd), fs, entries[..i]).steps
      invariant proc.cwd == RunLoop(proc.env, old(proc.cwd), fs, entries[..i]).cwd
    {
      assert entries[..i + 1][..i] == entries[..i];
      var (team, tests) := entries[i];
      RunTeam(proc, fs, team, tests);
    }
    assert entries[..|entries|] == entries;
  }

  /** The teams announced by `Running tests for ...`, in order. */
  function RunningTeams(steps: seq<Step>): seq<string> {
    if |steps| == 0 then []
    else
      var last := steps[|steps| - 1];
      RunningTeams(steps[..|steps| - 1]) + if last.Log? && last.message.Running? then [last.message.team] else []
  }

  /** The teams reported by `Error running tests for ...`, in order. */
  function FailedTeams(steps: seq<Step>): seq<string> {
    if |steps| == 0 then []
    else
      var last := steps[|steps| - 1];
      FailedTeams(steps[..|steps| - 1]) + if last.Log? && last.message.TeamFailed? then [last.message.team] else []
  }

  /** The teams of `entries` that fail. */
  function FailingTeams(fs: FileSystem, env: Environment, entries: seq<TeamEntry>): seq<string> {
    if |entries| == 0 then []
    else
      var (team, tests) := entries[|entries| - 1];
      FailingTeams(fs, env, entries[..|entries| - 1]) +
        if TeamFails(env, TeamDir(fs, team), TeamMochaCommand(team, tests)) then [team] else []
  }

  lemma {:induction false} RunningTeamsConcat(a: seq<Step>, b: seq<Step>)
    ensures RunningTeams(a + b) == RunningTeams(a) + RunningTeams(b)
    ensures FailedTeams(a + b) == FailedTeams(a) + FailedTeams(b)
  {
    if |b| > 0 {
      RunningTeamsConcat(a, b[..|b| - 1]);
      assert (a + b)[..|a + b| - 1] == a + b[..|b| - 1];
    } else {
      assert a + b == a;
    }
  }

  /** One iteration announces its team once and reports it iff it fails. */
  lemma AttemptReports(env: Environment, cwd: string, teamDir: string, team: string, mocha: string)
    ensures RunningTeams(Attempt(env, cwd, teamDir, team, mocha).steps) == [team]
    ensures FailedTeams(Attempt(env, cwd, teamDir, team, mocha).steps) ==
      if TeamFails(env, teamDir, mocha) then [team] else []
  {
    var running := Log(Running(team));
    var failed := Log(TeamFailed(team));
    var build := Exec(teamDir, BuildCommand);
    var run := Exec(teamDir, mocha);
    ShapeStart(team, teamDir);
    if teamDir in env.missingDirs {
      ShapeNext([running], failed);
      assert Attempt(env, cwd, teamDir, team, mocha).steps == [running] + [failed];
    } else if (teamDir, BuildCommand) in env.failing {
      ShapeNext([running, build], failed);
      assert Attempt(env, cwd, teamDir, team, mocha).steps == [running, build] + [failed];
    } else {
      ShapeNext([running, build], run);
      assert [running, build] + [run] == [running, build, run];
      if (teamDir, mocha) in env.failing {
        ShapeNext([running, build, run], failed);
        assert Attempt(env, cwd, teamDir, team, mocha).steps == [running, build, run] + [failed];
      } else {
        assert Attempt(env, cwd, teamDir, team, mocha).steps == [running, build, run];
      }
    }
  }

  lemma ShapeStart(team: string, teamDir: string)
    ensures RunningTeams([Log(Running(team))]) == [team] && FailedTeams([Log(Running(team))]) == []
    ensures RunningTeams([Log(Running(team)), Exec(teamDir, BuildCommand)]) == [team]
    ensures FailedTeams([Log(Running(team)), Exec(teamDir, BuildCommand)]) == []
  {
    OneStep(Log(Running(team)));
    ShapeNext([Log(Running(team))], Exec(teamDir, BuildCommand));
  }

  /** The reports after one more step. */
  lemma ShapeNext(steps: seq<Step>, step: Step)
    ensures RunningTeams(steps + [step]) ==
      RunningTeams(steps) + if step.Log? && step.message.Running? then [step.message.team] else []
    ensures FailedTeams(steps + [step]) ==
      FailedTeams(steps) + if step.Log? && step.message.TeamFailed? then [step.message.team] else []
  {
    assert (steps + [step])[..|steps|] == steps;
  }

  lemma OneStep(step: Step)
    ensures RunningTeams([step]) == if step.Log? && step.message.Running? then [step.message.team] else []
    ensures FailedTeams([step]) == if step.Log? && step.message.TeamFailed? then [step.message.team] else []
  {
    assert [step][..0] == [];
  }

  /** Every team is attempted exactly once, in iteration order, whatever
      failed before it; exactly the failing teams are reported. */
  lemma {:induction false} RunLoopAttemptsEveryTeam(env: Environment, cwd: string, fs: FileSystem, entries: seq<TeamEntry>)
    ensures RunningTeams(RunLoop(env, cwd, fs, entries).steps) == TeamsOf(entries)
    ensures FailedTeams(RunLoop(env, cwd, fs, entries).steps) == FailingTeams(fs, env, entries)
  {
    if |entries| > 0 {
      var (team, tests) := entries[|entries| - 1];
      var before := RunLoop(env, cwd, fs, entries[..|entries| - 1]);
      RunLoopAttemptsEveryTeam(env, cwd, fs, entries[..|entries| - 1]);
      var mocha := TeamMochaCommand(team, tests);
      AttemptReports(env, before.cwd, TeamDir(fs, team), team, mocha);
      RunningTeamsConcat(before.steps, Attempt(env, before.cwd, TeamDir(fs, team), team, mocha).steps);
    }
  }

  /** The directory of the last team among `entries` that could be entered. */
  function LastEntered(fs: FileSystem, env: Environment, entries: seq<TeamEntry>): Option<string> {
    if |entries| == 0 then None
    else
      var dir := TeamDir(fs, entries[|entries| - 1].0);
      if dir !in env.missingDirs then Some(dir) else LastEntered(fs, env, entries[..|entries| - 1])
  }

  /** The working directory is never restored: the loop leaves the process in
      the last team directory it entered, or where it started if it entered none. */
  lemma {:induction false} RunLoopLeavesCwd(env: Environment, cwd: string, fs: FileSystem, entries: seq<TeamEntry>)
    ensures RunLoop(env, cwd, fs, entries).cwd ==
      match LastEntered(fs, env, entries) case Some(dir) => dir case None => cwd
  {
    if |entries| > 0 {
      RunLoopLeavesCwd(env, cwd, fs, entries[..|entries| - 1]);
    }
  }

  /** The teams of a grouping's entries are its teams. */
  lemma {:induction false} TeamsOfEntries(g: Grouping)
    requires forall team :: team in g.teams ==> team in g.byTeam
    ensures TeamsOf(Entries(g)) == g.teams
  {
    var e := Entries(g);
    TeamsOfIndex(e);
  }

  lemma {:induction false} TeamsOfIndex(entries: seq<TeamEntry>)
    ensures |TeamsOf(entries)| == |entries|
    ensures forall k :: 0 <= k < |entries| ==> TeamsOf(entries)[k] == entries[k].0
  {
    if |entries| > 0 {
      TeamsOfIndex(entries[..|entries| - 1]);
    }
  }

  /** The pairs iterated from a grouping name the teams of the tests in the
      order each is first met, each paired with that team's tests in input order. */
  lemma GroupEntries(tests: seq<string>)
    ensures TeamsOf(Entries(Group(tests))) == Dedup(TeamSeq(tests))
    ensures forall k :: 0 <= k < |Entries(Group(tests))| ==>
      Entries(Group(tests))[k].1 == OfTeam(tests, Entries(Group(tests))[k].0)
  {
    TeamsOfEntries(Group(tests));
    GroupExactly(tests);
  }

  /** Running a non-empty selection announces each team of its grouping once,
      in the order each is first met among the tests, and reports exactly its
      failing teams. */
  lemma RunTestsAnnouncesTeams(env: Environment, cwd: string, fs: FileSystem, testsToRun: seq<string>)
    ensures RunningTeams(RunLoop(env, cwd, fs, Entries(Group(testsToRun))).steps) == Group(testsToRun).teams
    ensures RunningTeams(RunLoop(env, cwd, fs, Entries(Group(testsToRun))).steps) == Dedup(TeamSeq(testsToRun))
    ensures FailedTeams(RunLoop(env, cwd, fs, Entries(Group(testsToRun))).steps) ==
      FailingTeams(fs, env, Entries(Group(testsToRun)))
  {
    RunLoopAttemptsEveryTeam(env, cwd, fs, Entries(Group(testsToRun)));
    TeamsOfEntries(Group(testsToRun));
    GroupTeamsInOrder(testsToRun);
  }
}
