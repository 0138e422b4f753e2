/** `getChangedFiles` (scripts/testUtils.js): the lines of the output of
    `git diff --name-only HEAD~1 HEAD` that name a file. The diff command
    itself is an input: `Some(output)` when it ran, `None` when it threw. */
module ChangedFiles {
  import opened Wrappers
  import opened JsStrings
  import opened Seqs

  /** A line names a file unless its trimmed form is empty or the `~` marker
      git prints for an oversized diff. */
  predicate IsFileLine(line: string) {
    var t := Trim(line);
    t != "" && t != "~"
  }

  /** `lines.filter(IsFileLine)`: the lines are kept as they are, not trimmed. */
  function FileLines(lines: seq<string>): seq<string> {
    if |lines| == 0 then []
    else if IsFileLine(lines[|lines| - 1]) then FileLines(lines[..|lines| - 1]) + [lines[|lines| - 1]]
    else FileLines(lines[..|lines| - 1])
  }

  /** The changed-file list for a diff outcome. */
  function GetChangedFiles(diff: Option<string>): (r: seq<string>)
    ensures diff.None? ==> r == []
  {
    match diff
    case None => []
    case Some(output) => FileLines(Split(output, '\n'))
  }

  /** The filter keeps exactly the file lines, untrimmed, each as often as it
      occurs, and in their order. */
  lemma {:induction false} FileLinesExactly(lines: seq<string>)
    ensures forall f :: f in FileLines(lines) ==> IsFileLine(f)
    ensures forall l :: l in lines && IsFileLine(l) ==> l in FileLines(lines)
    ensures forall f :: f in FileLines(lines) ==> f in lines
    ensures forall x :: multiset(FileLines(lines))[x] == if IsFileLine(x) then multiset(lines)[x] else 0
    ensures IsSubseq(FileLines(lines), lines)
  {
    if |lines| > 0 {
      var init := lines[..|lines| - 1];
      var last := lines[|lines| - 1];
      FileLinesExactly(init);
      assert lines == init + [last];
      assert multiset(lines) == multiset(init) + multiset{last};
      if IsFileLine(last) {
        SubseqAppend(FileLines(init), init, last);
      } else {
        SubseqAppendRight(FileLines(init), init, last);
      }
    }
  }

  /** Every entry of the changed-file list is one untrimmed line of the diff
      output whose trimmed form is neither empty nor `~`; every such line is
      listed, as many times as it occurs; the list follows the output's line
      order. */
  lemma ChangedFilesAreFileLines(output: string)
    ensures forall f :: f in GetChangedFiles(Some(output)) ==>
      IsFileLine(f) && '\n' !in f && f in Split(output, '\n')
    ensures forall l :: l in Split(output, '\n') && IsFileLine(l) ==> l in GetChangedFiles(Some(output))
    ensures forall x ::
      multiset(GetChangedFiles(Some(output)))[x] == if IsFileLine(x) then multiset(Split(output, '\n'))[x] else 0
    ensures IsSubseq(GetChangedFiles(Some(output)), Split(output, '\n'))
  {
    FileLinesExactly(Split(output, '\n'));
  }
}
