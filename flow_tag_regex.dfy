/** The tag regex of `parseFlowTags` (scripts/runFlowTaggedTests.js),
    `/\/\/\s*@flow\s+(\w+)/g`, and the `exec` loop that walks its matches.
    The scanner finds the leftmost match from a position; `TagMatch` states
    what the regex accepts, and `MatchAtIff` ties the two together. */
module TagRegex {
  import opened Wrappers
  import opened JsStrings

  /** The end of the run of `\s` characters starting at `j`. */
  function SkipSpaces(s: string, j: nat): (r: nat)
    requires j <= |s|
    ensures j <= r <= |s|
    decreases |s| - j
  {
    if j == |s| || !IsSpace(s[j]) then j else SkipSpaces(s, j + 1)
  }

  /** The end of the run of `\w` characters starting at `j`. */
  function SkipWord(s: string, j: nat): (r: nat)
    requires j <= |s|
    ensures j <= r <= |s|
    decreases |s| - j
  {
    if j == |s| || !IsWordChar(s[j]) then j else SkipWord(s, j + 1)
  }

  /** `SkipSpaces` stops at the first character that is not white space. */
  lemma {:induction false} SkipSpacesRun(s: string, j: nat)
    requires j <= |s|
    ensures forall k :: j <= k < SkipSpaces(s, j) ==> IsSpace(s[k])
    ensures SkipSpaces(s, j) == |s| || !IsSpace(s[SkipSpaces(s, j)])
    decreases |s| - j
  {
    if j < |s| && IsSpace(s[j]) {
      SkipSpacesRun(s, j + 1);
    }
  }

  /** `SkipWord` stops at the first character that is not a word character. */
  lemma {:induction false} SkipWordRun(s: string, j: nat)
    requires j <= |s|
    ensures forall k :: j <= k < SkipWord(s, j) ==> IsWordChar(s[k])
    ensures SkipWord(s, j) == |s| || !IsWordChar(s[SkipWord(s, j)])
    decreases |s| - j
  {
    if j < |s| && IsWordChar(s[j]) {
      SkipWordRun(s, j + 1);
    }
  }

  /** A maximal run of white space from `j` to `e` is the run `SkipSpaces` finds. */
  lemma {:induction false} SkipSpacesUnique(s: string, j: nat, e: nat)
    requires j <= e <= |s|
    requires forall k :: j <= k < e ==> IsSpace(s[k])
    requires e == |s| || !IsSpace(s[e])
    ensures SkipSpaces(s, j) == e
    decreases e - j
  {
    if j < e {
      SkipSpacesUnique(s, j + 1, e);
    }
  }

  /** A maximal run of word characters from `j` to `e` is the run `SkipWord` finds. */
  lemma {:induction false} SkipWordUnique(s: string, j: nat, e: nat)
    requires j <= e <= |s|
    requires forall k :: j <= k < e ==> IsWordChar(s[k])
    requires e == |s| || !IsWordChar(s[e])
    ensures SkipWord(s, j) == e
    decreases e - j
  {
    if j < e {
      SkipWordUnique(s, j + 1, e);
    }
  }

  /** `//` starts at `i`. */
  predicate CommentAt(s: string, i: nat) {
    i + 2 <= |s| && s[i] == '/' && s[i + 1] == '/'
  }

  /** `@flow` starts at `a`. */
  predicate KeywordAt(s: string, a: nat) {
    a + 5 <= |s| && s[a] == '@' && s[a + 1] == 'f' && s[a + 2] == 'l' && s[a + 3] == 'o' && s[a + 4] == 'w'
  }

  /** A match: where it starts, where its captured tag starts, and where both end. */
  datatype Match = Match(start: nat, tagStart: nat, end: nat)

  /** The match starting exactly at `i`, if any. The `\s*` and `\s+` runs are
      followed by `@` and a word character, neither of them white space, and
      `\w+` is greedy: in each case the maximal run is the only one the regex
      can take. */
  function MatchAt(s: string, i: nat): (r: Option<Match>)
    ensures r.Some? ==> r.value.start == i && i + 8 <= r.value.tagStart < r.value.end <= |s|
  {
    if !CommentAt(s, i) then None
    else
      var a := SkipSpaces(s, i + 2);
      if !KeywordAt(s, a) then None
      else
        var b := SkipSpaces(s, a + 5);
        if b == a + 5 then None
        else
          var c := SkipWord(s, b);
          if c == b then None else Some(Match(i, b, c))
  }

  /** `flowTagRegex.exec(content)` with `lastIndex` at `from`: the leftmost match at or after `from`. */
  function ExecFrom(s: string, from: nat): (r: Option<Match>)
    ensures r.Some? ==> from <= r.value.start && MatchAt(s, r.value.start) == r
    decreases |s| - from
  {
    if from >= |s| then None
    else
      match MatchAt(s, from)
      case Some(m) => Some(m)
      case None => ExecFrom(s, from + 1)
  }

  /** No match starts at or after the end of the text. */
  lemma NoMatchPastEnd(s: string, j: nat)
    requires |s| <= j
    ensures MatchAt(s, j).None?
  {
    assert !CommentAt(s, j);
  }

  /** The match `ExecFrom` returns is the leftmost one, and there is none
      when it returns `None`. */
  lemma {:induction false} ExecFromLeftmost(s: string, from: nat)
    ensures ExecFrom(s, from).Some? ==> forall j :: from <= j < ExecFrom(s, from).value.start ==> MatchAt(s, j).None?
    ensures ExecFrom(s, from).None? ==> forall j :: from <= j ==> MatchAt(s, j).None?
    decreases |s| - from
  {
    if from >= |s| {
      forall j | from <= j ensures MatchAt(s, j).None? {
        NoMatchPastEnd(s, j);
      }
    } else if MatchAt(s, from).None? {
      ExecFromLeftmost(s, from + 1);
      assert ExecFrom(s, from) == ExecFrom(s, from + 1);
    }
  }

  /** The tags of the successive matches from `from` on, each search resuming
      where the previous match ended. */
  function FlowTagsFrom(s: string, from: nat): seq<string>
    decreases |s| - from
  {
    match ExecFrom(s, from)
    case None => []
    case Some(m) => [s[m.tagStart..m.end]] + FlowTagsFrom(s, m.end)
  }

  /** The tags of `content`, in order of occurrence, repeats included. */
  function FlowTags(content: string): seq<string> {
    FlowTagsFrom(content, 0)
  }

  /** The global regex object: `exec` searches from `lastIndex` and moves it
      past the match, or back to 0 when there is none. */
  class FlowTagRegex {
    var lastIndex: nat

    constructor ()
      ensures lastIndex == 0
    {
      lastIndex := 0;
    }

    method Exec(s: string) returns (m: Option<Match>)
      modifies this
      ensures m == ExecFrom(s, old(lastIndex))
      ensures lastIndex == if m.Some? then m.value.end else 0
    {
      m := ExecFrom(s, lastIndex);
      lastIndex := if m.Some? then m.value.end else 0;
    }
  }

  /** The `while ((match = flowTagRegex.exec(content)) !== null)` loop,
      pushing each capture. */
  method ScanFlowTags(content: string) returns (flowTags: seq<string>)
    ensures flowTags == FlowTags(content)
  {
    flowTags := [];
    var flowTagRegex := new FlowTagRegex();
    while true
      invariant flowTagRegex.lastIndex <= |content|
      invariant flowTags + FlowTagsFrom(content, flowTagRegex.lastIndex) == FlowTags(content)
      decreases |content| - flowTagRegex.lastIndex
    {
      ghost var from := flowTagRegex.lastIndex;
      var m := flowTagRegex.Exec(content);
      if m.None? {
        assert FlowTagsFrom(content, from) == [];
        break;
      }
      flowTags := flowTags + [content[m.value.tagStart..m.value.end]];
    }
    assert flowTags + [] == flowTags;
  }

  /** Every character of `s[from..to]` is white space. */
  ghost predicate AllSpace(s: string, from: nat, to: nat) {
    forall k :: from <= k < to && k < |s| ==> IsSpace(s[k])
  }

  /** `s` is a non-empty run of word characters. */
  ghost predicate IsWord(s: string) {
    |s| > 0 && forall k :: 0 <= k < |s| ==> IsWordChar(s[k])
  }

  /** `s` is made of word characters, checked one character at a time. */
  predicate WordChars(s: string) {
    |s| == 0 || (IsWordChar(s[0]) && WordChars(s[1..]))
  }

  /** A non-empty string of word characters is a word. */
  lemma {:induction false} WordCharsIsWord(s: string)
    requires |s| > 0 && WordChars(s)
    ensures IsWord(s)
  {
    if |s| > 1 {
      WordCharsIsWord(s[1..]);
      assert forall k :: 1 <= k < |s| ==> s[k] == s[1..][k - 1];
    }
  }

  /** The regex matches at `i`, with `n1` characters for `\s*`, `n2` for `\s+`,
      and the greedy `\w+` capturing `tag`. */
  ghost predicate TagMatch(s: string, i: nat, n1: nat, n2: nat, tag: string) {
    var a := i + 2 + n1;
    var b := a + 5 + n2;
    var c := b + |tag|;
    && c <= |s|
    && CommentAt(s, i) && AllSpace(s, i + 2, a) && KeywordAt(s, a)
    && n2 > 0 && AllSpace(s, a + 5, b)
    && IsWord(tag) && s[b..c] == tag
    && (c == |s| || !IsWordChar(s[c]))
  }

  /** A word character is not white space. */
  lemma WordNotSpace(c: char)
    requires IsWordChar(c)
    ensures !IsSpace(c)
  {
  }

  /** The scanner agrees with the regex: it finds a match at `i` capturing
      `tag` exactly when the regex matches there with that capture. */
  lemma MatchAtIff(s: string, i: nat, tag: string)
    ensures (MatchAt(s, i).Some? && s[MatchAt(s, i).value.tagStart..MatchAt(s, i).value.end] == tag) <==>
      exists n1: nat, n2: nat :: TagMatch(s, i, n1, n2, tag)
  {
    if MatchAt(s, i).Some? && s[MatchAt(s, i).value.tagStart..MatchAt(s, i).value.end] == tag {
      MatchAtIsTagMatch(s, i, tag);
    }
    if exists n1: nat, n2: nat :: TagMatch(s, i, n1, n2, tag) {
      var n1: nat, n2: nat :| TagMatch(s, i, n1, n2, tag);
      TagMatchIsMatchAt(s, i, n1, n2, tag);
    }
  }

  /** The "only if" half of `MatchAtIff`. */
  lemma MatchAtIsTagMatch(s: string, i: nat, tag: string)
    requires MatchAt(s, i).Some? && s[MatchAt(s, i).value.tagStart..MatchAt(s, i).value.end] == tag
    ensures exists n1: nat, n2: nat :: TagMatch(s, i, n1, n2, tag)
  {
    var r := MatchAt(s, i).value;
    MatchAtSound(s, i);
    var a := SkipSpaces(s, i + 2);
    var n1: nat, n2: nat := a - (i + 2), r.tagStart - (a + 5);
    assert TagMatch(s, i, n1, n2, tag);
  }

  /** The "if" half of `MatchAtIff`. */
  lemma TagMatchIsMatchAt(s: string, i: nat, n1: nat, n2: nat, tag: string)
    requires TagMatch(s, i, n1, n2, tag)
    ensures MatchAt(s, i).Some? && s[MatchAt(s, i).value.tagStart..MatchAt(s, i).value.end] == tag
  {
    MatchAtComplete(s, i, n1, n2, tag);
  }

  /** A match the scanner finds is a match of the regex. */
  lemma MatchAtSound(s: string, i: nat)
    requires MatchAt(s, i).Some?
    ensures var m := MatchAt(s, i).value;
      var a := SkipSpaces(s, i + 2);
      TagMatch(s, i, a - (i + 2), m.tagStart - (a + 5), s[m.tagStart..m.end])
  {
    var a := SkipSpaces(s, i + 2);
    var b := SkipSpaces(s, a + 5);
    var c := SkipWord(s, b);
    assert MatchAt(s, i) == Some(Match(i, b, c));
    SkipSpacesRun(s, i + 2);
    SkipSpacesRun(s, a + 5);
    SkipWordRun(s, b);
    WordSlice(s, b, c);
  }

  /** A slice made of word characters is a word. */
  lemma WordSlice(s: string, b: nat, c: nat)
    requires b < c <= |s|
    requires forall k :: b <= k < c ==> IsWordChar(s[k])
    ensures IsWord(s[b..c])
  {
    var tag := s[b..c];
    forall k | 0 <= k < |tag| ensures IsWordChar(tag[k]) {
      assert tag[k] == s[b + k];
    }
  }

  /** A match of the regex is the match the scanner finds. */
  lemma MatchAtComplete(s: string, i: nat, n1: nat, n2: nat, tag: string)
    requires TagMatch(s, i, n1, n2, tag)
    ensures MatchAt(s, i) == Some(Match(i, i + 7 + n1 + n2, i + 7 + n1 + n2 + |tag|))
  {
    var a := i + 2 + n1;
    var b := a + 5 + n2;
    var c := b + |tag|;
    assert !IsSpace(s[a]);
    SkipSpacesUnique(s, i + 2, a);
    assert s[b] == tag[0];
    WordNotSpace(tag[0]);
    SkipSpacesUnique(s, a + 5, b);
    forall k | b <= k < c ensures IsWordChar(s[k]) {
      assert s[k] == tag[k - b];
    }
    SkipWordUnique(s, b, c);
  }

  /** Content has no tags from `from` on iff no match starts there. */
  lemma FlowTagsNoMatch(s: string, from: nat)
    ensures FlowTagsFrom(s, from) == [] <==> forall j :: from <= j < |s| ==> MatchAt(s, j).None?
  {
    ExecFromLeftmost(s, from);
    if ExecFrom(s, from).Some? {
      assert MatchAt(s, ExecFrom(s, from).value.start).Some?;
    }
  }

  /** Every tag is a non-empty run of word characters. */
  lemma {:induction false} FlowTagsAreWords(s: string, from: nat)
    ensures forall t :: t in FlowTagsFrom(s, from) ==> IsWord(t)
    decreases |s| - from
  {
    match ExecFrom(s, from)
    case None =>
    case Some(m) =>
      FlowTagsAreWords(s, m.end);
      MatchAtSound(s, m.start);
  }

  /** The comment line `// @flow <tag>`. */
  function TagLine(tag: string): string {
    "// @flow " + tag + "\n"
  }

  /** `line` appears in `s` at position `h`. */
  ghost predicate LineAt(s: string, h: nat, line: string) {
    h + |line| <= |s| && s[h..h + |line|] == line
  }

  /** A tag line is the marker `// @flow `, the tag and a line feed. */
  lemma TagLineParts(tag: string)
    ensures |TagLine(tag)| == 10 + |tag|
    ensures var line := TagLine(tag);
      && line[0] == '/' && line[1] == '/' && line[2] == ' '
      && line[3] == '@' && line[4] == 'f' && line[5] == 'l' && line[6] == 'o' && line[7] == 'w'
      && line[8] == ' '
    ensures forall k :: 0 <= k < |tag| ==> TagLine(tag)[9 + k] == tag[k]
    ensures TagLine(tag)[9 + |tag|] == '\n'
  {
  }

  /** A tag line at `h` is the match found at `h`. */
  lemma TagLineMatchAt(s: string, h: nat, tag: string)
    requires IsWord(tag) && LineAt(s, h, TagLine(tag))
    ensures MatchAt(s, h) == Some(Match(h, h + 9, h + 9 + |tag|))
    ensures s[h + 9..h + 9 + |tag|] == tag && s[h + 9 + |tag|] == '\n'
  {
    var line := TagLine(tag);
    var c := h + 9 + |tag|;
    TagLineParts(tag);
    forall k | 0 <= k < |line| ensures s[h + k] == line[k] {
      assert s[h..h + |line|][k] == s[h + k];
    }
    assert s[h + 9..c] == tag by {
      forall k | 0 <= k < |tag| ensures s[h + 9..c][k] == tag[k] {
        assert s[h + 9 + k] == line[9 + k];
      }
    }
    assert s[c] == line[9 + |tag|] == '\n';
    assert TagMatch(s, h, 1, 1, tag);
    MatchAtComplete(s, h, 1, 1, tag);
  }

  /** Searching from a tag line yields its tag, then resumes after the line. */
  lemma TagLineNext(s: string, h: nat, tag: string, next: nat)
    requires IsWord(tag) && LineAt(s, h, TagLine(tag)) && next == h + |TagLine(tag)|
    ensures FlowTagsFrom(s, h) == [tag] + FlowTagsFrom(s, next)
  {
    var c := h + 9 + |tag|;
    TagLineParts(tag);
    assert next == c + 1;
    TagLineMatchAt(s, h, tag);
    assert ExecFrom(s, h) == Some(Match(h, h + 9, c));
    assert FlowTagsFrom(s, h) == [tag] + FlowTagsFrom(s, c);
    assert MatchAt(s, c).None?;
    assert ExecFrom(s, c) == ExecFrom(s, next);
    assert FlowTagsFrom(s, c) == FlowTagsFrom(s, next);
  }

  /** No match starts in a stretch without `/`, so the search skips it. */
  lemma {:induction false} ExecSkipsSlashFree(s: string, k: nat, h: nat)
    requires k <= h <= |s| && '/' !in s[..h]
    ensures ExecFrom(s, k) == ExecFrom(s, h)
    decreases h - k
  {
    if k < h {
      assert s[k] == s[..h][k];
      assert !CommentAt(s, k);
      ExecSkipsSlashFree(s, k + 1, h);
      assert ExecFrom(s, k) == ExecFrom(s, k + 1);
    }
  }

  /** Text without `/` before the tags contributes no tag: the search over an
      import header such as `import { expect } from 'chai';` resumes after it. */
  lemma SlashFreeHeaderSkipped(s: string, h: nat)
    requires h <= |s| && '/' !in s[..h]
    ensures FlowTags(s) == FlowTagsFrom(s, h)
  {
    ExecSkipsSlashFree(s, 0, h);
  }

  /** A slash-free header of length `h` followed by the tag lines of `a`
      (ending at `p`) and `b` (ending at `q`): the two tags come first. */
  lemma HeaderThenTwoTagLines(s: string, h: nat, p: nat, q: nat, a: string, b: string)
    requires IsWord(a) && IsWord(b)
    requires LineAt(s, h, TagLine(a)) && p == h + |TagLine(a)|
    requires LineAt(s, p, TagLine(b)) && q == p + |TagLine(b)|
    requires '/' !in s[..h]
    ensures FlowTags(s) == [a, b] + FlowTagsFrom(s, q)
  {
    SlashFreeHeaderSkipped(s, h);
    TagLineNext(s, h, a, p);
    TagLineNext(s, p, b, q);
    TwoSteps(FlowTags(s), FlowTagsFrom(s, h), FlowTagsFrom(s, p), FlowTagsFrom(s, q), a, b);
  }

  /** Chaining a skipped header and two single-tag steps. */
  lemma TwoSteps(all: seq<string>, fromH: seq<string>, fromP: seq<string>, fromQ: seq<string>, a: string, b: string)
    requires all == fromH && fromH == [a] + fromP && fromP == [b] + fromQ
    ensures all == [a, b] + fromQ
  {
    assert [a] + ([b] + fromQ) == [a, b] + fromQ;
  }

  /** Where the parts of `head + (x + (y + rest))` sit. */
  lemma PartsAt(head: string, x: string, y: string, rest: string)
    ensures var s := head + (x + (y + rest));
      && s[..|head|] == head
      && LineAt(s, |head|, x)
      && LineAt(s, |head| + |x|, y)
  {
    var s := head + (x + (y + rest));
    var h := |head|;
    forall k | 0 <= k < |x| ensures s[h..h + |x|][k] == x[k] {
      assert s[h + k] == (x + (y + rest))[k];
    }
    forall k | 0 <= k < |y| ensures s[h + |x|..h + |x| + |y|][k] == y[k] {
      assert s[h + |x| + k] == (x + (y + rest))[|x| + k] == (y + rest)[k];
    }
  }

  /** Tags are not de-duplicated: a tag line written twice yields its tag twice. */
  lemma RepeatedTagKept(s: string, tag: string, p: nat, q: nat)
    requires IsWord(tag) && LineAt(s, 0, TagLine(tag)) && p == |TagLine(tag)|
    requires LineAt(s, p, TagLine(tag)) && q == 2 * p
    ensures FlowTags(s) == [tag, tag] + FlowTagsFrom(s, q)
  {
    assert s[..0] == [];
    HeaderThenTwoTagLines(s, 0, p, q, tag, tag);
  }
}
