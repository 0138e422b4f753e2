/** The JavaScript string and path primitives the runner scripts rely on:
    `trim`, `split('\n')`, `join`, `startsWith`, `endsWith`, `includes`,
    `indexOf`, `replace` with a string pattern (first occurrence only),
    `path.join` and `path.basename`. */
module JsStrings {
  import opened Wrappers

  /** The characters ECMAScript calls WhiteSpace or LineTerminator: exactly
      those that `String.prototype.trim` removes and that `\s` matches. */
  const WhiteSpace: set<char> := {
    '\t', '\n', '\U{B}', '\U{C}', '\r', ' ', '\U{A0}', '\U{1680}',
    '\U{2000}', '\U{2001}', '\U{2002}', '\U{2003}', '\U{2004}', '\U{2005}',
    '\U{2006}', '\U{2007}', '\U{2008}', '\U{2009}', '\U{200A}',
    '\U{2028}', '\U{2029}', '\U{202F}', '\U{205F}', '\U{3000}', '\U{FEFF}'
  }

  predicate IsSpace(c: char) {
    c in WhiteSpace
  }

  /** The characters `\w` matches (no `u` or `i` flag): `[A-Za-z0-9_]`. */
  predicate IsWordChar(c: char) {
    ('a' <= c <= 'z') || ('A' <= c <= 'Z') || ('0' <= c <= '9') || c == '_'
  }

  /** Leading white space removed: a suffix of `s`, everything cut off is white space. */
  function TrimStart(s: string): (r: string)
    ensures |r| <= |s| && r == s[|s| - |r|..]
    ensures forall i :: 0 <= i < |s| - |r| ==> IsSpace(s[i])
    ensures r != [] ==> !IsSpace(r[0])
  {
    if |s| > 0 && IsSpace(s[0]) then TrimStart(s[1..]) else s
  }

  /** Trailing white space removed: a prefix of `s`, everything cut off is white space. */
  function TrimEnd(s: string): (r: string)
    ensures |r| <= |s| && r == s[..|r|]
    ensures forall i :: |r| <= i < |s| ==> IsSpace(s[i])
    ensures r != [] ==> !IsSpace(r[|r| - 1])
  {
    if |s| > 0 && IsSpace(s[|s| - 1]) then TrimEnd(s[..|s| - 1]) else s
  }

  /** `s.trim()`. */
  function Trim(s: string): string {
    TrimEnd(TrimStart(s))
  }

  /** `s.trim()` is a contiguous slice of `s` that neither starts nor ends
      with white space, and only white space lies outside it. */
  lemma TrimIsCoreSlice(s: string)
    ensures exists i, j {:trigger s[i..j]} ::
              (&& 0 <= i <= j <= |s| && Trim(s) == s[i..j]
               && (forall k :: 0 <= k < i ==> IsSpace(s[k]))
               && (forall k :: j <= k < |s| ==> IsSpace(s[k])))
    ensures Trim(s) != [] ==> !IsSpace(Trim(s)[0]) && !IsSpace(Trim(s)[|Trim(s)| - 1])
  {
    var t := TrimStart(s);
    var i := |s| - |t|;
    var j := i + |TrimEnd(t)|;
    assert Trim(s) == s[i..j];
  }

  /** `s.trim() === ''` exactly when every character of `s` is white space. */
  lemma TrimEmptyIffAllSpace(s: string)
    ensures Trim(s) == [] <==> forall k :: 0 <= k < |s| ==> IsSpace(s[k])
  {
  }

  /** `s.split(sep)` for a one-character separator: never empty, no piece holds `sep`. */
  function Split(s: string, sep: char): (r: seq<string>)
    ensures |r| >= 1
    ensures forall k :: 0 <= k < |r| ==> sep !in r[k]
  {
    if s == [] then [""]
    else
      var rest := Split(s[1..], sep);
      if s[0] == sep then [""] + rest else [[s[0]] + rest[0]] + rest[1..]
  }

  /** `parts.join(sep)`; `[].join(sep)` is the empty string. */
  function Join(parts: seq<string>, sep: char): string {
    if |parts| == 0 then ""
    else if |parts| == 1 then parts[0]
    else parts[0] + [sep] + Join(parts[1..], sep)
  }

  /** Joining the pieces of a split gives back the original string. */
  lemma {:induction false} JoinSplit(s: string, sep: char)
    ensures Join(Split(s, sep), sep) == s
  {
    if s != [] {
      var rest := Split(s[1..], sep);
      JoinSplit(s[1..], sep);
      if s[0] == sep {
        assert Split(s, sep) == [""] + rest;
        assert Join([""] + rest, sep) == "" + [sep] + Join(rest, sep);
      } else {
        var head := [s[0]] + rest[0];
        assert Split(s, sep) == [head] + rest[1..];
        JoinConsHead(s[0], rest, sep);
      }
    }
  }

  /** Prepending a character to the first piece prepends it to the joined string. */
  lemma JoinConsHead(c: char, parts: seq<string>, sep: char)
    requires |parts| >= 1
    ensures Join([[c] + parts[0]] + parts[1..], sep) == [c] + Join(parts, sep)
  {
    var ps := [[c] + parts[0]] + parts[1..];
    if |parts| > 1 {
      assert ps[1..] == parts[1..];
    }
  }

  /** Splitting a join of separator-free pieces gives back the pieces. */
  lemma {:induction false} SplitJoin(parts: seq<string>, sep: char)
    requires |parts| >= 1
    requires forall k :: 0 <= k < |parts| ==> sep !in parts[k]
    ensures Split(Join(parts, sep), sep) == parts
  {
    if |parts| == 1 {
      SplitNoSep(parts[0], sep);
    } else {
      SplitJoin(parts[1..], sep);
      SplitPrefix(parts[0], Join(parts[1..], sep), sep);
      assert [parts[0]] + parts[1..] == parts;
    }
  }

  /** A string without the separator splits into itself alone. */
  lemma {:induction false} SplitNoSep(s: string, sep: char)
    requires sep !in s
    ensures Split(s, sep) == [s]
  {
    if s != [] {
      SplitNoSep(s[1..], sep);
      assert [s[0]] + s[1..] == s;
    }
  }

  /** A separator-free prefix followed by the separator becomes the first piece. */
  lemma {:induction false} SplitPrefix(p: string, rest: string, sep: char)
    requires sep !in p
    ensures Split(p + [sep] + rest, sep) == [p] + Split(rest, sep)
  {
    if p == [] {
      assert p + [sep] + rest == [sep] + rest;
      assert ([sep] + rest)[1..] == rest;
    } else {
      var s := p + [sep] + rest;
      assert s[1..] == p[1..] + [sep] + rest;
      SplitPrefix(p[1..], rest, sep);
      assert [p[0]] + p[1..] == p;
    }
  }

  /** `s.endsWith(suffix)`; `s.startsWith(prefix)` is Dafny's `prefix <= s`. */
  predicate EndsWith(s: string, suffix: string) {
    |suffix| <= |s| && s[|s| - |suffix|..] == suffix
  }

  /** `p` occurs in `s` starting at index `i`. */
  predicate OccursAt(s: string, p: string, i: int) {
    0 <= i && i + |p| <= |s| && s[i..i + |p|] == p
  }

  /** `s.indexOf(p, from)`, with `None` for -1: the first index at or after `from` where `p` occurs. */
  function IndexOfFrom(s: string, p: string, from: nat): (r: Option<nat>)
    ensures r.Some? ==> from <= r.value && OccursAt(s, p, r.value)
    decreases |s| - from
  {
    if from + |p| > |s| then None
    else if s[from..from + |p|] == p then Some(from)
    else IndexOfFrom(s, p, from + 1)
  }

  /** `indexOf` finds the leftmost occurrence at or after `from`, and reports
      none only when there is none. */
  lemma {:induction false} IndexOfFromLeftmost(s: string, p: string, from: nat)
    ensures var r := IndexOfFrom(s, p, from);
      && (r.Some? ==> forall j :: from <= j < r.value ==> !OccursAt(s, p, j))
      && (r.None? ==> forall j :: from <= j ==> !OccursAt(s, p, j))
    decreases |s| - from
  {
    if from + |p| <= |s| && s[from..from + |p|] != p {
      IndexOfFromLeftmost(s, p, from + 1);
    }
  }

  /** `s.indexOf(p)`. */
  function IndexOf(s: string, p: string): Option<nat> {
    IndexOfFrom(s, p, 0)
  }

  /** `s.includes(p)`. */
  predicate Contains(s: string, p: string) {
    IndexOf(s, p).Some?
  }

  /** `includes` holds exactly when the pattern occurs somewhere. */
  lemma ContainsIffOccurs(s: string, p: string)
    ensures Contains(s, p) <==> exists i :: OccursAt(s, p, i)
  {
    if exists i :: OccursAt(s, p, i) {
      IndexOfFromLeftmost(s, p, 0);
    }
  }

  /** `s.replace(p, rep)` with a string pattern `p` and a replacement without `$`:
      only the FIRST occurrence of `p` is replaced. */
  function ReplaceFirst(s: string, p: string, rep: string): string {
    match IndexOf(s, p)
    case None => s
    case Some(i) => s[..i] + rep + s[i + |p|..]
  }

  /** The replacement happens at the leftmost occurrence and nowhere else;
      without an occurrence the string is unchanged. */
  lemma ReplaceFirstAt(s: string, p: string, rep: string, i: nat)
    requires OccursAt(s, p, i)
    requires forall j :: 0 <= j < i ==> !OccursAt(s, p, j)
    ensures ReplaceFirst(s, p, rep) == s[..i] + rep + s[i + |p|..]
  {
    IndexOfFromLeftmost(s, p, 0);
  }

  /** Replacing a prefix of `s` strips that prefix. */
  lemma ReplaceFirstPrefix(s: string, p: string, rep: string)
    requires p <= s
    ensures ReplaceFirst(s, p, rep) == rep + s[|p|..]
  {
    assert OccursAt(s, p, 0);
    ReplaceFirstAt(s, p, rep, 0);
  }

  /** `ReplaceFirst` is the identity when the pattern does not occur. */
  lemma ReplaceFirstAbsent(s: string, p: string, rep: string)
    requires forall j :: !OccursAt(s, p, j)
    ensures ReplaceFirst(s, p, rep) == s
  {
    IndexOfFromLeftmost(s, p, 0);
  }

  /** `path.join(dir, name)` for a non-empty `name` without separators
      (normalisation of `.`, `..` and doubled slashes is not modelled). */
  function JoinPath(dir: string, name: string): string {
    if dir == "" then name else dir + "/" + name
  }

  /** The part of `p` after its last `/` (all of `p` if it has none). */
  function LastSegment(p: string): (r: string)
    ensures '/' !in r
    ensures |r| <= |p| && r == p[|p| - |r|..]
    ensures |r| < |p| ==> p[|p| - |r| - 1] == '/'
  {
    if |p| == 0 then ""
    else if p[|p| - 1] == '/' then ""
    else LastSegment(p[..|p| - 1]) + [p[|p| - 1]]
  }

  /** Node's POSIX `path.basename(p, ext)` for a path without a trailing `/`:
      the last segment with `ext` cut off its end, unless the segment IS `ext`,
      in which case Node returns the segment whole. */
  function Basename(p: string, ext: string): string {
    var seg := LastSegment(p);
    if EndsWith(seg, ext) && seg != ext then seg[..|seg| - |ext|] else seg
  }

  /** A path ending in `ext` has a basename that, with `ext` put back, is its
      last segment whenever that segment is longer than `ext`. */
  lemma BasenameStripsExtension(p: string, ext: string)
    requires EndsWith(p, ext)
    requires |LastSegment(p)| > |ext|
    ensures Basename(p, ext) + ext == LastSegment(p)
    ensures '/' !in Basename(p, ext)
  {
    var seg := LastSegment(p);
    SuffixOfSuffix(p, seg, ext);
    BasenameOfSegment(p, ext, seg);
    StripSuffix(seg, ext);
  }

  lemma SuffixOfSuffix(p: string, seg: string, ext: string)
    requires |seg| <= |p| && seg == p[|p| - |seg|..]
    requires EndsWith(p, ext) && |ext| < |seg|
    ensures EndsWith(seg, ext) && seg != ext
  {
    assert seg[|seg| - |ext|..] == p[|p| - |ext|..];
  }

  lemma BasenameOfSegment(p: string, ext: string, seg: string)
    requires seg == LastSegment(p) && EndsWith(seg, ext) && seg != ext
    ensures Basename(p, ext) == seg[..|seg| - |ext|]
  {
  }

  lemma StripSuffix(seg: string, ext: string)
    requires EndsWith(seg, ext) && '/' !in seg
    ensures seg[..|seg| - |ext|] + ext == seg
    ensures '/' !in seg[..|seg| - |ext|]
  {
    var n := |seg| - |ext|;
    assert seg[..n] + seg[n..] == seg;
    assert forall k :: 0 <= k < n ==> seg[..n][k] == seg[k];
  }
}
