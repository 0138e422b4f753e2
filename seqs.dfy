/** Sequences with set semantics. A JavaScript `Set` filled with `add` and
    read back with `Array.from` keeps each element once, at the position of
    its first insertion: that is `Dedup` of the sequence of insertions. */
module Seqs {

  /** No element occurs twice. */
  ghost predicate NoDups<T>(s: seq<T>) {
    forall i, j :: 0 <= i < j < |s| ==> s[i] != s[j]
  }

  /** `s` with every repeated element dropped after its first occurrence. */
  function Dedup<T(==, !new)>(s: seq<T>): (r: seq<T>)
    ensures NoDups(r)
    ensures forall x :: x in r <==> x in s
  {
    if |s| == 0 then []
    else
      var d := Dedup(s[..|s| - 1]);
      if s[|s| - 1] in d then d else d + [s[|s| - 1]]
  }

  /** `r` can be obtained from `s` by deleting elements: `r` keeps the order of `s`. */
  ghost predicate IsSubseq<T>(r: seq<T>, s: seq<T>) {
    if |r| == 0 then true
    else if |s| == 0 then false
    else if r[|r| - 1] == s[|s| - 1] then IsSubseq(r[..|r| - 1], s[..|s| - 1])
    else IsSubseq(r, s[..|s| - 1])
  }

  /** Dropping the last element of a subsequence keeps it a subsequence. */
  lemma {:induction false} SubseqDropLast<T>(r: seq<T>, s: seq<T>)
    requires |r| > 0 && IsSubseq(r, s)
    ensures IsSubseq(r[..|r| - 1], s)
    decreases |s|, 1
  {
    var r' := r[..|r| - 1];
    if r[|r| - 1] != s[|s| - 1] {
      SubseqDropLast(r, s[..|s| - 1]);
    }
    SubseqExtend(r', s);
  }

  /** A subsequence of a prefix is a subsequence of the whole. */
  lemma {:induction false} SubseqExtend<T>(r: seq<T>, s: seq<T>)
    requires |s| > 0 && IsSubseq(r, s[..|s| - 1])
    ensures IsSubseq(r, s)
    decreases |s|, 0
  {
    if |r| > 0 && r[|r| - 1] == s[|s| - 1] {
      SubseqDropLast(r, s[..|s| - 1]);
    }
  }

  /** Every sequence is a subsequence of itself. */
  lemma {:induction false} SubseqRefl<T>(s: seq<T>)
    ensures IsSubseq(s, s)
  {
    if |s| > 0 {
      SubseqRefl(s[..|s| - 1]);
    }
  }

  /** Appending an element to both sides keeps the subsequence relation. */
  lemma SubseqAppend<T>(r: seq<T>, s: seq<T>, x: T)
    requires IsSubseq(r, s)
    ensures IsSubseq(r + [x], s + [x])
  {
    assert (r + [x])[..|r|] == r;
    assert (s + [x])[..|s|] == s;
  }

  /** Appending an element only to the longer side keeps the subsequence relation. */
  lemma SubseqAppendRight<T>(r: seq<T>, s: seq<T>, x: T)
    requires IsSubseq(r, s)
    ensures IsSubseq(r, s + [x])
  {
    assert (s + [x])[..|s|] == s;
    SubseqExtend(r, s + [x]);
  }

  /** The subsequence relation is transitive. */
  lemma {:induction false} SubseqTrans<T>(a: seq<T>, b: seq<T>, c: seq<T>)
    requires IsSubseq(a, b) && IsSubseq(b, c)
    ensures IsSubseq(a, c)
    decreases |c|
  {
    if |a| > 0 {
      var b' := b[..|b| - 1];
      var c' := c[..|c| - 1];
      if b[|b| - 1] == c[|c| - 1] {
        if a[|a| - 1] == b[|b| - 1] {
          SubseqTrans(a[..|a| - 1], b', c');
        } else {
          SubseqTrans(a, b', c');
          SubseqExtend(a, c);
        }
      } else {
        SubseqTrans(a, b, c');
        SubseqExtend(a, c);
      }
    }
  }

  /** Adding one more element to a `Set`: it is appended unless already present. */
  lemma DedupSnoc<T(!new)>(s: seq<T>, x: T)
    ensures Dedup(s + [x]) == if x in Dedup(s) then Dedup(s) else Dedup(s) + [x]
  {
    assert (s + [x])[..|s|] == s;
  }

  /** `Dedup` keeps the elements in the order of their first occurrence. */
  lemma {:induction false} DedupIsSubseq<T(!new)>(s: seq<T>)
    ensures IsSubseq(Dedup(s), s)
  {
    if |s| > 0 {
      var s' := s[..|s| - 1];
      var x := s[|s| - 1];
      DedupIsSubseq(s');
      assert s' + [x] == s;
      if x in Dedup(s') {
        SubseqAppendRight(Dedup(s'), s', x);
      } else {
        SubseqAppend(Dedup(s'), s', x);
      }
    }
  }

  /** The position of the first occurrence of `x` in `s`. */
  function FirstIndex<T(==)>(s: seq<T>, x: T): (r: nat)
    requires x in s
    ensures r < |s| && s[r] == x
    ensures forall k :: 0 <= k < r ==> s[k] != x
  {
    if s[0] == x then 0 else 1 + FirstIndex(s[1..], x)
  }

  /** An occurrence with none before it is the first one. */
  lemma FirstIndexAt<T>(s: seq<T>, x: T, r: nat)
    requires r < |s| && s[r] == x
    requires forall k :: 0 <= k < r ==> s[k] != x
    ensures FirstIndex(s, x) == r
  {
    var f := FirstIndex(s, x);
    assert !(f < r);
  }

  /** `Dedup` lists the distinct elements of `s` in the order in which they
      first occur in `s`. With `NoDups` and the membership clause of `Dedup`
      this determines `Dedup(s)` completely. */
  lemma {:induction false} DedupFirstOccurrenceOrder<T(!new)>(s: seq<T>)
    ensures forall i, j :: 0 <= i < j < |Dedup(s)| ==>
      FirstIndex(s, Dedup(s)[i]) < FirstIndex(s, Dedup(s)[j])
  {
    if |s| > 0 {
      var s' := s[..|s| - 1];
      var x := s[|s| - 1];
      var d := Dedup(s');
      DedupFirstOccurrenceOrder(s');
      assert s' + [x] == s;
      DedupSnoc(s', x);
      forall y | y in s'
        ensures FirstIndex(s, y) == FirstIndex(s', y)
      {
        FirstIndexAt(s, y, FirstIndex(s', y));
      }
      if x !in d {
        FirstIndexAt(s, x, |s'|);
        assert Dedup(s) == d + [x];
      }
    }
  }

  /** A sequence without duplicates is its own `Dedup`. */
  lemma {:induction false} DedupNoDups<T(!new)>(s: seq<T>)
    requires NoDups(s)
    ensures Dedup(s) == s
  {
    if |s| > 0 {
      DedupNoDups(s[..|s| - 1]);
    }
  }

  /** The elements of `b`, in order, that are not in `a`. */
  function Without<T(==)>(b: seq<T>, a: seq<T>): seq<T> {
    if |b| == 0 then []
    else if b[|b| - 1] in a then Without(b[..|b| - 1], a)
    else Without(b[..|b| - 1], a) + [b[|b| - 1]]
  }

  /** `Dedup` of a concatenation: the first part de-duplicated, then the new
      elements of the second part, each at its first occurrence. */
  lemma {:induction false} DedupConcat<T(!new)>(a: seq<T>, b: seq<T>)
    ensures Dedup(a + b) == Dedup(a) + Dedup(Without(b, a))
  {
    if |b| == 0 {
      assert a + b == a;
    } else {
      var b' := b[..|b| - 1];
      var x := b[|b| - 1];
      DedupConcat(a, b');
      assert b == b' + [x];
      assert a + b == (a + b') + [x];
      DedupSnoc(a + b', x);
      var w := Without(b', a);
      if x in a {
        assert Without(b, a) == w;
      } else {
        assert Without(b, a) == w + [x];
        DedupSnoc(w, x);
        SnocNewChain(Dedup(a + b), Dedup(a + b'), Dedup(a), Dedup(w), Dedup(w + [x]), x);
      }
    }
  }

  /** Appending a new element after `da + dw` is appending it after `dw`. */
  lemma SnocNewChain<T>(whole: seq<T>, d: seq<T>, da: seq<T>, dw: seq<T>, dw': seq<T>, x: T)
    requires d == da + dw && x !in da
    requires whole == if x in d then d else d + [x]
    requires dw' == if x in dw then dw else dw + [x]
    ensures whole == da + dw'
  {
    if x !in dw {
      assert (da + dw) + [x] == da + (dw + [x]);
    }
  }

  /** Elements of `Without(b, a)`: exactly those of `b` not in `a`. */
  lemma {:induction false} WithoutMembers<T(!new)>(b: seq<T>, a: seq<T>)
    ensures forall x :: x in Without(b, a) <==> x in b && x !in a
    ensures NoDups(b) ==> NoDups(Without(b, a))
  {
    if |b| > 0 {
      var b' := b[..|b| - 1];
      WithoutMembers(b', a);
      assert b == b' + [b[|b| - 1]];
    }
  }

  /** Appends at the end preserve the absence of duplicates. */
  lemma NoDupsConcat<T>(a: seq<T>, b: seq<T>)
    requires NoDups(a) && NoDups(b)
    requires forall x :: x in b ==> x !in a
    ensures NoDups(a + b)
  {
    forall i, j | 0 <= i < j < |a + b| ensures (a + b)[i] != (a + b)[j] {
      if j < |a| {
        assert (a + b)[i] == a[i] && (a + b)[j] == a[j];
      } else if i < |a| {
        assert (a + b)[i] == a[i] && (a + b)[j] == b[j - |a|] && b[j - |a|] in b;
      } else {
        assert (a + b)[i] == b[i - |a|] && (a + b)[j] == b[j - |a|];
      }
    }
  }
}
