/** Sequence operations the TypeScript code reaches through Array.prototype:
    `filter`, `find`/`findIndex`, and the first-occurrence de-duplication of
    `Array.from(new Set(xs))`. */
module Seqs {

  datatype Option<+T> = None | Some(value: T)

  /** `a` can be obtained from `b` by deleting elements: order is preserved. */
  ghost predicate IsSubsequence<T>(a: seq<T>, b: seq<T>)
    decreases |b|
  {
    a == [] || (b != [] && ((a[0] == b[0] && IsSubsequence(a[1..], b[1..])) || IsSubsequence(a, b[1..])))
  }

  /** `s.filter(p)` */
  function Filter<T>(s: seq<T>, p: T -> bool): (r: seq<T>)
    ensures |r| <= |s|
    ensures forall i :: 0 <= i < |r| ==> r[i] in s && p(r[i])
    ensures forall i :: 0 <= i < |s| && p(s[i]) ==> s[i] in r
    ensures IsSubsequence(r, s)
  {
    if s == [] then []
    else if p(s[0]) then [s[0]] + Filter(s[1..], p)
    else Filter(s[1..], p)
  }

  /** A filter keeps every occurrence of what it accepts and adds nothing: the kept
      multiset is the input's restricted to the accepted values. */
  lemma FilterMultiset<T>(s: seq<T>, p: T -> bool)
    ensures multiset(Filter(s, p)) <= multiset(s)
    ensures forall i :: 0 <= i < |s| && p(s[i]) ==> multiset(Filter(s, p))[s[i]] == multiset(s)[s[i]]
  {
    FilterSubMultiset(s, p);
    forall i | 0 <= i < |s| && p(s[i]) ensures multiset(Filter(s, p))[s[i]] == multiset(s)[s[i]] {
      FilterKeepsCount(s, p, s[i]);
    }
  }

  lemma {:induction false} FilterSubMultiset<T>(s: seq<T>, p: T -> bool)
    ensures multiset(Filter(s, p)) <= multiset(s)
  {
    if s != [] {
      var t := s[1..];
      FilterSubMultiset(t, p);
      assert s == [s[0]] + t;
      if p(s[0]) {
        assert Filter(s, p) == [s[0]] + Filter(t, p);
      } else {
        assert Filter(s, p) == Filter(t, p);
      }
    }
  }

  lemma {:induction false} FilterKeepsCount<T>(s: seq<T>, p: T -> bool, x: T)
    requires p(x)
    ensures multiset(Filter(s, p))[x] == multiset(s)[x]
  {
    if s != [] {
      var t := s[1..];
      FilterKeepsCount(t, p, x);
      assert s == [s[0]] + t;
      if p(s[0]) {
        assert Filter(s, p) == [s[0]] + Filter(t, p);
      } else {
        assert Filter(s, p) == Filter(t, p);
        assert s[0] != x;
      }
    }
  }

  /** A filter that rejects nothing returns its input. */
  lemma {:induction false} FilterKeepsAll<T>(s: seq<T>, p: T -> bool)
    requires forall i :: 0 <= i < |s| ==> p(s[i])
    ensures Filter(s, p) == s
  {
    if s != [] {
      FilterKeepsAll(s[1..], p);
    }
  }

  /** Filtering a concatenation filters each part. */
  lemma {:induction false} FilterConcat<T>(a: seq<T>, b: seq<T>, p: T -> bool)
    ensures Filter(a + b, p) == Filter(a, p) + Filter(b, p)
  {
    if a != [] {
      var ab := a + b;
      assert ab[1..] == a[1..] + b && ab[0] == a[0];
      FilterConcat(a[1..], b, p);
      if p(a[0]) {
        assert Filter(ab, p) == [a[0]] + Filter(a[1..] + b, p);
        assert Filter(a, p) == [a[0]] + Filter(a[1..], p);
      } else {
        assert Filter(ab, p) == Filter(a[1..] + b, p);
        assert Filter(a, p) == Filter(a[1..], p);
      }
    } else {
      assert a + b == b;
    }
  }

  /** Two successive filters are one filter on the conjunction. */
  lemma {:induction false} FilterFilter<T>(s: seq<T>, p: T -> bool, q: T -> bool, pq: T -> bool)
    requires forall x :: pq(x) == (p(x) && q(x))
    ensures Filter(Filter(s, p), q) == Filter(s, pq)
  {
    if s != [] {
      FilterFilter(s[1..], p, q, pq);
      if p(s[0]) {
        assert Filter(s, p) == [s[0]] + Filter(s[1..], p);
        assert Filter(s, p)[1..] == Filter(s[1..], p);
      }
    }
  }

  /** `s.findIndex(p)`, with None for -1: the index of the first element satisfying `p`. */
  function FindFirst<T>(s: seq<T>, p: T -> bool): (r: Option<nat>)
    ensures r.Some? ==> r.value < |s| && p(s[r.value]) && forall j :: 0 <= j < r.value ==> !p(s[j])
    ensures r.None? ==> forall j :: 0 <= j < |s| ==> !p(s[j])
  {
    if s == [] then None
    else if p(s[0]) then Some(0)
    else match FindFirst(s[1..], p) {
      case Some(i) => Some(i + 1)
      case None => None
    }
  }

  /** The position of the first occurrence of `x` in `s`. */
  function IndexOfFirst<T(==)>(s: seq<T>, x: T): (i: nat)
    requires x in s
    ensures i < |s| && s[i] == x && x !in s[..i]
  {
    if s[0] == x then 0 else 1 + IndexOfFirst(s[1..], x)
  }

  lemma {:induction false} IndexOfFirstInPrefix<T>(s: seq<T>, x: T)
    requires s != [] && x in s[..|s| - 1]
    ensures IndexOfFirst(s, x) == IndexOfFirst(s[..|s| - 1], x)
  {
    if s[0] != x {
      assert s[1..][..|s[1..]| - 1] == s[..|s| - 1][1..];
      IndexOfFirstInPrefix(s[1..], x);
    }
  }

  predicate NoDuplicates<T(==)>(s: seq<T>) {
    forall i, j :: 0 <= i < j < |s| ==> s[i] != s[j]
  }

  /** `Array.from(new Set(s))`: a Set iterates in insertion order, so each value
      appears once, at the place of its first occurrence (see DedupKeepsFirstOccurrenceOrder). */
  function Dedup<T(==)>(s: seq<T>): (r: seq<T>)
    ensures forall i :: 0 <= i < |r| ==> r[i] in s
    ensures forall i :: 0 <= i < |s| ==> s[i] in r
    ensures NoDuplicates(r)
  {
    if s == [] then []
    else
      var d := Dedup(s[..|s| - 1]);
      var x := s[|s| - 1];
      assert forall i :: 0 <= i < |s| - 1 ==> s[i] == s[..|s| - 1][i];
      if x in d then d else d + [x]
  }

  /** Appending elements only appends to the de-duplicated list: what is kept of a
      prefix stays in front, in the same order. */
  lemma {:induction false} DedupExtends<T>(a: seq<T>, b: seq<T>)
    ensures |Dedup(a)| <= |Dedup(a + b)| && Dedup(a + b)[..|Dedup(a)|] == Dedup(a)
    decreases |b|
  {
    if b != [] {
      var s := a + b;
      var b' := b[..|b| - 1];
      assert s[..|s| - 1] == a + b';
      DedupExtends(a, b');
    } else {
      assert a + b == a;
    }
  }

  /** The survivors of Dedup are listed in the order of their first occurrences. */
  lemma {:induction false} DedupKeepsFirstOccurrenceOrder<T>(s: seq<T>)
    ensures forall i, j :: 0 <= i < j < |Dedup(s)| ==> IndexOfFirst(s, Dedup(s)[i]) < IndexOfFirst(s, Dedup(s)[j])
  {
    if s != [] {
      var p := s[..|s| - 1];
      var x := s[|s| - 1];
      var d := Dedup(p);
      DedupKeepsFirstOccurrenceOrder(p);
      forall i | 0 <= i < |d| ensures IndexOfFirst(s, d[i]) == IndexOfFirst(p, d[i]) < |s| - 1 {
        IndexOfFirstInPrefix(s, d[i]);
      }
      if x !in d {
        assert x !in p;
        assert IndexOfFirst(s, x) == |s| - 1;
      }
    }
  }

  /** A slice of a slice is a slice of the whole. */
  lemma SliceOfSlice<T>(s: seq<T>, i: nat, j: nat, a: nat, b: nat)
    requires i <= j <= |s| && a <= b <= j - i
    ensures s[i..j][a..b] == s[i + a..i + b]
  {
    forall n | 0 <= n < b - a ensures s[i..j][a..b][n] == s[i + a..i + b][n] {
      assert s[i..j][a..b][n] == s[i..j][a + n] == s[i + a + n];
    }
  }
}
