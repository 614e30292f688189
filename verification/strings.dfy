/** The JavaScript string operations and regular-expression character classes the
    core relies on, written out as scanners over `seq<char>`. */
module Strings {
  import opened Seqs

  /** A half-open range `[start, end)` of a string: one regular-expression match. */
  datatype Span = Span(start: nat, end: nat)

  /** The characters `.` refuses to match: ECMAScript line terminators. */
  predicate IsLineTerminator(c: char) {
    c == '\n' || c == '\r' || c as int == 0x2028 || c as int == 0x2029
  }

  /** ECMAScript `\s`, which is also the set `String.prototype.trim` removes:
      WhiteSpace (tab, vertical tab, form feed, space, no-break space, the Zs
      separators, byte order mark) and LineTerminator. */
  predicate IsSpace(c: char) {
    var n := c as int;
    n == 0x09 || n == 0x0B || n == 0x0C || n == 0x20 || n == 0xA0 || n == 0x1680
    || (0x2000 <= n <= 0x200A) || n == 0x202F || n == 0x205F || n == 0x3000 || n == 0xFEFF
    || IsLineTerminator(c)
  }

  /** ECMAScript `\w` (without the `u` and `i` flags). */
  predicate IsWordChar(c: char) {
    'a' <= c <= 'z' || 'A' <= c <= 'Z' || '0' <= c <= '9' || c == '_'
  }

  /** `toLowerCase` restricted to ASCII letters. */
  function Lower(c: char): char {
    if 'A' <= c <= 'Z' then (c as int + 32) as char else c
  }

  function LowerStr(s: string): (r: string)
    ensures |r| == |s| && forall i :: 0 <= i < |s| ==> r[i] == Lower(s[i])
  {
    seq(|s|, i requires 0 <= i < |s| => Lower(s[i]))
  }

  predicate StartsWith(s: string, prefix: string) {
    |prefix| <= |s| && s[..|prefix|] == prefix
  }

  predicate EndsWith(s: string, suffix: string) {
    |suffix| <= |s| && s[|s| - |suffix|..] == suffix
  }

  predicate OccursAt(s: string, pat: string, i: nat) {
    i + |pat| <= |s| && s[i..i + |pat|] == pat
  }

  /** `s.includes(pat)` */
  predicate Contains(s: string, pat: string) {
    exists i :: 0 <= i <= |s| && OccursAt(s, pat, i)
  }

  /** `s.indexOf(pat, from)`, with None for -1. */
  function IndexOf(s: string, pat: string, from: nat): (r: Option<nat>)
    decreases |s| - from
    ensures r.Some? ==> from <= r.value && OccursAt(s, pat, r.value)
    ensures r.Some? ==> forall j :: from <= j < r.value ==> !OccursAt(s, pat, j)
    ensures r.None? ==> forall j :: from <= j ==> !OccursAt(s, pat, j)
  {
    if from + |pat| > |s| then None
    else if OccursAt(s, pat, from) then Some(from)
    else IndexOf(s, pat, from + 1)
  }

  /** `indexOf` finds the first occurrence from `from` on. */
  lemma {:induction false} IndexOfAt(s: string, pat: string, from: nat, i: nat)
    requires from <= i && OccursAt(s, pat, i)
    requires forall j :: from <= j < i ==> !OccursAt(s, pat, j)
    ensures IndexOf(s, pat, from) == Some(i)
    decreases i - from
  {
    if from < i {
      IndexOfAt(s, pat, from + 1, i);
    }
  }

  /** The end of the longest run of characters satisfying `p` that starts at `i`
      (the greedy part of `p*`). */
  function SkipWhile(s: string, i: nat, p: char -> bool): (k: nat)
    requires i <= |s|
    decreases |s| - i
    ensures i <= k <= |s|
    ensures forall m :: i <= m < k ==> p(s[m])
    ensures k < |s| ==> !p(s[k])
  {
    if i == |s| || !p(s[i]) then i else SkipWhile(s, i + 1, p)
  }

  /** What `.*` matches at the start of `s`: everything up to the first line terminator. */
  function RestOfLine(s: string): (r: string)
    ensures StartsWith(s, r)
    ensures forall c :: c in r ==> !IsLineTerminator(c)
    ensures |r| < |s| ==> IsLineTerminator(s[|r|])
  {
    s[..SkipWhile(s, 0, c => !IsLineTerminator(c))]
  }

  predicate IsTrimmed(s: string) {
    s == [] || (!IsSpace(s[0]) && !IsSpace(s[|s| - 1]))
  }

  function TrimEnd(s: string): (r: string)
    ensures StartsWith(s, r)
    ensures r == [] || !IsSpace(r[|r| - 1])
    ensures forall m :: |r| <= m < |s| ==> IsSpace(s[m])
  {
    if s != [] && IsSpace(s[|s| - 1]) then TrimEnd(s[..|s| - 1]) else s
  }

  /** `s.trim()`: `s` without its leading and trailing whitespace. */
  function Trim(s: string): (r: string)
    ensures IsTrimmed(r)
    ensures var a := SkipWhile(s, 0, IsSpace);
      a + |r| <= |s| && r == s[a..a + |r|] && forall m :: a + |r| <= m < |s| ==> IsSpace(s[m])
  {
    var a := SkipWhile(s, 0, IsSpace);
    var r := TrimEnd(s[a..]);
    assert r == s[a..][..|r|] == s[a..a + |r|];
    r
  }

  /** Trimming a string that is already trimmed changes nothing. */
  lemma TrimTrimmed(s: string)
    requires IsTrimmed(s)
    ensures Trim(s) == s
  {
    assert s != [] ==> SkipWhile(s, 0, IsSpace) == 0;
  }

  /** Trimming removes whitespace only: a trimmed string preceded by whitespace trims back to itself. */
  lemma {:induction false} TrimAfterSpaces(pre: string, t: string)
    requires forall c :: c in pre ==> IsSpace(c)
    requires IsTrimmed(t)
    ensures Trim(pre + t) == t
  {
    var s := pre + t;
    var a := SkipWhile(s, 0, IsSpace);
    forall m | 0 <= m < |pre| ensures IsSpace(s[m]) {
      assert s[m] == pre[m] && pre[m] in pre;
    }
    if |pre| < |s| {
      assert s[|pre|] == t[0];
    }
    assert a == |pre|;
    assert s[a..] == t;
    TrimTrimmed(t);
  }

  /** Trailing whitespace after a trimmed end is all that `TrimEnd` removes. */
  lemma {:induction false} TrimEndSpaces(t: string, post: string)
    requires t == [] || !IsSpace(t[|t| - 1])
    requires forall c :: c in post ==> IsSpace(c)
    ensures TrimEnd(t + post) == t
    decreases |post|
  {
    if post == [] {
      assert t + post == t;
    } else {
      var s := t + post;
      assert s[|s| - 1] == post[|post| - 1] && post[|post| - 1] in post;
      assert s[..|s| - 1] == t + post[..|post| - 1];
      TrimEndSpaces(t, post[..|post| - 1]);
    }
  }

  /** Trimming removes exactly the whitespace around a non-empty trimmed text. */
  lemma TrimAround(pre: string, t: string, post: string)
    requires forall c :: c in pre ==> IsSpace(c)
    requires forall c :: c in post ==> IsSpace(c)
    requires t != [] && IsTrimmed(t)
    ensures Trim(pre + t + post) == t
  {
    var s := pre + t + post;
    forall m | 0 <= m < |pre| ensures IsSpace(s[m]) {
      assert s[m] == pre[m] && pre[m] in pre;
    }
    assert s[|pre|] == t[0];
    SkipWhileAt(s, 0, |pre|, IsSpace);
    assert s[|pre|..] == t + post;
    TrimEndSpaces(t, post);
  }

  /** `s.trim()` is empty exactly when `s` is all whitespace. */
  lemma TrimEmpty(s: string)
    ensures Trim(s) == [] <==> forall c :: c in s ==> IsSpace(c)
  {
    var a := SkipWhile(s, 0, IsSpace);
    if Trim(s) == [] {
      forall c | c in s ensures IsSpace(c) {
        var m :| 0 <= m < |s| && s[m] == c;
        if m >= a { assert a + |Trim(s)| <= m; }
      }
    } else {
      assert Trim(s)[0] in s;
    }
  }

  /** `s.replace(/[cs]/g, '')`: every character of `cs` removed. */
  function RemoveChars(s: string, cs: string): (r: string)
    ensures forall c :: c in r ==> c in s && c !in cs
  {
    Filter(s, c => c !in cs)
  }

  /** `s.split(sep)` for a one-character string separator: the pieces between
      the separators, at least one piece, empty pieces kept. */
  function SplitOn(s: string, sep: char): (r: seq<string>)
    ensures |r| >= 1
    ensures forall k :: 0 <= k < |r| ==> sep !in r[k]
    ensures StartsWith(s, r[0])
    ensures |r| == 1 <==> sep !in s
    ensures |r| == 1 ==> r[0] == s
    ensures |r| > 1 ==> s[|r[0]|] == sep
  {
    if s == [] then [[]]
    else
      var rest := SplitOn(s[1..], sep);
      if s[0] == sep then [[]] + rest
      else [[s[0]] + rest[0]] + rest[1..]
  }

  /** The number of occurrences of `x` in `s`. */
  function CountOf(s: string, x: char): (n: nat)
    ensures n <= |s|
    ensures n == 0 <==> x !in s
  {
    if s == [] then 0 else (if s[0] == x then 1 else 0) + CountOf(s[1..], x)
  }

  /** Splitting on a separator yields one piece more than there are separators. */
  lemma {:induction false} SplitOnCount(s: string, sep: char)
    ensures |SplitOn(s, sep)| == CountOf(s, sep) + 1
  {
    if s != [] {
      SplitOnCount(s[1..], sep);
    }
  }

  /** A string without the separator is its own single piece. */
  lemma SplitOnNoSeparator(s: string, sep: char)
    requires sep !in s
    ensures SplitOn(s, sep) == [s]
  {
    JoinSplitOn(s, sep);
  }

  /** The first piece is everything before the first separator. */
  lemma {:induction false} SplitOnFirst(a: string, tail: string, sep: char)
    requires sep !in a && (tail == [] || tail[0] == sep)
    ensures SplitOn(a + tail, sep)[0] == a
  {
    if a == [] {
      if tail != [] {
        assert SplitOn(tail, sep) == [[]] + SplitOn(tail[1..], sep);
      }
    } else {
      SplitOnFirst(a[1..], tail, sep);
      assert (a + tail)[1..] == a[1..] + tail;
    }
  }

  /** A leading character other than the separator joins the first piece. */
  lemma SplitOnLeading(c: char, s: string, sep: char)
    requires c != sep
    ensures var r, t := SplitOn([c] + s, sep), SplitOn(s, sep);
      |r| == |t| && r[0] == [c] + t[0] && forall j :: 1 <= j < |t| ==> r[j] == t[j]
  {
    assert ([c] + s)[1..] == s;
  }

  /** A separator after a separator-free prefix ends the first piece; the rest splits on its own. */
  lemma {:induction false} SplitOnAfterFirst(a: string, rest: string, sep: char)
    requires sep !in a
    ensures SplitOn(a + [sep] + rest, sep) == [a] + SplitOn(rest, sep)
  {
    if a == [] {
      assert ([sep] + rest)[1..] == rest;
    } else {
      SplitOnAfterFirst(a[1..], rest, sep);
      var s := a + [sep] + rest;
      assert s[0] == a[0] && a[0] != sep;
      assert s[1..] == a[1..] + [sep] + rest;
      var r := SplitOn(s[1..], sep);
      assert r == [a[1..]] + SplitOn(rest, sep);
      assert r[0] == a[1..] && r[1..] == SplitOn(rest, sep);
      assert [a[0]] + a[1..] == a;
    }
  }

  /** `parts.join(sep)` */
  function JoinWith(parts: seq<string>, sep: string): string {
    if parts == [] then []
    else if |parts| == 1 then parts[0]
    else parts[0] + sep + JoinWith(parts[1..], sep)
  }

  /** Joining the pieces of a split with the separator gives the original string back. */
  lemma {:induction false} JoinSplitOn(s: string, sep: char)
    ensures JoinWith(SplitOn(s, sep), [sep]) == s
  {
    if s != [] {
      var rest := SplitOn(s[1..], sep);
      JoinSplitOn(s[1..], sep);
      if s[0] == sep {
        assert SplitOn(s, sep) == [[]] + rest;
        assert (([[]] + rest)[1..]) == rest;
        assert s == [sep] + s[1..];
      } else {
        var r := SplitOn(s, sep);
        assert r == [[s[0]] + rest[0]] + rest[1..];
        if |rest| == 1 {
          assert s == [s[0]] + s[1..];
        } else {
          assert r[1..] == rest[1..];
          assert JoinWith(rest, [sep]) == rest[0] + [sep] + JoinWith(rest[1..], [sep]);
          assert s == [s[0]] + s[1..];
        }
      }
    }
  }

  /** `s.split(/[class]+/)`: the pieces between maximal runs of separator
      characters; a run at either end yields an empty piece there. */
  function SplitRuns(s: string, sep: char -> bool): (r: seq<string>)
    decreases |s|
    ensures |r| >= 1
    ensures forall k :: 0 <= k < |r| ==> forall c :: c in r[k] ==> !sep(c)
  {
    var k := SkipWhile(s, 0, c => !sep(c));
    if k == |s| then [s]
    else
      var e := SkipWhile(s, k, sep);
      [s[..k]] + SplitRuns(s[e..], sep)
  }

  /** A string with no separator character is a single piece. */
  lemma SplitRunsNoSeparator(s: string, sep: char -> bool)
    requires forall c :: c in s ==> !sep(c)
    ensures SplitRuns(s, sep) == [s]
  {
    assert SkipWhile(s, 0, c => !sep(c)) == |s|;
  }

  /** A separator-free piece, a run of separators and a rest that does not open with
      a separator: the piece comes first, and the run is consumed whole. */
  lemma SplitRunsCons(w: string, d: string, rest: string, sep: char -> bool)
    requires forall c :: c in w ==> !sep(c)
    requires d != [] && forall c :: c in d ==> sep(c)
    requires rest == [] || !sep(rest[0])
    ensures SplitRuns(w + d + rest, sep) == [w] + SplitRuns(rest, sep)
  {
    var s := w + d + rest;
    forall m | 0 <= m < |w| ensures !sep(s[m]) {
      assert s[m] == w[m] && w[m] in w;
    }
    assert s[|w|] == d[0] && d[0] in d;
    SkipWhileAt(s, 0, |w|, c => !sep(c));
    forall m | |w| <= m < |w| + |d| ensures sep(s[m]) {
      assert s[m] == d[m - |w|] && d[m - |w|] in d;
    }
    if rest != [] {
      assert s[|w| + |d|] == rest[0];
    }
    SkipWhileAt(s, |w|, |w| + |d|, sep);
    assert s[..|w|] == w;
    assert s[|w| + |d|..] == rest;
  }

  /** `SkipWhile` stops at the first character from `i` on that fails `p`. */
  lemma {:induction false} SkipWhileAt(s: string, i: nat, k: nat, p: char -> bool)
    requires i <= k <= |s|
    requires forall m :: i <= m < k ==> p(s[m])
    requires k < |s| ==> !p(s[k])
    ensures SkipWhile(s, i, p) == k
    decreases k - i
  {
    if i < k {
      SkipWhileAt(s, i + 1, k, p);
    }
  }

  /** Splitting on runs undoes a join with a separator run: the pieces come back,
      provided none holds a separator and only the first and the last are empty. An
      empty first piece is the empty string `split` reports before a leading run, and
      an empty last piece the one after a trailing run. */
  lemma {:induction false} SplitRunsOfJoin(ws: seq<string>, d: string, sep: char -> bool)
    requires ws != []
    requires d != [] && forall c :: c in d ==> sep(c)
    requires forall k :: 0 <= k < |ws| ==> forall c :: c in ws[k] ==> !sep(c)
    requires forall k :: 0 < k < |ws| - 1 ==> ws[k] != []
    ensures SplitRuns(JoinWith(ws, d), sep) == ws
  {
    if |ws| == 1 {
      SplitRunsNoSeparator(ws[0], sep);
    } else {
      var tail := ws[1..];
      var rest := JoinWith(tail, d);
      assert JoinWith(ws, d) == ws[0] + d + rest;
      if |tail| > 1 {
        assert rest == tail[0] + d + JoinWith(tail[1..], d);
        assert tail[0] == ws[1] && ws[1] != [];
        assert rest[0] == tail[0][0];
      }
      SplitRunsCons(ws[0], d, rest, sep);
      SplitRunsOfJoin(tail, d, sep);
      assert [ws[0]] + tail == ws;
    }
  }

  /** A run at the start of the text gives an empty first piece. */
  lemma SplitRunsLeadingRun(ws: seq<string>, d: string, sep: char -> bool)
    requires ws != [] && ws[0] != []
    requires d != [] && forall c :: c in d ==> sep(c)
    requires forall k :: 0 <= k < |ws| ==> forall c :: c in ws[k] ==> !sep(c)
    requires forall k :: 0 < k < |ws| - 1 ==> ws[k] != []
    ensures SplitRuns(d + JoinWith(ws, d), sep) == [[]] + ws
  {
    var vs := [[]] + ws;
    assert vs[1..] == ws;
    assert JoinWith(vs, d) == [] + d + JoinWith(ws, d);
    assert [] + d + JoinWith(ws, d) == d + JoinWith(ws, d);
    SplitRunsOfJoin(vs, d, sep);
  }

  /** A run at the end of the text gives an empty last piece. */
  lemma SplitRunsTrailingRun(ws: seq<string>, d: string, sep: char -> bool)
    requires ws != [] && ws[|ws| - 1] != []
    requires d != [] && forall c :: c in d ==> sep(c)
    requires forall k :: 0 <= k < |ws| ==> forall c :: c in ws[k] ==> !sep(c)
    requires forall k :: 0 < k < |ws| - 1 ==> ws[k] != []
    ensures SplitRuns(JoinWith(ws, d) + d, sep) == ws + [[]]
  {
    JoinWithEmptyLast(ws, d);
    SplitRunsOfJoin(ws + [[]], d, sep);
  }

  /** Joining with an empty last piece ends the text with the separator. */
  lemma {:induction false} JoinWithEmptyLast(ws: seq<string>, d: string)
    requires ws != []
    ensures JoinWith(ws + [[]], d) == JoinWith(ws, d) + d
  {
    var vs := ws + [[]];
    if |ws| == 1 {
      assert vs[1..] == [[]];
    } else {
      assert vs[1..] == ws[1..] + [[]];
      JoinWithEmptyLast(ws[1..], d);
    }
  }

  /** A property every piece's characters and the separator's have holds of every
      character of the join. */
  lemma {:induction false} JoinWithChars(ws: seq<string>, d: string, ok: char -> bool)
    requires forall c :: c in d ==> ok(c)
    requires forall k :: 0 <= k < |ws| ==> forall c :: c in ws[k] ==> ok(c)
    ensures forall c :: c in JoinWith(ws, d) ==> ok(c)
  {
    if |ws| > 1 {
      JoinWithChars(ws[1..], d, ok);
      assert JoinWith(ws, d) == ws[0] + d + JoinWith(ws[1..], d);
    }
  }

  /** The concatenation of a sequence of strings. */
  function Concat(parts: seq<string>): string {
    if parts == [] then [] else parts[0] + Concat(parts[1..])
  }
}
