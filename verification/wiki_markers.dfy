/** The scanner for the wiki-link marker regular expression `\[\[(.*?)\]\]`, used
    with the global flag both by the graph (`content.match`) and by the note card
    (`text.split`). A match starts with "[[", its interior is the shortest run of
    characters other than line terminators that is followed by "]]", and a global
    scan resumes right after the previous match. */
module WikiMarkers {
  import opened Seqs
  import opened Strings

  predicate IsOpen(s: string, i: nat) {
    i + 1 < |s| && s[i] == '[' && s[i + 1] == '['
  }

  predicate IsClose(s: string, i: nat) {
    i + 1 < |s| && s[i] == ']' && s[i + 1] == ']'
  }

  /** The character at `m` may stand inside a match: it is no line terminator and
      no "]]" starts there. */
  predicate InsideChar(s: string, m: nat) {
    m < |s| && !IsLineTerminator(s[m]) && !IsClose(s, m)
  }

  /** Where the lazy `(.*?)\]\]` starting at `j` stops: the first "]]" at or after
      `j`, provided no line terminator comes before it. */
  function CloseFrom(s: string, j: nat): (r: Option<nat>)
    decreases |s| - j
    ensures r.Some? ==> j <= r.value && IsClose(s, r.value)
    ensures r.Some? ==> forall m :: j <= m < r.value ==> InsideChar(s, m)
  {
    if j + 1 >= |s| then None
    else if IsClose(s, j) then Some(j)
    else if IsLineTerminator(s[j]) then None
    else CloseFrom(s, j + 1)
  }

  /** When the lazy interior fails, every later "]]" lies beyond a line terminator. */
  lemma {:induction false} NoCloseMeansLineBreak(s: string, j: nat, k: nat)
    requires CloseFrom(s, j).None?
    requires j <= k && IsClose(s, k)
    ensures exists m :: j <= m < k && IsLineTerminator(s[m])
    decreases |s| - j
  {
    if !IsLineTerminator(s[j]) {
      assert !IsClose(s, j);
      NoCloseMeansLineBreak(s, j + 1, k);
    }
  }

  /** The end (exclusive) of the marker match anchored at `i`, if there is one. */
  function MarkerAt(s: string, i: nat): (r: Option<nat>)
    ensures r.Some? ==> i + 4 <= r.value <= |s| && IsOpen(s, i) && IsClose(s, r.value - 2)
    ensures r.Some? ==> forall m :: i + 2 <= m < r.value - 2 ==> InsideChar(s, m)
  {
    if IsOpen(s, i) then
      match CloseFrom(s, i + 2) {
        case Some(k) => Some(k + 2)
        case None => None
      }
    else None
  }

  /** All matches of the global scan that starts at `from`, left to right. */
  function Spans(s: string, from: nat): (r: seq<Span>)
    decreases |s| - from
    ensures forall k :: 0 <= k < |r| ==> from <= r[k].start && MarkerAt(s, r[k].start) == Some(r[k].end)
    ensures forall k :: 0 < k < |r| ==> r[k - 1].end <= r[k].start
  {
    if from >= |s| then []
    else match MarkerAt(s, from) {
      case Some(e) => [Span(from, e)] + Spans(s, e)
      case None => Spans(s, from + 1)
    }
  }

  /** A scan never skips a marker: between `from` and the first match, and between
      two consecutive matches, no marker starts. */
  lemma {:induction false} SpansAreLeftmost(s: string, from: nat)
    ensures var r := Spans(s, from);
      (forall p :: from <= p < (if r == [] then |s| else r[0].start) ==> MarkerAt(s, p).None?)
      && (forall k, p :: 0 < k < |r| && r[k - 1].end <= p < r[k].start ==> MarkerAt(s, p).None?)
    decreases |s| - from
  {
    if from < |s| {
      match MarkerAt(s, from) {
        case Some(e) =>
          SpansAreLeftmost(s, e);
          var r := Spans(s, from);
          assert r == [Span(from, e)] + Spans(s, e);
        case None =>
          SpansAreLeftmost(s, from + 1);
      }
    }
  }

  /** The text between the brackets of a match: `match.slice(2, -2)`. */
  function Interior(s: string, sp: Span): string
    requires sp.start + 4 <= sp.end <= |s|
  {
    s[sp.start + 2..sp.end - 2]
  }

  /** The interior of every match is free of line terminators and of "]]". */
  lemma InteriorIsPlain(s: string, sp: Span)
    requires MarkerAt(s, sp.start) == Some(sp.end)
    ensures forall c :: c in Interior(s, sp) ==> !IsLineTerminator(c)
    ensures !Contains(Interior(s, sp), "]]")
  {
    var t := Interior(s, sp);
    forall c | c in t ensures !IsLineTerminator(c) {
      var m :| 0 <= m < |t| && t[m] == c;
      assert s[sp.start + 2 + m] == c && InsideChar(s, sp.start + 2 + m);
    }
    forall i | 0 <= i <= |t| ensures !OccursAt(t, "]]", i) {
      if i + 2 <= |t| {
        assert t[i] == s[sp.start + 2 + i] && t[i + 1] == s[sp.start + 2 + i + 1];
        assert InsideChar(s, sp.start + 2 + i);
        assert t[i..i + 2] == [t[i], t[i + 1]];
      }
    }
  }
}
