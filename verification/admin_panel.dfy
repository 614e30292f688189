/** The editor panel's text processing: importing an Obsidian-style markdown file
    (front matter, `title:` and `tags:` fields, a leading H1, `#hashtags`, tag
    de-duplication), splitting the comma-separated tag field on submit, the
    empty-field guard, and the draft-save condition. Reading the file, timers and
    local storage are not modelled. */
module AdminPanel {
  import opened Seqs
  import opened Strings
  import opened Notes

  // ---------------------------------------------------------------- file name

  /** `name.replace(/\.md$/, '')`: one trailing ".md" removed. */
  function DefaultTitle(name: string): (r: string)
    ensures EndsWith(name, ".md") ==> r + ".md" == name
    ensures !EndsWith(name, ".md") ==> r == name
  {
    if EndsWith(name, ".md") then
      var r := name[..|name| - 3];
      assert r + name[|name| - 3..] == name;
      r
    else name
  }

  // ---------------------------------------------------------------- front matter

  /** The two pieces of a file with front matter: the YAML between the fences and
      the text after the closing fence. */
  datatype FrontMatter = FrontMatter(yaml: string, rest: string)

  const Opening: string := "---\n"
  const Closing: string := "\n---"

  /** `/^---\n([\s\S]*?)\n---/`: the file opens with "---" and a newline, and the YAML
      runs to the first following newline-and-"---". */
  function SplitFrontMatter(text: string): (r: Option<FrontMatter>)
    ensures r.Some? ==> text == Opening + r.value.yaml + Closing + r.value.rest
    ensures r.Some? ==> forall i :: 4 <= i < 4 + |r.value.yaml| ==> !OccursAt(text, Closing, i)
    ensures r.None? <==> !StartsWith(text, Opening) || IndexOf(text, Closing, 4).None?
  {
    if !StartsWith(text, Opening) then None
    else match IndexOf(text, Closing, 4) {
      case Some(k) =>
        var yaml := text[4..k];
        var rest := text[k + 4..];
        assert text[k..k + 4] == Closing;
        assert text == text[..4] + text[4..k] + text[k..k + 4] + text[k + 4..];
        Some(FrontMatter(yaml, rest))
      case None => None
    }
  }

  /** A file assembled from YAML in which no line but the first begins with "---"
      is split back into that YAML and the rest. */
  lemma FrontMatterRoundTrip(yaml: string, rest: string)
    requires forall i :: 0 <= i < |yaml| ==> !OccursAt(yaml + Closing, Closing, i)
    ensures SplitFrontMatter(Opening + yaml + Closing + rest) == Some(FrontMatter(yaml, rest))
  {
    var text := Opening + yaml + Closing + rest;
    assert StartsWith(text, Opening) by {
      assert text[..4] == Opening;
    }
    assert OccursAt(text, Closing, 4 + |yaml|) by {
      assert text[4 + |yaml|..4 + |yaml| + 4] == Closing;
    }
    forall i | 4 <= i < 4 + |yaml| ensures !OccursAt(text, Closing, i) {
      var w := yaml + Closing;
      assert text == Opening + w + rest;
      assert text[i..i + 4] == w[i - 4..i];
      assert !OccursAt(w, Closing, i - 4);
    }
    var k := IndexOf(text, Closing, 4);
    assert k == Some(4 + |yaml|);
    assert text[4..4 + |yaml|] == yaml;
    assert text[4 + |yaml| + 4..] == rest;
  }

  // ---------------------------------------------------------------- YAML fields

  /** The capture of `field:\s*(.*)` at the first occurrence of `field:`, if any:
      the whitespace after the colon is skipped, newlines included, and the rest of
      that line is taken. */
  function FieldValue(yaml: string, field: string): (r: Option<string>)
    ensures r.None? <==> IndexOf(yaml, field, 0).None?
    ensures r.Some? ==> forall c :: c in r.value ==> !IsLineTerminator(c)
  {
    match IndexOf(yaml, field, 0) {
      case Some(i) => Some(RestOfLine(yaml[SkipWhile(yaml, i + |field|, IsSpace)..]))
      case None => None
    }
  }

  /** `yaml.match(/title:\s*(.*)/)` with quotes removed and the result trimmed. */
  function YamlTitle(yaml: string): (r: Option<string>)
    ensures r.None? <==> !Contains(yaml, "title:")
    ensures r.Some? ==> IsTrimmed(r.value) && '\'' !in r.value && '"' !in r.value
    ensures r.Some? ==> forall c :: c in r.value ==> !IsLineTerminator(c)
  {
    match FieldValue(yaml, "title:") {
      case Some(v) =>
        var t := Trim(RemoveChars(v, "'\""));
        assert forall c :: c in t ==> c in RemoveChars(v, "'\"") by {
          forall c | c in t ensures c in RemoveChars(v, "'\"") {
            var m :| 0 <= m < |t| && t[m] == c;
            assert c == RemoveChars(v, "'\"")[SkipWhile(RemoveChars(v, "'\""), 0, IsSpace) + m];
          }
        }
        Some(t)
      case None => None
    }
  }

  /** A first line `title: t` yields `t` when it is trimmed, non-empty and free of quotes. */
  lemma YamlTitleOfLine(t: string, more: string)
    requires t != [] && IsTrimmed(t) && '\'' !in t && '"' !in t
    requires forall c :: c in t ==> !IsLineTerminator(c)
    ensures YamlTitle("title: " + t + "\n" + more) == Some(t)
  {
    var yaml := "title: " + t + "\n" + more;
    assert OccursAt(yaml, "title:", 0) by {
      assert yaml[..6] == "title:";
    }
    assert IndexOf(yaml, "title:", 0) == Some(0);
    assert yaml[7] == t[0];
    assert SkipWhile(yaml, 6, IsSpace) == 7 by {
      assert SkipWhile(yaml, 6, IsSpace) == SkipWhile(yaml, 7, IsSpace);
    }
    var after := yaml[7..];
    assert after == t + "\n" + more;
    assert after[|t|] == '\n';
    assert forall m :: 0 <= m < |t| ==> !IsLineTerminator(after[m]) by {
      forall m | 0 <= m < |t| ensures !IsLineTerminator(after[m]) {
        assert after[m] == t[m] && t[m] in t;
      }
    }
    assert SkipWhile(after, 0, c => !IsLineTerminator(c)) == |t|;
    assert RestOfLine(after) == t;
    FilterKeepsAll(t, c => c !in "'\"");
    TrimTrimmed(t);
  }

  /** The value of `field` is the rest of the line of its first occurrence, after the
      whitespace that follows the colon. */
  lemma FieldValueIsRestOfLine(pre: string, field: string, ws: string, v: string, tail: string)
    requires forall i :: 0 <= i < |pre| ==> !OccursAt(pre + field, field, i)
    requires forall c :: c in ws ==> IsSpace(c)
    requires forall c :: c in v ==> !IsLineTerminator(c)
    requires v != [] ==> !IsSpace(v[0])
    requires v == [] ==> tail == []
    requires tail == [] || IsLineTerminator(tail[0])
    ensures FieldValue(pre + field + ws + v + tail, field) == Some(v)
  {
    var yaml := pre + field + (ws + v + tail);
    assert yaml == pre + field + ws + v + tail;
    FirstOccurrenceAfter(pre, field, ws + v + tail);
    SkipSpacesTo(pre + field, ws, v + tail);
    assert pre + field + ws + (v + tail) == yaml;
    var a := |pre| + |field| + |ws|;
    assert yaml[a..] == v + tail;
    RestOfLineOf(v, tail);
  }

  /** `field` first occurs right after `pre` when it does not occur earlier. */
  lemma FirstOccurrenceAfter(pre: string, field: string, after: string)
    requires forall i :: 0 <= i < |pre| ==> !OccursAt(pre + field, field, i)
    ensures IndexOf(pre + field + after, field, 0) == Some(|pre|)
  {
    var pf := pre + field;
    var yaml := pf + after;
    assert yaml[0..|pf|] == pf;
    forall i | 0 <= i < |pre| ensures !OccursAt(yaml, field, i) {
      SliceOfSlice(yaml, 0, |pf|, i, i + |field|);
      assert !OccursAt(pf, field, i);
      assert yaml[i..i + |field|] == pf[i..i + |field|];
    }
    assert OccursAt(yaml, field, |pre|) by {
      assert yaml[|pre|..|pre| + |field|] == field;
    }
    IndexOfAt(yaml, field, 0, |pre|);
  }

  /** `\s*` after `head` consumes exactly the whitespace `ws` when `rest` opens with
      something else. */
  lemma SkipSpacesTo(head: string, ws: string, rest: string)
    requires forall c :: c in ws ==> IsSpace(c)
    requires rest == [] || !IsSpace(rest[0])
    ensures SkipWhile(head + ws + rest, |head|, IsSpace) == |head| + |ws|
  {
    var s := head + ws + rest;
    forall m | |head| <= m < |head| + |ws| ensures IsSpace(s[m]) {
      assert s[m] == ws[m - |head|] && ws[m - |head|] in ws;
    }
    if rest != [] {
      assert s[|head| + |ws|] == rest[0];
    }
    SkipWhileAt(s, |head|, |head| + |ws|, IsSpace);
  }

  /** `.*` takes a line up to the line terminator that ends it. */
  lemma RestOfLineOf(v: string, tail: string)
    requires forall c :: c in v ==> !IsLineTerminator(c)
    requires tail == [] || IsLineTerminator(tail[0])
    ensures RestOfLine(v + tail) == v
  {
    var s := v + tail;
    forall m | 0 <= m < |v| ensures !IsLineTerminator(s[m]) {
      assert s[m] == v[m] && v[m] in v;
    }
    if tail != [] {
      assert s[|v|] == tail[0];
    }
    SkipWhileAt(s, 0, |v|, c => !IsLineTerminator(c));
    assert s[..|v|] == v;
  }

  /** The title is the rest of the first `title:` line, quotes removed, trimmed. */
  lemma YamlTitleOfField(pre: string, ws: string, v: string, tail: string)
    requires forall i :: 0 <= i < |pre| ==> !OccursAt(pre + "title:", "title:", i)
    requires forall c :: c in ws ==> IsSpace(c)
    requires forall c :: c in v ==> !IsLineTerminator(c)
    requires v != [] ==> !IsSpace(v[0])
    requires v == [] ==> tail == []
    requires tail == [] || IsLineTerminator(tail[0])
    ensures YamlTitle(pre + "title:" + ws + v + tail) == Some(Trim(RemoveChars(v, "'\"")))
  {
    FieldValueIsRestOfLine(pre, "title:", ws, v, tail);
  }

  /** A quoted first line `title: "t"` yields `t`. */
  lemma YamlQuotedTitle(t: string, more: string)
    requires IsTrimmed(t) && '\'' !in t && '"' !in t
    requires forall c :: c in t ==> !IsLineTerminator(c)
    ensures YamlTitle("title: \"" + t + "\"\n" + more) == Some(t)
  {
    var v := "\"" + t + "\"";
    assert forall c :: c in v ==> !IsLineTerminator(c) by {
      forall c | c in v ensures !IsLineTerminator(c) {
        if c != '"' {
          assert c in t;
        }
      }
    }
    assert v[0] == '"';
    assert [] + "title:" + " " + v + ("\n" + more) == "title: \"" + t + "\"\n" + more;
    YamlTitleOfField([], " ", v, "\n" + more);
    RemoveQuotesAround(t);
    TrimTrimmed(t);
  }

  /** Removing the quote characters from `"t"` leaves `t` when `t` holds none. */
  lemma RemoveQuotesAround(t: string)
    requires '\'' !in t && '"' !in t
    ensures RemoveChars("\"" + t + "\"", "'\"") == t
  {
    var keep := c => c !in "'\"";
    FilterConcat("\"" + t, "\"", keep);
    FilterConcat("\"", t, keep);
    assert Filter("\"", keep) == [];
    FilterKeepsAll(t, keep);
    assert Filter("\"" + t + "\"", keep) == [] + t + [];
  }

  /** Where `\[(.*?)\]` finds its closing bracket after an opening bracket at `j`: the
      first ']' after it, with no line terminator in between. */
  function BracketClose(s: string, j: nat): (r: Option<nat>)
    decreases |s| - j
    ensures r.Some? ==> j <= r.value < |s| && s[r.value] == ']'
    ensures r.Some? ==> forall m :: j <= m < r.value ==> s[m] != ']' && !IsLineTerminator(s[m])
  {
    if j >= |s| then None
    else if s[j] == ']' then Some(j)
    else if IsLineTerminator(s[j]) then None
    else BracketClose(s, j + 1)
  }

  /** The capture of `tags:\s*\[(.*?)\]` for a match starting at `i`: "tags:", the
      whitespace after it, '[' and the text up to the first ']' on that line. */
  function BracketCaptureAt(yaml: string, i: nat): (r: Option<string>)
    ensures r.Some? ==> OccursAt(yaml, "tags:", i)
    ensures r.Some? ==> forall c :: c in r.value ==> c != ']' && !IsLineTerminator(c)
  {
    if !OccursAt(yaml, "tags:", i) then None
    else
      var j := SkipWhile(yaml, i + 5, IsSpace);
      if j < |yaml| && yaml[j] == '[' then
        match BracketClose(yaml, j + 1) {
          case Some(m) =>
            var v := yaml[j + 1..m];
            assert forall c :: c in v ==> c != ']' && !IsLineTerminator(c) by {
              forall c | c in v ensures c != ']' && !IsLineTerminator(c) {
                var k :| 0 <= k < |v| && v[k] == c;
                assert c == yaml[j + 1 + k];
              }
            }
            Some(v)
          case None => None
        }
      else None
  }

  /** Where the unanchored `tags:\s*\[(.*?)\]` first matches from `from` on: the
      leftmost position with a bracket capture. */
  function FirstBracketMatch(yaml: string, from: nat): (r: Option<nat>)
    decreases |yaml| - from
    ensures r.Some? ==> from <= r.value < |yaml| && BracketCaptureAt(yaml, r.value).Some?
    ensures r.Some? ==> forall p :: from <= p < r.value ==> BracketCaptureAt(yaml, p).None?
    ensures r.None? ==> forall p :: from <= p ==> BracketCaptureAt(yaml, p).None?
  {
    if from >= |yaml| then None
    else if BracketCaptureAt(yaml, from).Some? then Some(from)
    else FirstBracketMatch(yaml, from + 1)
  }

  /** `yaml.match(/tags:\s*\[(.*?)\]/) || yaml.match(/tags:\s*(.*)/)`: the bracketed
      form is preferred wherever it occurs; otherwise the rest of the first
      `tags:` line. */
  function YamlTagsText(yaml: string): (r: Option<string>)
    ensures r.None? <==> !Contains(yaml, "tags:")
  {
    match FirstBracketMatch(yaml, 0) {
      case Some(i) => BracketCaptureAt(yaml, i)
      case None =>
        assert IndexOf(yaml, "tags:", 0).None? ==> FieldValue(yaml, "tags:").None?;
        FieldValue(yaml, "tags:")
    }
  }

  /** A line `tags: [list]` after `pre` is a bracket match at the start of that line. */
  lemma BracketLine(pre: string, list: string, more: string)
    requires forall c :: c in list ==> c != ']' && !IsLineTerminator(c)
    ensures BracketCaptureAt(pre + "tags: [" + list + "]" + more, |pre|) == Some(list)
  {
    var yaml := pre + "tags: [" + list + "]" + more;
    var i := |pre|;
    assert OccursAt(yaml, "tags:", i) by {
      assert yaml[i..i + 5] == "tags:";
    }
    assert yaml[i + 5] == ' ' && yaml[i + 6] == '[';
    SkipWhileAt(yaml, i + 5, i + 6, IsSpace);
    var close := i + 7 + |list|;
    assert yaml[close] == ']';
    forall m | i + 7 <= m < close ensures yaml[m] != ']' && !IsLineTerminator(yaml[m]) {
      assert yaml[m] == list[m - i - 7] && list[m - i - 7] in list;
    }
    BracketCloseAt(yaml, i + 7, close);
    assert yaml[i + 7..close] == list;
  }

  /** A first line `tags: [list]` yields the list text between the brackets. */
  lemma BracketTagsPreferred(list: string, more: string)
    requires forall c :: c in list ==> c != ']' && !IsLineTerminator(c)
    ensures YamlTagsText("tags: [" + list + "]" + more) == Some(list)
  {
    BracketLine([], list, more);
    assert [] + "tags: [" + list + "]" + more == "tags: [" + list + "]" + more;
  }

  /** A bracketed `tags:` line wins over a plain `tags:` line before it. */
  lemma BracketLineWins(v: string, list: string, more: string)
    requires '[' !in v && forall c :: c in v ==> !IsLineTerminator(c)
    requires forall c :: c in list ==> c != ']' && !IsLineTerminator(c)
    ensures YamlTagsText("tags: " + v + "\n" + "tags: [" + list + "]" + more) == Some(list)
  {
    var first := "tags: " + v + "\n";
    var yaml := first + "tags: [" + list + "]" + more;
    var n := |first|;
    BracketLine(first, list, more);
    PlainLineHasNoBracket(v, "tags: [" + list + "]" + more);
    forall p | 0 <= p < n ensures BracketCaptureAt(yaml, p).None? {
      NoBracketCaptureBefore(yaml, n, p);
    }
  }

  /** The characters up to and including a plain `tags:` line's line break hold no '[',
      and the next line opens with 't'. */
  lemma PlainLineHasNoBracket(v: string, next: string)
    requires '[' !in v && next != [] && next[0] == 't'
    ensures var first := "tags: " + v + "\n"; var yaml := first + next;
      |first| < |yaml| && yaml[|first| - 1] == '\n' && yaml[|first|] == 't'
      && forall j :: 0 <= j < |first| ==> yaml[j] != '['
  {
    var first := "tags: " + v + "\n";
    var yaml := first + next;
    forall j | 0 <= j < |first| ensures yaml[j] != '[' {
      assert yaml[j] == first[j];
      if 6 <= j < |first| - 1 {
        assert first[j] == v[j - 6] && v[j - 6] in v;
      }
    }
  }

  /** Without any '[' the plain form applies: the rest of the first `tags:` line. */
  lemma PlainTagsLine(v: string, more: string)
    requires v != [] && !IsSpace(v[0]) && forall c :: c in v ==> !IsLineTerminator(c)
    requires '[' !in v && '[' !in more
    ensures YamlTagsText("tags: " + v + "\n" + more) == Some(v)
  {
    var yaml := "tags: " + v + "\n" + more;
    forall p | 0 <= p ensures BracketCaptureAt(yaml, p).None? {
      NoBracketNoCapture(yaml, p);
    }
    FieldValueIsRestOfLine([], "tags:", " ", v, "\n" + more);
    assert [] + "tags:" + " " + v + ("\n" + more) == yaml;
  }

  lemma NoBracketNoCapture(yaml: string, p: nat)
    requires '[' !in yaml
    ensures BracketCaptureAt(yaml, p).None?
  {
    if OccursAt(yaml, "tags:", p) {
      var j := SkipWhile(yaml, p + 5, IsSpace);
      if j < |yaml| {
        assert yaml[j] in yaml;
      }
    }
  }

  /** No bracket match starts before a line break when no '[' precedes the next line,
      and that line opens with neither whitespace nor '['. */
  lemma NoBracketCaptureBefore(yaml: string, n: nat, p: nat)
    requires 1 <= n < |yaml| && yaml[n - 1] == '\n' && !IsSpace(yaml[n]) && yaml[n] != '['
    requires forall j :: 0 <= j < n ==> yaml[j] != '['
    requires p < n
    ensures BracketCaptureAt(yaml, p).None?
  {
    if p + 5 > n - 1 {
      assert !OccursAt(yaml, "tags:", p) by {
        if p + 5 <= |yaml| {
          assert yaml[p..p + 5][n - 1 - p] == '\n';
        }
      }
    } else {
      var j := SkipWhile(yaml, p + 5, IsSpace);
      assert j <= n;
      assert yaml[j] != '[';
    }
  }

  lemma {:induction false} BracketCloseAt(s: string, j: nat, m: nat)
    requires j <= m < |s| && s[m] == ']'
    requires forall k :: j <= k < m ==> s[k] != ']' && !IsLineTerminator(s[k])
    ensures BracketClose(s, j) == Some(m)
    decreases m - j
  {
    if j < m {
      BracketCloseAt(s, j + 1, m);
    }
  }

  predicate IsTagSeparator(c: char) {
    c == ',' || c == ' '
  }

  function NotBlank(): string -> bool {
    (t: string) => Trim(t) != []
  }

  /** `raw.replace(/[\[\]'"]/g, '').split(/[, ]+/).filter(t => t.trim())`: the pieces
      are kept untrimmed. */
  function YamlTags(raw: string): (r: seq<string>)
    ensures forall k :: 0 <= k < |r| ==> Trim(r[k]) != []
    ensures forall k :: 0 <= k < |r| ==> forall c :: c in r[k] ==>
      !IsTagSeparator(c) && c !in "[]'\""
  {
    var cleaned := RemoveChars(raw, "[]'\"");
    var pieces := SplitRuns(cleaned, IsTagSeparator);
    var r := Filter(pieces, NotBlank());
    assert forall k :: 0 <= k < |r| ==> r[k] in pieces;
    assert forall k :: 0 <= k < |pieces| ==> forall c :: c in pieces[k] ==> c in cleaned by {
      SplitRunsChars(cleaned, IsTagSeparator);
    }
    r
  }

  /** The pieces of a split draw their characters from the split text. */
  lemma SplitRunsChars(s: string, sep: char -> bool)
    ensures forall k :: 0 <= k < |SplitRuns(s, sep)| ==> forall c :: c in SplitRuns(s, sep)[k] ==> c in s
    decreases |s|
  {
    var k := SkipWhile(s, 0, c => !sep(c));
    if k < |s| {
      var e := SkipWhile(s, k, sep);
      SplitRunsChars(s[e..], sep);
    }
  }

  /** Tags written as "a, b, c" split back into the tags, whether they come bare or
      inside brackets (the capture of the bracketed form is the same list). */
  lemma YamlTagsOfJoin(ts: seq<string>)
    requires forall k :: 0 <= k < |ts| ==> Trim(ts[k]) != []
    requires forall k :: 0 <= k < |ts| ==> forall c :: c in ts[k] ==> !IsTagSeparator(c) && c !in "[]'\""
    ensures YamlTags(JoinWith(ts, ", ")) == ts
  {
    var raw := JoinWith(ts, ", ");
    JoinHasNoQuotes(ts);
    var pieces := SplitRuns(raw, IsTagSeparator);
    assert YamlTags(raw) == Filter(pieces, NotBlank());
    if ts == [] {
      SplitRunsNoSeparator([], IsTagSeparator);
      assert Filter([[]], NotBlank()) == [];
    } else {
      NonBlankTagsSplit(ts);
      FilterKeepsAll(ts, NotBlank());
    }
  }

  lemma NonBlankTagsSplit(ts: seq<string>)
    requires ts != []
    requires forall k :: 0 <= k < |ts| ==> Trim(ts[k]) != []
    requires forall k :: 0 <= k < |ts| ==> forall c :: c in ts[k] ==> !IsTagSeparator(c)
    ensures SplitRuns(JoinWith(ts, ", "), IsTagSeparator) == ts
  {
    forall k | 0 <= k < |ts| ensures ts[k] != [] {
      TrimEmpty(ts[k]);
    }
    SplitRunsOfJoin(ts, ", ", IsTagSeparator);
  }

  /** A ", " join of tags without brackets or quotes has none to remove. */
  lemma JoinHasNoQuotes(ts: seq<string>)
    requires forall k :: 0 <= k < |ts| ==> forall c :: c in ts[k] ==> c !in "[]'\""
    ensures RemoveChars(JoinWith(ts, ", "), "[]'\"") == JoinWith(ts, ", ")
  {
    var raw := JoinWith(ts, ", ");
    var keep := c => c !in "[]'\"";
    JoinWithChars(ts, ", ", keep);
    forall i | 0 <= i < |raw| ensures keep(raw[i]) {
      assert raw[i] in raw;
    }
    FilterKeepsAll(raw, keep);
  }

  // ---------------------------------------------------------------- hashtags

  /** A match of `#\w` starts at `p`. */
  predicate HashAt(s: string, p: nat) {
    p + 1 < |s| && s[p] == '#' && IsWordChar(s[p + 1])
  }

  /** The next match of `/#(\w+)/g` from `from`: a '#' followed by a maximal run of
      word characters, as the span of the whole match. */
  function NextHashtag(s: string, from: nat): (r: Option<Span>)
    decreases |s| - from
    ensures r.Some? ==> from <= r.value.start && r.value.start + 2 <= r.value.end <= |s|
    ensures r.Some? ==> (s[r.value.start] == '#'
      && (forall m :: r.value.start < m < r.value.end ==> IsWordChar(s[m]))
      && (r.value.end == |s| || !IsWordChar(s[r.value.end])))
    ensures r.Some? ==> HashAt(s, r.value.start) && forall p :: from <= p < r.value.start ==> !HashAt(s, p)
    ensures r.None? ==> forall p :: from <= p < |s| ==> !HashAt(s, p)
  {
    if from + 1 >= |s| then None
    else if HashAt(s, from) then
      Some(Span(from, SkipWhile(s, from + 1, IsWordChar)))
    else NextHashtag(s, from + 1)
  }

  /** The captured words of every match from `from`, in order of appearance. */
  function Hashtags(s: string, from: nat): (r: seq<string>)
    decreases |s| - from
    ensures forall k :: 0 <= k < |r| ==> r[k] != [] && forall c :: c in r[k] ==> IsWordChar(c)
  {
    match NextHashtag(s, from) {
      case None => []
      case Some(sp) =>
        var w := s[sp.start + 1..sp.end];
        assert forall c :: c in w ==> IsWordChar(c) by {
          forall c | c in w ensures IsWordChar(c) {
            var k :| 0 <= k < |w| && w[k] == c;
            assert c == s[sp.start + 1 + k];
          }
        }
        [w] + Hashtags(s, sp.end)
    }
  }

  /** One step of the global scan: the first match's word, then the rest. */
  lemma HashtagsStep(s: string, from: nat)
    requires NextHashtag(s, from).Some?
    ensures var sp := NextHashtag(s, from).value;
      Hashtags(s, from) == [s[sp.start + 1..sp.end]] + Hashtags(s, sp.end)
  {
  }

  /** The `while ((match = hashtagRegex.exec(content)) !== null)` loop: the captured
      words, in order. */
  method CollectHashtags(content: string) returns (words: seq<string>)
    ensures words == Hashtags(content, 0)
  {
    words := [];
    var last := 0;
    var m := NextHashtag(content, 0);
    while m.Some?
      invariant last <= |content|
      invariant m == NextHashtag(content, last)
      invariant words + Hashtags(content, last) == Hashtags(content, 0)
      decreases |content| - last
    {
      var word := content[m.value.start + 1..m.value.end];
      HashtagsStep(content, last);
      assert (words + [word]) + Hashtags(content, m.value.end) == words + Hashtags(content, last);
      words := words + [word];
      last := m.value.end;
      m := NextHashtag(content, last);
    }
    assert words + [] == words;
  }

  // ---------------------------------------------------------------- the whole import

  /** What the import puts into the form: title, content and the tag field. */
  datatype Imported = Imported(title: string, content: string, tags: string)

  /** The H1 override: a content opening with "# " gives the title (its first line
      without the "# ", trimmed) and loses that line. */
  function StripHeading(content: string): (r: (string, string))
    requires StartsWith(content, "# ")
    ensures IsTrimmed(r.0) && IsTrimmed(r.1)
  {
    var lines := SplitOn(content, '\n');
    assert content[0] == '#' && content[1] == ' ' by {
      assert content[..2] == "# ";
    }
    assert |lines[0]| >= 2;
    (Trim(lines[0][2..]), Trim(JoinWith(lines[1..], "\n")))
  }

  /** Title, content and the tag list after front matter and heading, before the hashtags. */
  datatype Parsed = Parsed(title: string, content: string, tags: seq<string>)

  function AfterFrontMatter(fileName: string, text: string): (r: Parsed)
    ensures SplitFrontMatter(text).None? ==> r == Parsed(DefaultTitle(fileName), text, [])
    ensures SplitFrontMatter(text).Some? ==> r.content == Trim(SplitFrontMatter(text).value.rest)
    ensures SplitFrontMatter(text).Some? ==> var yaml := SplitFrontMatter(text).value.yaml;
      r.title == (if YamlTitle(yaml).Some? then YamlTitle(yaml).value else DefaultTitle(fileName))
    ensures SplitFrontMatter(text).Some? ==> var yaml := SplitFrontMatter(text).value.yaml;
      r.tags == (if YamlTagsText(yaml).Some? then YamlTags(YamlTagsText(yaml).value) else [])
  {
    match SplitFrontMatter(text) {
      case None => Parsed(DefaultTitle(fileName), text, [])
      case Some(fm) =>
        var title := match YamlTitle(fm.yaml) { case Some(t) => t case None => DefaultTitle(fileName) };
        var tags := match YamlTagsText(fm.yaml) { case Some(raw) => YamlTags(raw) case None => [] };
        Parsed(title, Trim(fm.rest), tags)
    }
  }

  function AfterHeading(p: Parsed): (r: Parsed)
    ensures r.tags == p.tags
    ensures !StartsWith(p.content, "# ") ==> r == p
  {
    if StartsWith(p.content, "# ") then
      var h := StripHeading(p.content);
      Parsed(h.0, h.1, p.tags)
    else p
  }

  /** The form `handleFileUpload` fills in. */
  function ImportNote(fileName: string, text: string): (r: Imported)
    ensures SplitFrontMatter(text).Some? || StartsWith(text, "# ") ==> IsTrimmed(r.content)
    ensures StartsWith(AfterFrontMatter(fileName, text).content, "# ") ==> IsTrimmed(r.title)
    ensures SplitFrontMatter(text).None? && !StartsWith(text, "# ") ==> r.title == DefaultTitle(fileName) && r.content == text
  {
    var p := AfterHeading(AfterFrontMatter(fileName, text));
    Imported(p.title, p.content, JoinWith(Dedup(p.tags + Hashtags(p.content, 0)), ", "))
  }

  /** The import's tag list: the front-matter tags and then the content's hashtags,
      each once, in order of first appearance. */
  function ImportedTags(fileName: string, text: string): (r: seq<string>)
    ensures NoDuplicates(r)
    ensures JoinWith(r, ", ") == ImportNote(fileName, text).tags
  {
    var p := AfterHeading(AfterFrontMatter(fileName, text));
    Dedup(p.tags + Hashtags(p.content, 0))
  }

  /** Every imported tag comes from the front matter or is a hashtag word of the final
      content, every such tag is imported, and the order is that of first appearance. */
  lemma ImportedTagsOrigin(fileName: string, text: string)
    ensures var p := AfterHeading(AfterFrontMatter(fileName, text));
      var all := p.tags + Hashtags(p.content, 0);
      var r := ImportedTags(fileName, text);
      (forall k :: 0 <= k < |r| ==> r[k] in all)
      && (forall k :: 0 <= k < |all| ==> all[k] in r)
      && (forall i, j :: 0 <= i < j < |r| ==> IndexOfFirst(all, r[i]) < IndexOfFirst(all, r[j]))
  {
    var p := AfterHeading(AfterFrontMatter(fileName, text));
    DedupKeepsFirstOccurrenceOrder(p.tags + Hashtags(p.content, 0));
  }

  /** A file without front matter whose text opens with "# " takes its title from that line. */
  lemma HeadingGivesTitle(fileName: string, text: string)
    requires !StartsWith(text, Opening) && StartsWith(text, "# ")
    ensures ImportNote(fileName, text).title == Trim(SplitOn(text, '\n')[0][2..])
    ensures ImportNote(fileName, text).content == Trim(JoinWith(SplitOn(text, '\n')[1..], "\n"))
  {
  }

  /** A heading wins over a `title:` field: with front matter whose remainder opens
      with "# ", the title is that line's text. */
  lemma HeadingOverridesYamlTitle(fileName: string, yaml: string, rest: string)
    requires forall i :: 0 <= i < |yaml| ==> !OccursAt(yaml + Closing, Closing, i)
    requires StartsWith(Trim(rest), "# ")
    ensures |SplitOn(Trim(rest), '\n')[0]| >= 2
    ensures ImportNote(fileName, Opening + yaml + Closing + rest).title
      == Trim(SplitOn(Trim(rest), '\n')[0][2..])
  {
    var c := Trim(rest);
    assert c[0] == '#' && c[1] == ' ' by {
      assert c[..2] == "# ";
    }
    var text := Opening + yaml + Closing + rest;
    FrontMatterRoundTrip(yaml, rest);
    var a := AfterFrontMatter(fileName, text);
    assert a.content == Trim(rest);
    var p := AfterHeading(a);
    assert p.title == StripHeading(Trim(rest)).0;
  }

  /** With front matter and no heading after it, the title is the YAML title when
      the YAML has a `title:` field and the file name without ".md" otherwise; the
      content is the trimmed text after the closing fence. */
  lemma FrontMatterTitle(fileName: string, yaml: string, rest: string)
    requires forall i :: 0 <= i < |yaml| ==> !OccursAt(yaml + Closing, Closing, i)
    requires !StartsWith(Trim(rest), "# ")
    ensures Contains(yaml, "title:") ==> (YamlTitle(yaml).Some?
      && ImportNote(fileName, Opening + yaml + Closing + rest).title == YamlTitle(yaml).value)
    ensures !Contains(yaml, "title:") ==> ImportNote(fileName, Opening + yaml + Closing + rest).title == DefaultTitle(fileName)
    ensures ImportNote(fileName, Opening + yaml + Closing + rest).content == Trim(rest)
  {
    FrontMatterRoundTrip(yaml, rest);
  }

  /** The imported tags begin with the front-matter tags, de-duplicated, whether or
      not a heading follows. */
  lemma FrontMatterTags(fileName: string, yaml: string, rest: string, raw: string)
    requires forall i :: 0 <= i < |yaml| ==> !OccursAt(yaml + Closing, Closing, i)
    requires YamlTagsText(yaml) == Some(raw)
    ensures var yt, r := Dedup(YamlTags(raw)), ImportedTags(fileName, Opening + yaml + Closing + rest);
      |yt| <= |r| && r[..|yt|] == yt
  {
    var text := Opening + yaml + Closing + rest;
    FrontMatterRoundTrip(yaml, rest);
    var p := AfterHeading(AfterFrontMatter(fileName, text));
    assert p.tags == YamlTags(raw);
    DedupExtends(p.tags, Hashtags(p.content, 0));
  }

  /** Front matter made of one line `tags: [t0, t1, ...]` imports t0, t1, ... first. */
  lemma ImportBracketTags(fileName: string, ts: seq<string>, rest: string)
    requires forall k :: 0 <= k < |ts| ==> Trim(ts[k]) != []
    requires forall k :: 0 <= k < |ts| ==> forall c :: c in ts[k] ==>
      !IsTagSeparator(c) && c !in "[]'\"" && !IsLineTerminator(c)
    ensures var text := Opening + "tags: [" + JoinWith(ts, ", ") + "]" + Closing + rest;
      |Dedup(ts)| <= |ImportedTags(fileName, text)| && ImportedTags(fileName, text)[..|Dedup(ts)|] == Dedup(ts)
  {
    var list := JoinWith(ts, ", ");
    var yaml := "tags: [" + list + "]";
    assert Opening + yaml + Closing + rest == Opening + "tags: [" + list + "]" + Closing + rest;
    TagListOnOneLine(ts);
    BracketTagsPreferred(list, []);
    assert yaml + [] == yaml;
    NoLineBreakNoClosing(yaml);
    YamlTagsOfJoin(ts);
    FrontMatterTags(fileName, yaml, rest, list);
  }

  /** A ", " join of one-line tags without ']' is a one-line bracket list, and so is
      the whole `tags: [...]` line. */
  lemma TagListOnOneLine(ts: seq<string>)
    requires forall k :: 0 <= k < |ts| ==> forall c :: c in ts[k] ==> c != ']' && !IsLineTerminator(c)
    ensures forall c :: c in JoinWith(ts, ", ") ==> c != ']' && !IsLineTerminator(c)
    ensures forall c :: c in "tags: [" + JoinWith(ts, ", ") + "]" ==> !IsLineTerminator(c)
  {
    var list := JoinWith(ts, ", ");
    JoinWithChars(ts, ", ", c => c != ']' && !IsLineTerminator(c));
    BracketLineIsOneLine(list);
  }

  lemma BracketLineIsOneLine(list: string)
    requires forall c :: c in list ==> !IsLineTerminator(c)
    ensures forall c :: c in "tags: [" + list + "]" ==> !IsLineTerminator(c)
  {
    var line := "tags: [" + list + "]";
    forall i | 0 <= i < |line| ensures !IsLineTerminator(line[i]) {
      if 7 <= i < 7 + |list| {
        assert line[i] == list[i - 7] && list[i - 7] in list;
      }
    }
  }

  /** YAML on one line contains no closing fence. */
  lemma NoLineBreakNoClosing(yaml: string)
    requires forall c :: c in yaml ==> !IsLineTerminator(c)
    ensures forall i :: 0 <= i < |yaml| ==> !OccursAt(yaml + Closing, Closing, i)
  {
    forall i | 0 <= i < |yaml| ensures !OccursAt(yaml + Closing, Closing, i) {
      assert (yaml + Closing)[i] == yaml[i] && yaml[i] in yaml;
      if i + 4 <= |yaml + Closing| {
        assert (yaml + Closing)[i..i + 4][0] == yaml[i];
      }
    }
  }

  /** A plain file keeps the file name, minus ".md", as its title and its whole text as content. */
  lemma PlainFileKeepsName(fileName: string, text: string)
    requires !StartsWith(text, Opening) && !StartsWith(text, "# ")
    ensures ImportNote(fileName, text).title == DefaultTitle(fileName)
    ensures ImportNote(fileName, text).content == text
  {
  }

  /** `handleFileUpload`: the parsed title, content and tag list are reassigned step
      by step, and a loop collects the hashtags. */
  method ImportFile(fileName: string, text: string) returns (title: string, content: string, tags: string)
    ensures Imported(title, content, tags) == ImportNote(fileName, text)
  {
    title := DefaultTitle(fileName);
    content := text;
    var extracted: seq<string> := [];

    var fm := SplitFrontMatter(text);
    if fm.Some? {
      content := Trim(fm.value.rest);
      var t := YamlTitle(fm.value.yaml);
      if t.Some? {
        title := t.value;
      }
      var raw := YamlTagsText(fm.value.yaml);
      if raw.Some? {
        extracted := YamlTags(raw.value);
      }
    }
    assert Parsed(title, content, extracted) == AfterFrontMatter(fileName, text);

    if StartsWith(content, "# ") {
      var h := StripHeading(content);
      title := h.0;
      content := h.1;
    }
    assert Parsed(title, content, extracted) == AfterHeading(AfterFrontMatter(fileName, text));

    var words := CollectHashtags(content);
    extracted := extracted + words;
    ghost var p := AfterHeading(AfterFrontMatter(fileName, text));
    assert extracted == p.tags + Hashtags(p.content, 0);
    tags := JoinWith(Dedup(extracted), ", ");
    assert ImportNote(fileName, text) == Imported(p.title, p.content, tags);
  }

  // ---------------------------------------------------------------- submit

  /** Tags as the submit leaves them: non-empty, trimmed and free of commas. */
  predicate IsTagList(ts: seq<string>) {
    forall k :: 0 <= k < |ts| ==> ts[k] != [] && IsTrimmed(ts[k]) && ',' !in ts[k]
  }

  /** `tags.split(',').map(t => t.trim()).filter(t => t)` */
  function SubmitTags(field: string): (r: seq<string>)
    ensures IsTagList(r)
  {
    var pieces := SplitOn(field, ',');
    var trimmed := TrimAll(pieces);
    assert forall i :: 0 <= i < |trimmed| ==> ',' !in trimmed[i] by {
      forall i | 0 <= i < |trimmed| ensures ',' !in trimmed[i] {
        TrimKeepsChars(pieces[i]);
      }
    }
    Filter(trimmed, NonEmpty())
  }

  /** `pieces.map(t => t.trim())` */
  function TrimAll(pieces: seq<string>): (r: seq<string>)
    ensures |r| == |pieces| && forall i :: 0 <= i < |pieces| ==> r[i] == Trim(pieces[i])
  {
    seq(|pieces|, i requires 0 <= i < |pieces| => Trim(pieces[i]))
  }

  lemma TrimKeepsChars(s: string)
    ensures forall c :: c in Trim(s) ==> c in s
  {
    var t := Trim(s);
    var a := SkipWhile(s, 0, IsSpace);
    forall c | c in t ensures c in s {
      var m :| 0 <= m < |t| && t[m] == c;
      assert c == s[a + m];
    }
  }

  function NonEmpty(): string -> bool {
    (t: string) => t != []
  }

  /** Splitting "t0, t1, ..." on ',' gives t0, then " t1", " t2", ... */
  lemma {:induction false} SplitJoinedTags(ts: seq<string>)
    requires ts != []
    requires forall k :: 0 <= k < |ts| ==> ',' !in ts[k]
    ensures var pieces := SplitOn(JoinWith(ts, ", "), ',');
      |pieces| == |ts| && pieces[0] == ts[0]
      && forall k :: 1 <= k < |ts| ==> pieces[k] == " " + ts[k]
  {
    if |ts| == 1 {
      SplitOnNoSeparator(ts[0], ',');
    } else {
      var rest := JoinWith(ts[1..], ", ");
      SplitJoinedTags(ts[1..]);
      var tail := SplitOn(rest, ',');
      var t := " " + rest;
      assert JoinWith(ts, ", ") == ts[0] + [','] + t;
      SplitOnAfterFirst(ts[0], t, ',');
      SplitOnLeading(' ', rest, ',');
      ShiftedPieces(ts, SplitOn(JoinWith(ts, ", "), ','), SplitOn(t, ','), tail);
    }
  }

  /** The bookkeeping step of `SplitJoinedTags`: the pieces are `ts[0]`, then the
      pieces of `" " + rest`, whose first gains the space. */
  lemma ShiftedPieces(ts: seq<string>, pieces: seq<string>, u: seq<string>, tail: seq<string>)
    requires |ts| >= 2
    requires pieces == [ts[0]] + u
    requires |tail| == |ts[1..]| && tail[0] == ts[1..][0]
    requires |u| == |tail| && u[0] == [' '] + tail[0] && forall j :: 1 <= j < |tail| ==> u[j] == tail[j]
    requires forall j :: 1 <= j < |ts[1..]| ==> tail[j] == " " + ts[1..][j]
    ensures |pieces| == |ts| && pieces[0] == ts[0]
    ensures forall k :: 1 <= k < |ts| ==> pieces[k] == " " + ts[k]
  {
    forall k | 1 <= k < |ts| ensures pieces[k] == " " + ts[k] {
      assert pieces[k] == u[k - 1];
      assert ts[1..][k - 1] == ts[k];
    }
  }

  /** Tags that are non-empty, trimmed and free of commas survive being joined with
      ", " and split again on submit: the tag field of an edited note that is left
      alone saves the same tags. */
  lemma SubmitTagsRoundTrip(ts: seq<string>)
    requires IsTagList(ts)
    ensures SubmitTags(JoinWith(ts, ", ")) == ts
  {
    var field := JoinWith(ts, ", ");
    var pieces := SplitOn(field, ',');
    var trimmed := TrimAll(pieces);
    if ts == [] {
      assert pieces == [[]];
      assert Filter(trimmed, NonEmpty()) == [];
    } else {
      SplitJoinedTags(ts);
      TrimSpacedPieces(ts, pieces);
      FilterKeepsAll(ts, NonEmpty());
    }
  }

  /** Trimming "t0", " t1", " t2", ... gives the trimmed tags back. */
  lemma TrimSpacedPieces(ts: seq<string>, pieces: seq<string>)
    requires forall k :: 0 <= k < |ts| ==> IsTrimmed(ts[k])
    requires ts != [] && |pieces| == |ts| && pieces[0] == ts[0]
    requires forall k :: 1 <= k < |ts| ==> pieces[k] == " " + ts[k]
    ensures TrimAll(pieces) == ts
  {
    var trimmed := TrimAll(pieces);
    forall k | 0 <= k < |ts| ensures trimmed[k] == ts[k] {
      if k == 0 {
        TrimTrimmed(ts[0]);
      } else {
        TrimAfterSpaces(" ", ts[k]);
      }
    }
  }

  /** The editor's fields. */
  datatype Form = Form(title: string, content: string, category: Category, language: AppLanguage, tags: string)

  /** The form opened on an existing note: its fields, and its tags joined with ", ",
      which the submit splits back when they are non-empty, trimmed and comma-free. */
  function FormFor(note: Note): (r: Form)
    ensures r.title == note.title && r.content == note.content
    ensures IsTagList(note.tags) ==> SubmitTags(r.tags) == note.tags
  {
    var r := Form(note.title, note.content, note.category, note.language, JoinWith(note.tags, ", "));
    if IsTagList(note.tags) then SubmitTagsRoundTrip(note.tags); r else r
  }

  /** What a submit hands to the application. */
  datatype Submission = AddRequest(draft: NoteDraft) | EditRequest(note: Note)

  /** `handleSubmit`: nothing without a title and content; otherwise the edited note
      with the form's fields, or a new draft. */
  function Submit(form: Form, editing: Option<Note>): (r: Option<Submission>)
    ensures r.None? <==> form.title == [] || form.content == []
    ensures r.Some? && editing.Some? ==> (r.value.EditRequest?
      && r.value.note.id == editing.value.id && r.value.note.createdAt == editing.value.createdAt
      && r.value.note.title == form.title && r.value.note.content == form.content
      && r.value.note.category == form.category && r.value.note.language == form.language
      && r.value.note.tags == SubmitTags(form.tags))
    ensures r.Some? && editing.None? ==> (r.value.AddRequest?
      && r.value.draft == NoteDraft(form.title, form.content, form.category, form.language, SubmitTags(form.tags)))
  {
    if form.title == [] || form.content == [] then None
    else match editing {
      case Some(n) =>
        Some(EditRequest(Note(n.id, form.title, form.content, form.category, form.language, n.createdAt, SubmitTags(form.tags))))
      case None =>
        Some(AddRequest(NoteDraft(form.title, form.content, form.category, form.language, SubmitTags(form.tags))))
    }
  }

  /** Opening a note in the editor and saving it untouched gives back the same note,
      provided its title and content are non-empty and its tags are non-empty,
      trimmed and comma-free. */
  lemma SaveUnchangedNote(note: Note)
    requires note.title != [] && note.content != []
    requires IsTagList(note.tags)
    ensures Submit(FormFor(note), Some(note)) == Some(EditRequest(note))
  {
  }

  /** The autosave writes a draft only when some text field is non-empty. */
  function ShouldSaveDraft(title: string, content: string, tags: string): (r: bool)
    ensures r <==> title + content + tags != []
  {
    title != [] || content != [] || tags != []
  }

  /** Every form a submit accepts is one the autosave keeps; a form holding only
      tags is kept as a draft but refused on submit. */
  lemma SubmittableFormIsDrafted(form: Form, editing: Option<Note>)
    ensures Submit(form, editing).Some? ==> ShouldSaveDraft(form.title, form.content, form.tags)
    ensures form.title == [] && form.content == [] && form.tags != [] ==>
      ShouldSaveDraft(form.title, form.content, form.tags) && Submit(form, editing).None?
  {
  }
}
