/** What the note card computes from a note's text before drawing it: the reading
    time, the split of a line at wiki-link markers into text and link tokens, and
    the classification of each line of the content into a block kind. The React
    elements are replaced by the `Inline` and `Block` datatypes. */
module NoteCard {
  import opened Seqs
  import opened Strings
  import opened WikiMarkers

  const WordsPerMinute: nat := 200

  // ---------------------------------------------------------------- reading time

  /** `content.split(/\s+/).length`: the pieces between whitespace runs, empty ends included. */
  function WordCount(content: string): (w: nat)
    ensures w >= 1
  {
    |SplitRuns(content, IsSpace)|
  }

  /** `Math.ceil(words / 200) || 1`, in minutes. */
  function ReadingTime(content: string): (minutes: int)
    ensures minutes >= 1
    ensures (minutes - 1) * WordsPerMinute < WordCount(content) <= minutes * WordsPerMinute
  {
    var w := WordCount(content);
    var c := (w + WordsPerMinute - 1) / WordsPerMinute;
    if c == 0 then 1 else c
  }

  /** Words separated by single spaces are counted one by one. */
  lemma WordCountOfWords(ws: seq<string>)
    requires ws != []
    requires forall k :: 0 <= k < |ws| ==> ws[k] != [] && forall c :: c in ws[k] ==> !IsSpace(c)
    ensures WordCount(JoinWith(ws, " ")) == |ws|
  {
    SplitRunsOfJoin(ws, " ", IsSpace);
  }

  /** Leading and trailing whitespace each add an empty piece to the count, as `split` reports them. */
  lemma WordCountWithPadding(ws: seq<string>)
    requires ws != []
    requires forall k :: 0 <= k < |ws| ==> ws[k] != [] && forall c :: c in ws[k] ==> !IsSpace(c)
    ensures WordCount(" " + JoinWith(ws, " ")) == |ws| + 1
    ensures WordCount(JoinWith(ws, " ") + " ") == |ws| + 1
  {
    SplitRunsLeadingRun(ws, " ", IsSpace);
    SplitRunsTrailingRun(ws, " ", IsSpace);
  }

  /** Text without any whitespace reads in one minute, the empty note included. */
  lemma ReadingTimeOfOneWord(content: string)
    requires forall c :: c in content ==> !IsSpace(c)
    ensures ReadingTime(content) == 1
  {
    SplitRunsNoSeparator(content, IsSpace);
  }

  // ---------------------------------------------------------------- splitting a line at markers

  /** A part drawn as a link: `part.startsWith('[[') && part.endsWith(']]')`. */
  predicate IsLinkPart(part: string) {
    StartsWith(part, "[[") && EndsWith(part, "]]")
  }

  /** The opening and closing brackets of a link part never overlap. */
  lemma LinkPartLength(part: string)
    requires IsLinkPart(part)
    ensures |part| >= 4
  {
    assert part[0] == part[..2][0] == '[' && part[1] == part[..2][1] == '[';
    assert part[|part| - 1] == part[|part| - 2..][1] == ']' && part[|part| - 2] == part[|part| - 2..][0] == ']';
  }

  /** `text.split(/(\[\[.*?\]\])/g)` from the piece that began at `p`, scanning at `q`:
      the text before each match, then the captured match, and the remainder last. */
  function SplitFrom(s: string, p: nat, q: nat): (r: seq<string>)
    requires p <= q <= |s|
    decreases |s| - q
    ensures |r| % 2 == 1
  {
    if q == |s| then [s[p..]]
    else match MarkerAt(s, q) {
      case Some(e) => [s[p..q], s[q..e]] + SplitFrom(s, e, e)
      case None => SplitFrom(s, p, q + 1)
    }
  }

  /** Nothing is lost or added by the split: the parts concatenate to the text. */
  lemma {:induction false} SplitFromConcat(s: string, p: nat, q: nat)
    requires p <= q <= |s|
    ensures Concat(SplitFrom(s, p, q)) == s[p..]
    decreases |s| - q
  {
    if q == |s| {
      assert Concat([s[p..]]) == s[p..] + Concat([]);
    } else {
      match MarkerAt(s, q) {
        case Some(e) =>
          SplitFromConcat(s, e, e);
          var rest := SplitFrom(s, e, e);
          var r := [s[p..q], s[q..e]] + rest;
          assert SplitFrom(s, p, q) == r;
          assert r[1..] == [s[q..e]] + rest && r[1..][1..] == rest;
          assert s[p..q] + (s[q..e] + s[e..]) == s[p..];
        case None =>
          SplitFromConcat(s, p, q + 1);
      }
    }
  }

  /** The parts of a line: concatenated they give the line back, and there is one
      more text part than there are marker parts. */
  function SplitParts(s: string): (r: seq<string>)
    ensures |r| % 2 == 1
    ensures Concat(r) == s
  {
    SplitFromConcat(s, 0, 0);
    SplitFrom(s, 0, 0)
  }

  /** There is one marker part per match of the global marker scan, and one more text part. */
  lemma {:induction false} SplitFromCount(s: string, p: nat, q: nat)
    requires p <= q <= |s|
    ensures |SplitFrom(s, p, q)| == 2 * |Spans(s, q)| + 1
    decreases |s| - q
  {
    if q < |s| {
      match MarkerAt(s, q) {
        case Some(e) => SplitFromCount(s, e, e);
        case None => SplitFromCount(s, p, q + 1);
      }
    }
  }

  /** The k-th marker part is the text of the k-th match of the global marker scan:
      the same scan that finds the graph's links. */
  lemma {:induction false} SplitFromMarker(s: string, p: nat, q: nat, k: nat)
    requires p <= q <= |s| && k < |Spans(s, q)|
    ensures 2 * k + 1 < |SplitFrom(s, p, q)|
    ensures SplitFrom(s, p, q)[2 * k + 1] == s[Spans(s, q)[k].start..Spans(s, q)[k].end]
    decreases |s| - q
  {
    SplitFromCount(s, p, q);
    if q < |s| {
      match MarkerAt(s, q) {
        case Some(e) =>
          if k > 0 {
            SplitFromMarker(s, e, e, k - 1);
          }
        case None =>
          SplitFromMarker(s, p, q + 1, k);
      }
    }
  }

  /** A text part that looks like a link is one the lazy marker refused: it runs across a line break. */
  lemma TextPartLinkLike(s: string, p: nat, q: nat)
    requires p <= q <= |s|
    requires p < q ==> MarkerAt(s, p).None?
    requires IsLinkPart(s[p..q])
    ensures exists c :: c in s[p..q] && IsLineTerminator(c)
  {
    var t := s[p..q];
    LinkPartLength(t);
    assert t[..2] == "[[" && t[|t| - 2..] == "]]";
    assert t[0] == '[' && t[1] == '[' && t[|t| - 2] == ']' && t[|t| - 1] == ']';
    assert IsOpen(s, p);
    assert CloseFrom(s, p + 2).None?;
    assert IsClose(s, q - 2);
    NoCloseMeansLineBreak(s, p + 2, q - 2);
    var m :| p + 2 <= m < q - 2 && IsLineTerminator(s[m]);
    assert t[m - p] == s[m];
  }

  /** A captured marker: drawn as a link, and on one line. */
  predicate MarkerPart(part: string) {
    IsLinkPart(part) && forall c :: c in part ==> !IsLineTerminator(c)
  }

  /** Text between markers: drawn as a link only if it runs across a line break. */
  predicate TextPart(part: string) {
    IsLinkPart(part) ==> exists c :: c in part && IsLineTerminator(c)
  }

  /** The text of a match is a link on one line. */
  lemma MatchIsMarkerPart(s: string, q: nat, e: nat)
    requires MarkerAt(s, q) == Some(e)
    ensures MarkerPart(s[q..e])
  {
    var m := s[q..e];
    assert m[..2] == [s[q], s[q + 1]] == "[[";
    assert m[|m| - 2..] == [s[e - 2], s[e - 1]] == "]]";
    forall c | c in m ensures !IsLineTerminator(c) {
      var i :| 0 <= i < |m| && m[i] == c;
      if i < 2 {
        assert m[..2][i] == c;
      } else if i >= |m| - 2 {
        assert m[|m| - 2..][i - (|m| - 2)] == c;
      } else {
        assert c == s[q + i] && InsideChar(s, q + i);
      }
    }
  }

  /** Every marker part (odd position) is a link on one line; a text part (even
      position) looks like a link only across a line break. */
  lemma {:induction false} SplitFromKinds(s: string, p: nat, q: nat, k: nat)
    requires p <= q <= |s|
    requires p < q ==> MarkerAt(s, p).None?
    requires k < |SplitFrom(s, p, q)|
    ensures if k % 2 == 1 then MarkerPart(SplitFrom(s, p, q)[k]) else TextPart(SplitFrom(s, p, q)[k])
    decreases |s| - q
  {
    if q == |s| {
      if IsLinkPart(s[p..]) {
        TextPartLinkLike(s, p, q);
      }
    } else {
      match MarkerAt(s, q) {
        case Some(e) =>
          if k == 0 {
            if IsLinkPart(s[p..q]) {
              TextPartLinkLike(s, p, q);
            }
          } else if k == 1 {
            MatchIsMarkerPart(s, q, e);
          } else {
            SplitFromKinds(s, e, e, k - 2);
            assert k % 2 == (k - 2) % 2;
          }
        case None =>
          SplitFromKinds(s, p, q + 1, k);
      }
    }
  }

  // ---------------------------------------------------------------- link tokens

  /** One token of a line: plain text (whose inline formatting is not modelled) or a wiki link. */
  datatype Inline = Text(text: string) | WikiLink(target: string, caption: string)

  /** `part.slice(2, -2)` of a link part. */
  function LinkInner(part: string): string
    requires |part| >= 4
  {
    part[2..|part| - 2]
  }

  /** The first piece of `raw.split('|')`: everything before the first '|'. */
  function BeforePipe(raw: string): (r: string)
    ensures StartsWith(raw, r) && '|' !in r
    ensures |r| == |raw| || raw[|r|] == '|'
  {
    SplitOn(raw, '|')[0]
  }

  /** A link part navigates to its trimmed text before the first '|'; its caption is the
      trimmed text after it when that text is non-empty, and the trimmed target otherwise. */
  function ParsePart(part: string): (r: Inline)
    ensures r.Text? <==> !IsLinkPart(part)
    ensures r.Text? ==> r.text == part
    ensures r.WikiLink? ==> |part| >= 4 && IsTrimmed(r.target) && IsTrimmed(r.caption)
    ensures r.WikiLink? ==> r.target == Trim(BeforePipe(LinkInner(part)))
  {
    if IsLinkPart(part) then
      LinkPartLength(part);
      var raw := LinkInner(part);
      var pieces := SplitOn(raw, '|');
      var target := pieces[0];
      var caption := if |pieces| > 1 && pieces[1] != [] then Trim(pieces[1]) else Trim(target);
      WikiLink(Trim(target), caption)
    else Text(part)
  }

  /** `[[target]]` navigates to the trimmed target and shows it as its caption. */
  lemma LinkWithoutAlias(target: string)
    requires '|' !in target
    ensures ParsePart("[[" + target + "]]") == WikiLink(Trim(target), Trim(target))
  {
    var part := "[[" + target + "]]";
    assert part[..2] == "[[" && part[|part| - 2..] == "]]";
    assert LinkInner(part) == target;
    SplitOnNoSeparator(target, '|');
  }

  /** `[[target|alias...]]` with a non-empty alias shows the trimmed alias; any further
      '|' and what follows it is dropped. */
  lemma LinkWithAlias(target: string, alias: string, more: string)
    requires '|' !in target && '|' !in alias && alias != []
    requires more == [] || more[0] == '|'
    ensures ParsePart("[[" + target + "|" + alias + more + "]]") == WikiLink(Trim(target), Trim(alias))
  {
    var part := "[[" + target + "|" + alias + more + "]]";
    assert part[..2] == "[[" && part[|part| - 2..] == "]]";
    var raw := LinkInner(part);
    assert raw == target + ['|'] + (alias + more);
    SplitOnAfterFirst(target, alias + more, '|');
    var pieces, tail := SplitOn(raw, '|'), SplitOn(alias + more, '|');
    assert pieces == [target] + tail;
    SplitOnFirst(alias, more, '|');
    assert pieces[0] == target && |pieces| > 1 && pieces[1] == alias;
  }

  /** `[[target|]]` and `[[target||...]]`: an empty alias falls back to the target. */
  lemma LinkWithEmptyAlias(target: string, more: string)
    requires '|' !in target
    requires more == [] || more[0] == '|'
    ensures ParsePart("[[" + target + "|" + more + "]]") == WikiLink(Trim(target), Trim(target))
  {
    var part := "[[" + target + "|" + more + "]]";
    assert part[..2] == "[[" && part[|part| - 2..] == "]]";
    assert LinkInner(part) == target + ['|'] + more;
    EmptyAliasPieces(target, more);
  }

  /** The pieces of `target|more` when `more` is empty or opens with another '|'. */
  lemma EmptyAliasPieces(target: string, more: string)
    requires '|' !in target
    requires more == [] || more[0] == '|'
    ensures var pieces := SplitOn(target + ['|'] + more, '|');
      |pieces| > 1 && pieces[0] == target && pieces[1] == []
  {
    SplitOnAfterFirst(target, more, '|');
    assert [] + more == more;
    SplitOnFirst([], more, '|');
  }

  /** `processFormattedText`: each part of the line parsed on its own. */
  function Tokens(text: string): (r: seq<Inline>)
    ensures |r| == |SplitParts(text)|
  {
    var parts := SplitParts(text);
    seq(|parts|, k requires 0 <= k < |parts| => ParsePart(parts[k]))
  }

  /** The k-th marker of a line becomes the link token at position 2k+1. */
  lemma TokensOfMarker(text: string, k: nat)
    requires k < |Spans(text, 0)|
    ensures |Tokens(text)| == 2 * |Spans(text, 0)| + 1
    ensures Tokens(text)[2 * k + 1] == ParsePart(text[Spans(text, 0)[k].start..Spans(text, 0)[k].end])
    ensures Tokens(text)[2 * k + 1].WikiLink?
  {
    var parts, j := SplitParts(text), 2 * k + 1;
    SplitFromCount(text, 0, 0);
    SplitFromMarker(text, 0, 0, k);
    assert j % 2 == 1;
    SplitFromKinds(text, 0, 0, j);
    assert IsLinkPart(parts[j]);
    assert Tokens(text)[j] == ParsePart(parts[j]);
  }

  /** Text between markers turns into a link token only when the line holds a line break. */
  lemma TokensTextStaysText(text: string, k: nat)
    requires k < |Tokens(text)| && k % 2 == 0 && Tokens(text)[k].WikiLink?
    ensures exists c :: c in text && IsLineTerminator(c)
  {
    var parts := SplitParts(text);
    SplitFromKinds(text, 0, 0, k);
    assert IsLinkPart(parts[k]) && TextPart(parts[k]);
    var c :| c in parts[k] && IsLineTerminator(c);
    ConcatContains(parts, k, c);
  }

  lemma {:induction false} ConcatContains(parts: seq<string>, k: nat, c: char)
    requires k < |parts| && c in parts[k]
    ensures c in Concat(parts)
  {
    if k > 0 {
      ConcatContains(parts[1..], k - 1, c);
    }
  }

  /** A marker navigates to the trimmed text of its interior before the first '|'. */
  lemma MarkerTarget(text: string, sp: Span)
    requires MarkerAt(text, sp.start) == Some(sp.end)
    ensures ParsePart(text[sp.start..sp.end]).WikiLink?
    ensures ParsePart(text[sp.start..sp.end]).target == Trim(BeforePipe(Interior(text, sp)))
  {
    MatchIsMarkerPart(text, sp.start, sp.end);
    MatchInner(text, sp);
  }

  /** The inside of a match's text is the match's interior. */
  lemma MatchInner(text: string, sp: Span)
    requires sp.start + 4 <= sp.end <= |text|
    ensures LinkInner(text[sp.start..sp.end]) == Interior(text, sp)
  {
    SliceOfSlice(text, sp.start, sp.end, 2, sp.end - sp.start - 2);
  }

  /** The link token of the k-th marker navigates to that marker's trimmed text before its first '|'. */
  lemma TokenTarget(text: string, k: nat)
    requires k < |Spans(text, 0)|
    ensures |Tokens(text)| == 2 * |Spans(text, 0)| + 1
    ensures Tokens(text)[2 * k + 1].WikiLink?
    ensures Tokens(text)[2 * k + 1].target == Trim(BeforePipe(Interior(text, Spans(text, 0)[k])))
  {
    TokensOfMarker(text, k);
    MarkerTarget(text, Spans(text, 0)[k]);
  }

  // ---------------------------------------------------------------- lines

  /** One line of the rendered content. */
  datatype Block =
    | Spacer
    | Rule
    | Quote(body: seq<Inline>)
    | Task(checked: bool, body: seq<Inline>)
    | Bullet(body: seq<Inline>)
    | Header(level: nat, body: seq<Inline>)
    | Paragraph(dropCap: bool, body: seq<Inline>)

  predicate IsRuleText(t: string) {
    t == "---" || t == "***" || t == "___"
  }

  predicate IsListMarker(c: char) {
    c == '-' || c == '*' || c == '+'
  }

  /** `replace(/^>\s?/, '')` on a line that starts with '>'. */
  function QuoteBody(t: string): (r: string)
    requires t != [] && t[0] == '>'
    ensures r == t[1..] || (|t| > 1 && IsSpace(t[1]) && r == t[2..])
    ensures |t| > 1 && IsSpace(t[1]) ==> r == t[2..]
  {
    if |t| > 1 && IsSpace(t[1]) then t[2..] else t[1..]
  }

  /** `^([-*+]\s\[([ xX])\])\s`: a list marker, whitespace, a checkbox, whitespace. */
  predicate IsTaskLine(t: string) {
    |t| >= 6 && IsListMarker(t[0]) && IsSpace(t[1]) && t[2] == '['
    && (t[3] == ' ' || t[3] == 'x' || t[3] == 'X') && t[4] == ']' && IsSpace(t[5])
  }

  /** `^([-*+]\s)` */
  predicate IsBulletLine(t: string) {
    |t| >= 2 && IsListMarker(t[0]) && IsSpace(t[1])
  }

  /** The regular expression `^(#{1,6})\s` read literally: some count from 1 to 6 of
      '#' followed by whitespace. */
  predicate HeaderMatchesAt(t: string, k: nat) {
    1 <= k <= 6 && k < |t| && (forall m :: 0 <= m < k ==> t[m] == '#') && IsSpace(t[k])
  }

  /** The header level: the run of leading '#', provided it is 1 to 6 long and
      followed by whitespace. */
  function HeaderLevel(t: string): (r: Option<nat>)
    ensures r.Some? ==> HeaderMatchesAt(t, r.value)
    ensures r.None? ==> forall k :: !HeaderMatchesAt(t, k)
  {
    var n := SkipWhile(t, 0, c => c == '#');
    if 1 <= n <= 6 && n < |t| && IsSpace(t[n]) then Some(n)
    else None
  }

  /** The greedy `#{1,6}` can backtrack only onto a '#', which is not whitespace, so
      at most one count of '#' lets the regular expression match. */
  lemma HeaderMatchUnique(t: string, k1: nat, k2: nat)
    requires HeaderMatchesAt(t, k1) && HeaderMatchesAt(t, k2)
    ensures k1 == k2
  {
  }

  /** The block drawn for one line; `dropCapLine` is whether the drop cap is on and
      this is the first non-blank line. */
  function RenderLine(line: string, dropCapLine: bool): (r: Block)
    ensures r.Spacer? <==> Trim(line) == []
    ensures r.Paragraph? ==> r.dropCap == dropCapLine
    ensures r.Paragraph? ==> var t := Trim(line);
      t != [] && !IsRuleText(t) && t[0] != '>' && !IsTaskLine(t) && !IsBulletLine(t) && HeaderLevel(t).None?
  {
    var t := Trim(line);
    if t == [] then Spacer
    else if IsRuleText(t) then Rule
    else if t[0] == '>' then Quote(Tokens(QuoteBody(t)))
    else if IsTaskLine(t) then Task(Lower(t[3]) == 'x', Tokens(RestOfLine(t[6..])))
    else if IsBulletLine(t) then Bullet(Tokens(t[2..]))
    else match HeaderLevel(t) {
      case Some(n) => Header(n, Tokens(RestOfLine(t[n + 1..])))
      case None => Paragraph(dropCapLine, Tokens(line))
    }
  }

  /** A trimmed line matching `^[-*+]\s` but not the task pattern is a bullet of
      the text after its marker and the whitespace character. */
  lemma BulletLine(line: string, dropCapLine: bool)
    requires IsBulletLine(Trim(line)) && !IsTaskLine(Trim(line))
    ensures RenderLine(line, dropCapLine) == Bullet(Tokens(Trim(line)[2..]))
  {
  }

  /** A task's text is the rest of its trimmed line after the checkbox and the whitespace after it. */
  lemma TaskBody(line: string, dropCapLine: bool)
    requires IsTaskLine(Trim(line))
    ensures RenderLine(line, dropCapLine).body == Tokens(RestOfLine(Trim(line)[6..]))
  {
  }

  /** A header's text is the rest of its trimmed line after the '#' run and one whitespace character. */
  lemma HeaderBody(line: string, dropCapLine: bool, n: nat)
    requires HeaderMatchesAt(Trim(line), n)
    ensures n + 1 <= |Trim(line)|
    ensures RenderLine(line, dropCapLine) == Header(n, Tokens(RestOfLine(Trim(line)[n + 1..])))
  {
    HeaderOfLevel(line, dropCapLine, n);
  }

  /** A paragraph is built from the line as written, leading and trailing whitespace included. */
  lemma ParagraphBody(line: string, dropCapLine: bool)
    requires RenderLine(line, dropCapLine).Paragraph?
    ensures RenderLine(line, dropCapLine).body == Tokens(line)
  {
  }

  /** A line is a spacer exactly when it is all whitespace. */
  lemma BlankLineIsSpacer(line: string, dropCapLine: bool)
    ensures RenderLine(line, dropCapLine) == Spacer <==> forall c :: c in line ==> IsSpace(c)
  {
    TrimEmpty(line);
  }

  /** Whatever the line, its kind does not depend on the drop cap; only a paragraph carries the flag. */
  lemma DropCapOnlyOnParagraph(line: string, dropCapLine: bool)
    ensures RenderLine(line, dropCapLine).Paragraph? <==> RenderLine(line, false).Paragraph?
    ensures RenderLine(line, dropCapLine).Paragraph? ==> RenderLine(line, dropCapLine).dropCap == dropCapLine
    ensures !RenderLine(line, dropCapLine).Paragraph? ==> RenderLine(line, dropCapLine) == RenderLine(line, false)
  {
  }

  /** A task's box is ticked exactly when its bracket holds 'x' or 'X'. */
  lemma TaskChecked(line: string, dropCapLine: bool)
    requires RenderLine(line, dropCapLine).Task?
    ensures var t := Trim(line);
      IsTaskLine(t) && (RenderLine(line, dropCapLine).checked <==> t[3] == 'x' || t[3] == 'X')
  {
  }

  /** A line matching the task pattern is a task even though it also matches the bullet pattern. */
  lemma TaskBeforeBullet(line: string, dropCapLine: bool)
    requires IsTaskLine(Trim(line))
    ensures IsBulletLine(Trim(line))
    ensures RenderLine(line, dropCapLine).Task?
  {
  }

  /** `> text` and `>text` are quotes of `text`: the '>' and at most one whitespace
      character after it are dropped. */
  lemma QuoteOfText(text: string, dropCapLine: bool)
    requires text != [] && IsTrimmed(text)
    ensures RenderLine("> " + text, dropCapLine) == Quote(Tokens(text))
    ensures RenderLine(">" + text, dropCapLine) == Quote(Tokens(text))
  {
    var spaced, tight := "> " + text, ">" + text;
    assert spaced[|spaced| - 1] == text[|text| - 1] && spaced[0] == '>';
    assert tight[|tight| - 1] == text[|text| - 1] && tight[0] == '>';
    assert IsSpace(spaced[1]) && spaced[2..] == text;
    assert tight[1] == text[0] && tight[1..] == text;
    QuoteRender(spaced, dropCapLine);
    QuoteRender(tight, dropCapLine);
  }

  /** A trimmed line opening with '>' renders as the quote of its body. */
  lemma QuoteRender(line: string, dropCapLine: bool)
    requires IsTrimmed(line) && line != [] && line[0] == '>'
    ensures RenderLine(line, dropCapLine) == Quote(Tokens(QuoteBody(line)))
  {
    TrimTrimmed(line);
    assert !IsRuleText(line);
  }

  /** The three horizontal rules, whatever whitespace surrounds them. */
  lemma RuleLine(pre: string, rule: string, post: string, dropCapLine: bool)
    requires rule == "---" || rule == "***" || rule == "___"
    requires forall c :: c in pre ==> IsSpace(c)
    requires forall c :: c in post ==> IsSpace(c)
    ensures RenderLine(pre + rule + post, dropCapLine) == Rule
  {
    assert IsTrimmed(rule);
    TrimAround(pre, rule, post);
  }

  /** A header's level is its count of leading '#', from 1 to 6. */
  lemma HeaderLevelBounds(line: string, dropCapLine: bool)
    requires RenderLine(line, dropCapLine).Header?
    ensures var level := RenderLine(line, dropCapLine).level;
      1 <= level <= 6 && HeaderMatchesAt(Trim(line), level)
  {
  }

  /** "#"×n, whitespace, text with n from 1 to 6 is a header of level n. */
  lemma HeaderOfLevel(line: string, dropCapLine: bool, n: nat)
    requires HeaderMatchesAt(Trim(line), n)
    ensures RenderLine(line, dropCapLine).Header? && RenderLine(line, dropCapLine).level == n
  {
    var t := Trim(line);
    assert t[0] == '#';
    var h := HeaderLevel(t);
    if h.Some? { HeaderMatchUnique(t, h.value, n); }
  }

  /** Seven or more leading '#' are no header: the line falls through to a paragraph. */
  lemma SevenHashesIsParagraph(line: string, dropCapLine: bool)
    requires StartsWith(Trim(line), "#######")
    ensures RenderLine(line, dropCapLine).Paragraph?
  {
    var t := Trim(line);
    assert forall m :: 0 <= m < 7 ==> t[m] == "#######"[m];
    var h := HeaderLevel(t);
    assert h.None?;
  }

  // ---------------------------------------------------------------- whole content

  predicate IsBlank(line: string) {
    Trim(line) == []
  }

  /** `lines.findIndex(l => l.trim().length > 0)` */
  function FirstNonBlank(lines: seq<string>): (r: Option<nat>)
    ensures r.Some? ==> r.value < |lines| && !IsBlank(lines[r.value])
                        && (forall j :: 0 <= j < r.value ==> IsBlank(lines[j]))
    ensures r.None? ==> forall j :: 0 <= j < |lines| ==> IsBlank(lines[j])
  {
    FindFirst(lines, (l: string) => !IsBlank(l))
  }

  /** `renderContent`: one block per '\n'-separated line, in order. */
  function RenderContent(content: string, useDropCap: bool): (r: seq<Block>)
    ensures |r| == CountOf(content, '\n') + 1
  {
    var lines := SplitOn(content, '\n');
    var first := FirstNonBlank(lines);
    SplitOnCount(content, '\n');
    seq(|lines|, i requires 0 <= i < |lines| => RenderLine(lines[i], useDropCap && first == Some(i)))
  }

  /** Block i is line i drawn on its own, apart from the drop-cap flag. */
  lemma RenderContentLine(content: string, useDropCap: bool, i: nat)
    requires i < |RenderContent(content, useDropCap)|
    ensures var lines := SplitOn(content, '\n');
      i < |lines| && exists d :: RenderContent(content, useDropCap)[i] == RenderLine(lines[i], d)
  {
    var lines := SplitOn(content, '\n');
    var d := useDropCap && FirstNonBlank(lines) == Some(i);
    assert RenderContent(content, useDropCap)[i] == RenderLine(lines[i], d);
  }

  /** A block carries the drop cap exactly when the drop cap is on, the line is the
      first non-blank line, and it is drawn as a paragraph. */
  lemma DropCapPlacement(content: string, useDropCap: bool, i: nat)
    requires i < |RenderContent(content, useDropCap)|
    ensures var lines := SplitOn(content, '\n');
      var b := RenderContent(content, useDropCap)[i];
      i < |lines|
      && ((b.Paragraph? && b.dropCap) <==>
          (useDropCap && !IsBlank(lines[i]) && (forall j :: 0 <= j < i ==> IsBlank(lines[j]))
           && RenderLine(lines[i], false).Paragraph?))
  {
    var lines := SplitOn(content, '\n');
    var first := FirstNonBlank(lines);
    DropCapOnlyOnParagraph(lines[i], useDropCap && first == Some(i));
    if !IsBlank(lines[i]) && (forall j :: 0 <= j < i ==> IsBlank(lines[j])) {
      assert first.Some?;
      assert first.value == i;
    }
  }

  /** At most one block of the content carries the drop cap. */
  lemma DropCapAtMostOnce(content: string, useDropCap: bool, i: nat, j: nat)
    requires i < j < |RenderContent(content, useDropCap)|
    requires RenderContent(content, useDropCap)[i].Paragraph? && RenderContent(content, useDropCap)[i].dropCap
    ensures !(RenderContent(content, useDropCap)[j].Paragraph? && RenderContent(content, useDropCap)[j].dropCap)
  {
    DropCapPlacement(content, useDropCap, i);
    DropCapPlacement(content, useDropCap, j);
  }
}
