# Note archive: the text and list logic, in Dafny

The note archive is a React application. Notes are stored as records with an id,
title, content, category, language, creation time and tags. The application draws
them as cards, as a "knowledge graph" of `[[wiki-link]]` references, and edits them
in an editor panel that can also import Obsidian-style markdown files. This project
models the deterministic part of that behaviour and proves what it promises:

- **Knowledge graph** (`graph_view.dfy`, module `GraphView`):
  - On a rebuild, each note gets its previous node back, unchanged, or a fresh node.
  - A fresh node's radius counts the notes that mention its title as `[[title]]`.
  - `[[...]]` markers are extracted and resolved to links by a case-insensitive title lookup.
  - The hit test, the hover register and the click rule.
  - The view's references (`nodesRef`, `linksRef`, `hoveredNodeIdRef`) are the fields of the class `GraphState`.
  - Link extraction is a pair of loops proved against the recursive specification `LinksFrom`.
- **Marker scanner** (`wiki_markers.dfy`, module `WikiMarkers`):
  - An explicit scanner for the regular expression `\[\[(.*?)\]\]` with the global flag.
  - Both the graph (`match`) and the card (`split`) use it.
- **Note card** (`note_card.dfy`, module `NoteCard`):
  - The reading time.
  - The split of a line at wiki-link markers into text and link tokens.
  - The classification of each content line into a block kind: spacer, rule, quote, task, bullet, header or paragraph, with the drop cap.
  - React elements are replaced by the `Inline` and `Block` datatypes.
- **Note list** (`app.dfy`, module `App`):
  - The category and search filter.
  - The list updates behind adding, confirming, editing and deleting a note.
  - The title lookup behind wiki-link navigation.
- **Editor panel** (`admin_panel.dfy`, module `AdminPanel`):
  - The markdown import: front matter, `title:` and `tags:` fields, the H1 override, `#hashtag` harvesting and tag de-duplication.
  - The import is a method that reassigns its variables step by step and collects hashtags in a `while` loop, as the handler does.
  - Also: the submit-time tag split, the empty-field guard and the autosave condition.
- **Shared modules**:
  - `notes.dfy` (`Notes`): the `Note` record and the case-insensitive first-title lookup.
  - `strings.dfy` (`Strings`): JavaScript string operations and character classes, written as scanners over `seq<char>`.
  - `seqs.dfy` (`Seqs`): filter, find-first and de-duplication.

The JavaScript semantics are written out:
- `trim` and `\s` use the ECMAScript WhiteSpace and LineTerminator set.
- `.` excludes the four line terminators.
- `\w` is `[A-Za-z0-9_]`.
- `toLowerCase` lowers ASCII letters only.
- `split` with a string separator keeps empty pieces.
- `split(/[, ]+/)` and `split(/\s+/)` split on runs.
- `split` with a capturing group interleaves text and captures.
- `||` falls back on empty strings and zero.
- The random draws, the window size, the file name and text, the temporary id and the creation time are parameters.

Choices the code makes that a reader might not expect, and that the model follows:
- **Link resolution** takes the *first* note whose lower-cased title equals the lower-cased marker text. The marker text is used verbatim: it is not trimmed, and `|alias` is not split off. Two notes sharing a title up to case are not reported; the later one is never linked.
- **Node radius** is `8 + 5 × k`, where `k` counts *all* notes, the node's own included, whose content contains the exact, case-sensitive text `[[title]]`. It is not a count of links from other notes: a note that mentions itself grows, and a marker written in another case or with an alias does not count.
- **A carried-over node** keeps its old title and radius.
- **Imported YAML tags** are split on runs of commas and spaces and kept untrimmed.

## Model

| member | source | states |
|---|---|---|
| `Notes.FirstTitleMatch` | components/GraphView.tsx:63 | The index of the first note whose title equals the given one up to ASCII case; no earlier note matches; none means no note matches |
| `Notes.OwnTitleResolves` | App.tsx:261 | Looking up a note's own title, in any case, finds that note or an earlier one |
| `WikiMarkers.CloseFrom` | components/GraphView.tsx:59 | The lazy `(.*?)\]\]` stops at the first "]]"; every character before it is inside a line |
| `WikiMarkers.NoCloseMeansLineBreak` | components/GraphView.tsx:59 | When the lazy interior fails, every later "]]" lies beyond a line terminator |
| `WikiMarkers.MarkerAt` | components/GraphView.tsx:59 | A match anchored at i opens with "[[", closes with "]]", is at least 4 long, and its interior has no line break and no "]]" |
| `WikiMarkers.Spans` | components/GraphView.tsx:59 | The global scan's matches, each a match anchored at its start, in order and non-overlapping |
| `WikiMarkers.SpansAreLeftmost` | components/GraphView.tsx:59 | The scan skips no marker: no match starts before the first one or between two consecutive ones |
| `WikiMarkers.InteriorIsPlain` | components/GraphView.tsx:62 | `match.slice(2, -2)` contains no line terminator and no "]]" |
| `GraphView.MentionCount` | components/GraphView.tsx:53 | Counts the notes whose content contains `[[title]]` exactly; at most the collection size, and at least 1 exactly when some note holds the marker |
| `GraphView.MentionCountPositive` | components/GraphView.tsx:53 | Any note containing the marker, the titled note itself included, makes the count at least 1 |
| `GraphView.FreshRadius` | components/GraphView.tsx:53 | The radius is at least 8, and it exceeds the label threshold 12 exactly when some note mentions the title |
| `GraphView.FreshRadiusMonotone` | components/GraphView.tsx:53 | The radius never decreases as the mention count grows |
| `GraphView.Scatter` | components/GraphView.tsx:49-50 | A draw in [0, 1) puts the coordinate in [v/4, 3v/4) |
| `GraphView.FreshNode` | components/GraphView.tsx:46-54 | A fresh node has the note's id and title, zero velocity, radius 8 + 5k and a position in the central box |
| `GraphView.PreviousNode` | components/GraphView.tsx:43 | The first previous node with the id, with none earlier; none means no previous node has it |
| `GraphView.BuildNodes` | components/GraphView.tsx:42-55 | One node per note, in order, with the note's id; a previous node with that id comes back unchanged, stale title and radius included; otherwise the node is fresh |
| `GraphView.BuildNodesRadius` | components/GraphView.tsx:42-55 | When the previous nodes were at least base size, every rebuilt node is too |
| `GraphView.BuildNodesIdempotent` | components/GraphView.tsx:42-55 | With distinct ids, rebuilding from the rebuilt nodes returns them unchanged, whatever the random draws |
| `GraphView.MarkerTexts` | components/GraphView.tsx:59-62 | One text per match of the global marker scan: the match's interior, verbatim |
| `GraphView.ResolveLink` | components/GraphView.tsx:63-66 | At most one link; there is one exactly when some title matches up to case, and it goes to the first such note |
| `GraphView.MarkerLinks` | components/GraphView.tsx:57-69 | Every link of one note's markers leaves that note; MarkerLinksShape, MarkerLinksAllResolved and MarkerLinksNoneResolved give the rest |
| `GraphView.LinksFrom` | components/GraphView.tsx:57-69 | Every link leaves a note of the scanned list; LinksFromEndpoints and MarkerYieldsLink give its targets and completeness |
| `GraphView.MarkerLinksShape` | components/GraphView.tsx:57-69 | No more links than markers; each leaves the scanned note and ends at the id of a note of the collection |
| `GraphView.MarkerLinksAllResolved` | components/GraphView.tsx:61-66 | When every marker resolves, the k-th link is the k-th marker's |
| `GraphView.MarkerLinksNoneResolved` | components/GraphView.tsx:64 | Markers that resolve to no title produce no link |
| `GraphView.LinksFromEndpoints` | components/GraphView.tsx:57-69 | Every link leaves a note of the collection and ends at one |
| `GraphView.MarkerYieldsLink` | components/GraphView.tsx:57-69 | A marker of note a that resolves to note b puts Link(a.id, b.id) among the links; self-links included |
| `GraphView.NoteLinks` | components/GraphView.tsx:59-68 | The inner loop pushes exactly the note's resolved markers, in marker order |
| `GraphView.CollectLinks` | components/GraphView.tsx:57-69 | The outer loop yields the links note by note, as `LinksFrom` specifies |
| `GraphView.HitTest` | components/GraphView.tsx:210-216 | None exactly when no node's circle of radius + 15 holds the pointer; otherwise the id of the first such node |
| `GraphView.CentreHits` | components/GraphView.tsx:210-214 | A pointer at the centre of any node of radius at least 8 hits some node |
| `GraphView.PaintedRadius` | components/GraphView.tsx:168 | A node is painted at least its radius, and larger exactly when it is hovered |
| `GraphView.LinkEmphasised` | components/GraphView.tsx:152 | A link is emphasised exactly when a node is hovered and it is either end; nothing is emphasised without a hover |
| `GraphView.FreshLabel` | components/GraphView.tsx:183 | An unhovered fresh node is labelled exactly when some note mentions its title |
| `GraphView.ShowsLabel` | components/GraphView.tsx:183 | The hovered node is always labelled; any other node exactly when its radius exceeds 12 |
| `GraphView.ClickEvents` | components/GraphView.tsx:223-228 | A click fires callbacks exactly when the hovered id is set and non-empty; then it fires select, then close |
| `GraphView.ClickOnCentreSelects` | components/GraphView.tsx:210-228 | A click after pointing at a node's centre selects that node or an earlier one, then closes the view |
| `GraphView.GraphState.constructor` | components/GraphView.tsx:31-33 | The references start empty and valid |
| `GraphView.GraphState.Rebuild` | components/GraphView.tsx:37-73 | Nodes become the rebuild of the old nodes, links become `LinksFrom`, the hovered id is untouched; every link's ends stay drawn nodes |
| `GraphView.GraphState.PointerMove` | components/GraphView.tsx:202-221 | The hovered id becomes the hit result; the host is told exactly when it differs from the previous one |
| `GraphView.GraphState.Click` | components/GraphView.tsx:223-228 | The callbacks fired are those of the hovered id |
| `NoteCard.WordCount` | components/NoteCard.tsx:43 | Splitting on whitespace runs yields at least one piece |
| `NoteCard.ReadingTime` | components/NoteCard.tsx:42-45 | At least one minute, and the ceiling of words / 200: (m - 1)·200 < w ≤ m·200 |
| `NoteCard.ReadingTimeOfOneWord` | components/NoteCard.tsx:43-44 | Text without whitespace, the empty note included, reads in one minute |
| `NoteCard.WordCountOfWords` | components/NoteCard.tsx:43 | Words joined by single spaces count one each |
| `NoteCard.WordCountWithPadding` | components/NoteCard.tsx:43 | A leading or a trailing space adds one empty piece to the count |
| `NoteCard.LinkPartLength` | components/NoteCard.tsx:70 | A part that starts with "[[" and ends with "]]" is at least 4 long |
| `NoteCard.SplitFromConcat` | components/NoteCard.tsx:67 | The split's parts concatenate to the text they came from |
| `NoteCard.SplitParts` | components/NoteCard.tsx:67 | A line splits into an odd number of parts whose concatenation is the line |
| `NoteCard.SplitFrom` | components/NoteCard.tsx:67 | The split from any scan position has an odd number of parts; SplitFromConcat, SplitFromCount, SplitFromMarker and SplitFromKinds give their values |
| `NoteCard.SplitFromCount` | components/NoteCard.tsx:67 | There are twice as many parts as matches of the marker scan, plus one |
| `NoteCard.SplitFromMarker` | components/NoteCard.tsx:67 | Part 2k+1 is the text of the k-th match of the same scan the graph uses |
| `NoteCard.TextPartLinkLike` | components/NoteCard.tsx:67-70 | Text between matches that looks like a link runs across a line break |
| `NoteCard.MatchIsMarkerPart` | components/NoteCard.tsx:67-70 | The text of a match is a link part on one line |
| `NoteCard.SplitFromKinds` | components/NoteCard.tsx:67-70 | Odd parts are link parts on one line; even parts look like links only across a line break |
| `NoteCard.BeforePipe` | components/NoteCard.tsx:72 | The first piece of the split at the pipe character is a pipe-free prefix of the raw text, ended by the first pipe or by the end |
| `NoteCard.ParsePart` | components/NoteCard.tsx:69-82 | A part is text exactly when it is no link part; a link navigates to the trimmed text before the first pipe and has trimmed target and caption |
| `NoteCard.LinkWithoutAlias` | components/NoteCard.tsx:71-79 | `[[t]]` navigates to trim(t) and shows trim(t) |
| `NoteCard.LinkWithAlias` | components/NoteCard.tsx:71-79 | A link with target t and non-empty alias a shows trim(a); pieces after a second pipe are dropped |
| `NoteCard.LinkWithEmptyAlias` | components/NoteCard.tsx:71-79 | `[[t pipe]]` and `[[t pipe pipe ...]]`: an empty alias falls back to showing trim(t) |
| `NoteCard.Tokens` | components/NoteCard.tsx:65-82 | One token per part of the line |
| `NoteCard.TokensOfMarker` | components/NoteCard.tsx:67-82 | The k-th marker of the line becomes the link token at position 2k+1 |
| `NoteCard.TokensTextStaysText` | components/NoteCard.tsx:67-82 | A text position yields a link token only if the line holds a line break |
| `NoteCard.MarkerTarget` | components/NoteCard.tsx:71-76 | A match's token navigates to the trimmed interior before its first pipe |
| `NoteCard.MatchInner` | components/NoteCard.tsx:71 | `part.slice(2, -2)` of a match is the match's interior |
| `NoteCard.TokenTarget` | components/NoteCard.tsx:67-76 | The k-th link token navigates to the k-th marker's trimmed text before its first pipe |
| `NoteCard.QuoteBody` | components/NoteCard.tsx:155 | `^>\s?` removes the '>' and at most one whitespace character, which it always removes when present |
| `NoteCard.HeaderLevel` | components/NoteCard.tsx:189-191 | The level is a count n in 1..6 for which n '#' followed by whitespace start the line; none when no count works |
| `NoteCard.HeaderMatchUnique` | components/NoteCard.tsx:189 | At most one count of '#' lets `^(#{1,6})\s` match |
| `NoteCard.BlankLineIsSpacer` | components/NoteCard.tsx:143-144 | A line is a spacer exactly when it is all whitespace |
| `NoteCard.DropCapOnlyOnParagraph` | components/NoteCard.tsx:209-210 | The drop-cap flag changes no line's kind and shows only on paragraphs |
| `NoteCard.RenderLine` | components/NoteCard.tsx:142-215 | A spacer exactly for a blank line; a paragraph carries the drop-cap flag and only when no rule, quote, task, bullet or header pattern matched the trimmed line |
| `NoteCard.BulletLine` | components/NoteCard.tsx:176-186 | A trimmed line matching `^[-*+]\s` but not the task pattern is a bullet of the text after the marker and its whitespace |
| `NoteCard.TaskBody` | components/NoteCard.tsx:160-174 | A task's text is the rest of the trimmed line after the checkbox and its whitespace |
| `NoteCard.HeaderBody` | components/NoteCard.tsx:188-206 | A header of level n has the text after the n '#' and one whitespace character |
| `NoteCard.ParagraphBody` | components/NoteCard.tsx:208-216 | A paragraph is built from the untrimmed line, surrounding whitespace included |
| `NoteCard.TaskChecked` | components/NoteCard.tsx:161-163 | A task is checked exactly when its bracket holds 'x' or 'X' |
| `NoteCard.TaskBeforeBullet` | components/NoteCard.tsx:160-177 | A task line also matches the bullet pattern and is still drawn as a task |
| `NoteCard.QuoteOfText` | components/NoteCard.tsx:152-155 | "> text" and ">text" are both quotes of text: the '>' and at most one whitespace character go |
| `NoteCard.RuleLine` | components/NoteCard.tsx:147 | "---", "***" and "___", with any whitespace around them, are horizontal rules |
| `NoteCard.HeaderLevelBounds` | components/NoteCard.tsx:189-191 | A header's level lies in 1..6 and is its count of leading '#' |
| `NoteCard.HeaderOfLevel` | components/NoteCard.tsx:189-191 | n '#' and whitespace, n in 1..6, make a header of level n |
| `NoteCard.SevenHashesIsParagraph` | components/NoteCard.tsx:189-214 | Seven or more leading '#' fall through to a paragraph |
| `NoteCard.FirstNonBlank` | components/NoteCard.tsx:133 | The index of the first non-blank line, every line before it blank; none when all are blank |
| `NoteCard.RenderContent` | components/NoteCard.tsx:131-142 | One block per '\n'-separated line: the number of newlines plus one |
| `NoteCard.RenderContentLine` | components/NoteCard.tsx:142-217 | Block i is line i drawn on its own, up to the drop-cap flag |
| `NoteCard.DropCapPlacement` | components/NoteCard.tsx:209-210 | A block has the drop cap exactly when it is on, the line is the first non-blank one, and the line is a paragraph |
| `NoteCard.DropCapAtMostOnce` | components/NoteCard.tsx:209-210 | At most one block has the drop cap |
| `App.FilterNotes` | App.tsx:114-128 | The category filter followed by the search filter keeps exactly the listed notes, as one filter |
| `App.ByCategory` | App.tsx:116-118 | The category stage passes a note exactly when a blank query lists it under that category |
| `App.MatchesQuery` | App.tsx:120-125 | An empty lowered query matches every note |
| `App.Listed` | App.tsx:114-128 | A listed note is in the active category; with all categories and a blank query every note is listed |
| `App.FilterNotesIsOneFilter` | App.tsx:114-128 | The two filter stages compose into the single "listed" filter in every case of category and query |
| `App.FilterNotesSelects` | App.tsx:114-128 | The filtered list is an order-preserving subsequence; every kept note is listed, and every listed note is kept as many times as it occurs |
| `App.FilterNotesShowsAll` | App.tsx:116-119 | With all categories and a whitespace-only query, every note is listed |
| `App.QueryIsNotTrimmed` | App.tsx:118-120 | A non-blank query opening with a space lists no note whose title, content and tags hold no space: the query is lower-cased but not trimmed |
| `App.AddNote` | App.tsx:138 | The new note comes first: the draft's title, content, category, language and tags under the temporary id and creation time; the others follow unchanged |
| `App.NewNote` | App.tsx:130-136 | The record has the temporary id and creation time, and without them it is the draft |
| `App.DeleteNote` | App.tsx:179 | No note with the id remains; every other note remains, in order, as many times as it occurred |
| `App.WithoutId` | App.tsx:179 | A list passes the delete filter throughout exactly when no note of it has the id |
| `App.DeleteAbsent` | App.tsx:179 | Deleting an id no note has changes nothing |
| `App.DeleteIdempotent` | App.tsx:179 | Deleting twice is deleting once |
| `App.ReplaceById` | App.tsx:194 | Same length; exactly the notes with the id are replaced |
| `App.EditNote` | App.tsx:194 | Same length and ids; notes with the edited id become the edited note, the rest are unchanged |
| `App.ConfirmAdd` | App.tsx:168 | Notes with the temporary id become the stored record; the rest are unchanged |
| `App.DeleteAfterAdd` | App.tsx:138-179 | Adding under a fresh temporary id and deleting that id restores the list |
| `App.ConfirmAfterAdd` | App.tsx:138-168 | Adding and confirming puts the stored record first and leaves the rest unchanged |
| `App.EditIdempotent` | App.tsx:194 | Editing twice with the same note is editing once |
| `App.DeleteAfterEdit` | App.tsx:179-194 | Deleting an edited note leaves what deleting the unedited one leaves |
| `App.Navigate` | App.tsx:261 | Some id exactly when the first note with an equal title up to case exists and has a non-empty id; then it is that note's id |
| `App.NavigateIgnoresCase` | App.tsx:318 | Navigating to a title and to its lower-case form agree |
| `App.NavigateToOwnTitle` | App.tsx:261 | With no other note sharing its title, navigating to a note's title reaches that note when its id is non-empty |
| `AdminPanel.DefaultTitle` | components/AdminPanel.tsx:93 | One trailing ".md" is removed; other names are kept |
| `AdminPanel.SplitFrontMatter` | components/AdminPanel.tsx:98-102 | Front matter is recognised only at the start; text = "---\n" + yaml + "\n---" + rest, with the shortest yaml |
| `AdminPanel.FrontMatterRoundTrip` | components/AdminPanel.tsx:98-102 | A file assembled from yaml without an inner "\n---" splits back into that yaml and rest |
| `AdminPanel.FieldValue` | components/AdminPanel.tsx:105 | A value exactly when the field occurs; the value lies on one line |
| `AdminPanel.FieldValueIsRestOfLine` | components/AdminPanel.tsx:105 | The value is the rest of the line of the field's first occurrence, after the whitespace that follows it |
| `AdminPanel.YamlTitle` | components/AdminPanel.tsx:105-106 | A title exactly when "title:" occurs; it is trimmed, quote-free and on one line |
| `AdminPanel.YamlTitleOfLine` | components/AdminPanel.tsx:105-106 | A first line `title: t` yields t |
| `AdminPanel.YamlTitleOfField` | components/AdminPanel.tsx:105-106 | The title is the rest of the first `title:` line with quotes removed, trimmed |
| `AdminPanel.YamlQuotedTitle` | components/AdminPanel.tsx:106 | `title: "t"` yields t |
| `AdminPanel.BracketClose` | components/AdminPanel.tsx:109 | The first ']' on the same line |
| `AdminPanel.BracketCaptureAt` | components/AdminPanel.tsx:109 | A bracket capture at i needs "tags:" at i; it has no ']' and no line break |
| `AdminPanel.FirstBracketMatch` | components/AdminPanel.tsx:109 | The leftmost position where the bracketed form matches; none when it matches nowhere |
| `AdminPanel.YamlTagsText` | components/AdminPanel.tsx:109 | A tag text exactly when "tags:" occurs |
| `AdminPanel.BracketTagsPreferred` | components/AdminPanel.tsx:109 | `tags: [list]` yields the list between the brackets |
| `AdminPanel.BracketLineWins` | components/AdminPanel.tsx:109 | A bracketed `tags:` line wins over a plain `tags:` line before it |
| `AdminPanel.PlainTagsLine` | components/AdminPanel.tsx:109 | Without any '[' the tag text is the rest of the first `tags:` line |
| `AdminPanel.YamlTags` | components/AdminPanel.tsx:111-112 | No piece is blank; no piece holds a comma, space, bracket or quote |
| `AdminPanel.YamlTagsOfJoin` | components/AdminPanel.tsx:111-112 | Tags written "a, b, c" split back into a, b, c when they are non-blank and free of separators, brackets and quotes |
| `AdminPanel.NextHashtag` | components/AdminPanel.tsx:124-126 | The leftmost '#' followed by word characters, taken to the end of the word run |
| `AdminPanel.Hashtags` | components/AdminPanel.tsx:124-128 | The words of the global scan, each non-empty and made of word characters |
| `AdminPanel.HashtagsStep` | components/AdminPanel.tsx:126-127 | One step of the scan: the first word, then the scan from the match's end |
| `AdminPanel.CollectHashtags` | components/AdminPanel.tsx:124-128 | The `exec` loop collects exactly the scan's words, in order |
| `AdminPanel.StripHeading` | components/AdminPanel.tsx:117-121 | The heading's title and the remaining content are both trimmed |
| `AdminPanel.AfterFrontMatter` | components/AdminPanel.tsx:97-114 | Without front matter the file name, text and no tags; with it the trimmed rest, the YAML title or else the file name, and the split YAML tags or else none |
| `AdminPanel.FrontMatterTitle` | components/AdminPanel.tsx:98-121 | With front matter and no heading after it, the imported title is the YAML title, or the file name when there is no `title:` |
| `AdminPanel.FrontMatterTags` | components/AdminPanel.tsx:109-131 | The imported tags begin with the front-matter tags, de-duplicated |
| `AdminPanel.ImportBracketTags` | components/AdminPanel.tsx:98-131 | Front matter `tags: [t0, t1, ...]` imports t0, t1, ... first |
| `AdminPanel.AfterHeading` | components/AdminPanel.tsx:116-121 | The tags are untouched; without a leading "# " nothing changes |
| `AdminPanel.ImportedTags` | components/AdminPanel.tsx:130-131 | The imported tags have no duplicates and, joined with ", ", give the tag field |
| `AdminPanel.ImportedTagsOrigin` | components/AdminPanel.tsx:124-131 | Front-matter tags, then hashtags, each kept once, in order of first appearance |
| `AdminPanel.HeadingGivesTitle` | components/AdminPanel.tsx:117-121 | A plain file opening with "# " takes its title from that line and loses it from the content |
| `AdminPanel.HeadingOverridesYamlTitle` | components/AdminPanel.tsx:100-121 | A heading after the front matter overrides any `title:` field |
| `AdminPanel.PlainFileKeepsName` | components/AdminPanel.tsx:93-121 | A plain file keeps the file name without ".md" and its whole text |
| `AdminPanel.ImportFile` | components/AdminPanel.tsx:92-135 | The handler's step-by-step reassignments and hashtag loop produce the parsed title, content and tag field |
| `AdminPanel.ImportNote` | components/AdminPanel.tsx:92-131 | Content is trimmed once front matter or a heading is found; a heading gives a trimmed title; a plain file keeps its name and text. FrontMatterTitle, HeadingGivesTitle and ImportedTagsOrigin give the values |
| `AdminPanel.SubmitTags` | components/AdminPanel.tsx:152 | Every submitted tag is non-empty, trimmed and free of commas |
| `AdminPanel.TrimAll` | components/AdminPanel.tsx:152 | Each piece is trimmed in place |
| `AdminPanel.SplitJoinedTags` | components/AdminPanel.tsx:152 | Splitting "t0, t1, ..." on ',' gives t0, " t1", " t2", ... |
| `AdminPanel.SubmitTagsRoundTrip` | components/AdminPanel.tsx:152 | Tags joined with ", " as the editor shows them and split on submit come back unchanged when non-empty, trimmed and comma-free |
| `AdminPanel.Submit` | components/AdminPanel.tsx:141-162 | Nothing without title or content; otherwise the edited note keeps its id and creation time and takes the form's title, content, category, language and split tags, or a new draft is made of them |
| `AdminPanel.FormFor` | components/AdminPanel.tsx:21-25 | The form shows the note's title and content, and its tag field splits back into the note's tags when they are non-empty, trimmed and comma-free |
| `AdminPanel.SaveUnchangedNote` | components/AdminPanel.tsx:21-153 | Opening a note and saving it untouched gives back the same note |
| `AdminPanel.SubmittableFormIsDrafted` | components/AdminPanel.tsx:78 | Any form a submit accepts is also autosaved; a form holding only tags is autosaved but refused on submit |
| `AdminPanel.ShouldSaveDraft` | components/AdminPanel.tsx:78 | A draft is saved exactly when some text was typed into title, content or tags |
| `Seqs.Dedup` | components/AdminPanel.tsx:131 | `Array.from(new Set(...))` keeps every element once and adds none |
| `Seqs.DedupKeepsFirstOccurrenceOrder` | components/AdminPanel.tsx:131 | The de-duplicated elements come in order of first occurrence |
| `Seqs.DedupExtends` | components/AdminPanel.tsx:131 | What is kept of a prefix stays in front of the de-duplicated list |
| `Seqs.FilterMultiset` | App.tsx:179 | A filter keeps every accepted element as many times as it occurs and adds nothing |
| `Strings.SplitOn` | components/NoteCard.tsx:132 | At least one piece; no piece holds the separator; one piece exactly when there is no separator |
| `Strings.SplitOnCount` | components/NoteCard.tsx:132 | There is one piece more than there are separators |
| `Strings.JoinSplitOn` | components/AdminPanel.tsx:118-120 | Joining the pieces of a split with the separator restores the text |
| `Strings.Trim` | components/NoteCard.tsx:143 | The result is trimmed and is the text between the leading and trailing whitespace |
| `Strings.TrimEmpty` | App.tsx:119 | A string trims to empty exactly when it is all whitespace |
| `Strings.SplitRuns` | components/NoteCard.tsx:43 | At least one piece, and no piece holds a separator character |
| `Strings.SplitRunsOfJoin` | components/NoteCard.tsx:43 | Splitting on runs returns the pieces of a join with a separator run, empty first and last pieces included |
| `Strings.SplitRunsLeadingRun` | components/NoteCard.tsx:43 | A leading run gives an empty first piece |
| `Strings.SplitRunsTrailingRun` | components/NoteCard.tsx:43 | A trailing run gives an empty last piece |
| `Strings.TrimAround` | components/NoteCard.tsx:143 | Trimming removes exactly the whitespace around a non-empty trimmed text |

## Left out

- The force simulation (components/GraphView.tsx:88-141) is floating-point physics run per animation frame. It has no exact behaviour to state, and node positions never change in this model after a rebuild.
- Canvas painting, animation-frame scheduling and window sizing are not modelled. Only the hover emphasis, painted radius and label predicates are: `LinkEmphasised`, `PaintedRadius` and `ShowsLabel`.
- Positions are exact reals. Floating-point rounding in `width / 2 + (rand - 0.5) * width * 0.5` and in the hit distance is not modelled. The hit test compares squared distances, which is the same test as the square-root comparison in exact arithmetic.
- Each note draws one random pair for x and y. The random values are parameters, and the rebuild consumes a pair even for a carried-over node.
- Link extraction runs on the list passed to the rebuild. React's effect scheduling and its dependency on the notes array are not modelled.
- The Supabase calls, the health check, localStorage drafts, the draft restore and `file.text()` are I/O and are left out. Their effect is reduced to the list each handler hands to the state setter. The rollback after a failed delete restores the list held before the call, which needs no model of its own.
- Inline formatting inside text tokens (highlight, strike-through, code, bold, italic; components/NoteCard.tsx:84-125) is not modelled. It works on React element arrays, and a `Text` token keeps its raw text.
- Clipboard, drag handling, timers, the mini-window stages, LoginModal, Header, translations and constants are presentation and plumbing.
- `toLowerCase` lowers ASCII letters only. Case mappings outside ASCII are not modelled.
- `AdminPanel.ShouldSaveDraft` is the autosave guard as a boolean. The 30-second interval and the write itself are not modelled.
- `AdminPanel.FormFor` mirrors the editor's initial fields for an existing note. It ignores the `|| ''` and category/language defaults, because they only matter for records with missing fields, and the `Note` datatype has none.
- `App.NewNote` takes the temporary id and the creation time as parameters, instead of `Math.random` and the clock.
- `App.CategoryFilter` is a closed choice between all categories and one `Category`. The source keeps the active category as a free string restored from localStorage (App.tsx:23-24); a stored value naming no category would list no note, and the model cannot express such a value.
