/** The application's note list: the filtered view shown on the page, the list
    updates behind adding, confirming, editing and deleting a note, and the title
    lookup behind wiki-link navigation. Storage and the database round trips are
    not modelled; each operation is the pure list it hands to the state setter. */
module App {
  import opened Seqs
  import opened Strings
  import opened Notes

  /** The category tabs: every category, or one. */
  datatype CategoryFilter = AllCategories | Only(category: Category)

  // ---------------------------------------------------------------- filtering

  /** The category stage: a note passes exactly when a blank query lists it under that category. */
  function ByCategory(c: Category): (r: Note -> bool)
    ensures forall n :: r(n) <==> Listed(Only(c), "", n)
  {
    (n: Note) => n.category == c
  }

  /** `title`, `content` or some tag, lower-cased, contains `q` (already lower-cased). */
  function MatchesQuery(n: Note, q: string): (r: bool)
    ensures q == [] ==> r
  {
    assert q == [] ==> OccursAt(LowerStr(n.title), q, 0);
    Contains(LowerStr(n.title), q) || Contains(LowerStr(n.content), q)
    || exists i :: 0 <= i < |n.tags| && Contains(LowerStr(n.tags[i]), q)
  }

  function ByQuery(q: string): Note -> bool {
    (n: Note) => MatchesQuery(n, q)
  }

  /** Whether the page lists a note: it is in the active category, and the query is
      blank or, lower-cased but not trimmed, found in the note. */
  function Listed(active: CategoryFilter, query: string, n: Note): (r: bool)
    ensures r ==> active.AllCategories? || n.category == active.category
    ensures active.AllCategories? && Trim(query) == [] ==> r
  {
    (active.AllCategories? || n.category == active.category)
    && (Trim(query) == [] || MatchesQuery(n, LowerStr(query)))
  }

  function ListedBy(active: CategoryFilter, query: string): Note -> bool {
    (n: Note) => Listed(active, query, n)
  }

  /** `filteredNotes`: the category filter, then the search filter when the query is not blank. */
  function FilterNotes(notes: seq<Note>, active: CategoryFilter, query: string): (r: seq<Note>)
    ensures r == Filter(notes, ListedBy(active, query))
  {
    var byCategory := if active.AllCategories? then notes else Filter(notes, ByCategory(active.category));
    var r := if Trim(query) != [] then Filter(byCategory, ByQuery(LowerStr(query))) else byCategory;
    FilterNotesIsOneFilter(notes, active, query);
    r
  }

  /** The two successive filters select exactly the listed notes. */
  lemma FilterNotesIsOneFilter(notes: seq<Note>, active: CategoryFilter, query: string)
    ensures var byCategory := if active.AllCategories? then notes else Filter(notes, ByCategory(active.category));
      (if Trim(query) != [] then Filter(byCategory, ByQuery(LowerStr(query))) else byCategory)
      == Filter(notes, ListedBy(active, query))
  {
    var keep := ListedBy(active, query);
    var q := LowerStr(query);
    if active.AllCategories? {
      if Trim(query) != [] {
        FilterKeepsAll(notes, (n: Note) => true);
        FilterFilter(notes, (n: Note) => true, ByQuery(q), keep);
      } else {
        FilterKeepsAll(notes, keep);
      }
    } else {
      var c := active.category;
      if Trim(query) != [] {
        FilterFilter(notes, ByCategory(c), ByQuery(q), keep);
      } else {
        FilterFilter(notes, ByCategory(c), (n: Note) => true, keep);
        FilterKeepsAll(Filter(notes, ByCategory(c)), (n: Note) => true);
      }
    }
  }

  /** The filtered list keeps the order of `notes`, lists only notes that pass both
      filters, and omits none that does. */
  lemma FilterNotesSelects(notes: seq<Note>, active: CategoryFilter, query: string)
    ensures IsSubsequence(FilterNotes(notes, active, query), notes)
    ensures forall i :: 0 <= i < |FilterNotes(notes, active, query)| ==>
      Listed(active, query, FilterNotes(notes, active, query)[i])
    ensures forall i :: 0 <= i < |notes| && Listed(active, query, notes[i]) ==>
      multiset(FilterNotes(notes, active, query))[notes[i]] == multiset(notes)[notes[i]]
    ensures multiset(FilterNotes(notes, active, query)) <= multiset(notes)
  {
    FilterMultiset(notes, ListedBy(active, query));
  }

  /** With every category shown and a query made only of whitespace, every note is listed. */
  lemma FilterNotesShowsAll(notes: seq<Note>, query: string)
    requires forall c :: c in query ==> IsSpace(c)
    ensures FilterNotes(notes, AllCategories, query) == notes
  {
    TrimEmpty(query);
    FilterKeepsAll(notes, ListedBy(AllCategories, query));
  }

  /** Leading spaces are part of the search text: a query that opens with a space
      and is not blank lists no note whose title, content and tags hold no space. */
  lemma QueryIsNotTrimmed(notes: seq<Note>, w: string)
    requires w != [] && !IsSpace(w[0])
    requires forall i :: 0 <= i < |notes| ==> (' ' !in notes[i].title && ' ' !in notes[i].content
      && forall k :: 0 <= k < |notes[i].tags| ==> ' ' !in notes[i].tags[k])
    ensures FilterNotes(notes, AllCategories, " " + w) == []
  {
    var query := " " + w;
    var q := LowerStr(query);
    assert q[0] == ' ';
    assert Trim(query) != [] by {
      SkipWhileAt(query, 0, 1, IsSpace);
      assert query[1] == w[0];
    }
    forall i | 0 <= i < |notes| ensures !Listed(AllCategories, query, notes[i]) {
      var n := notes[i];
      NoSpaceNoMatch(n.title, q);
      NoSpaceNoMatch(n.content, q);
      forall k | 0 <= k < |n.tags| ensures !Contains(LowerStr(n.tags[k]), q) {
        NoSpaceNoMatch(n.tags[k], q);
      }
    }
  }

  /** A text without spaces, lower-cased, contains no pattern that opens with a space. */
  lemma NoSpaceNoMatch(field: string, q: string)
    requires ' ' !in field && q != [] && q[0] == ' '
    ensures !Contains(LowerStr(field), q)
  {
    var f := LowerStr(field);
    forall i | 0 <= i <= |f| ensures !OccursAt(f, q, i) {
      if i + |q| <= |f| {
        assert f[i..i + |q|][0] == f[i] == Lower(field[i]);
        assert field[i] in field;
      }
    }
  }

  // ---------------------------------------------------------------- list updates

  /** The optimistic record built from the editor's draft, with a temporary id and the creation time. */
  function NewNote(draft: NoteDraft, tempId: string, createdAt: string): (r: Note)
    ensures r.id == tempId && r.createdAt == createdAt
    ensures NoteDraft(r.title, r.content, r.category, r.language, r.tags) == draft
  {
    Note(tempId, draft.title, draft.content, draft.category, draft.language, createdAt, draft.tags)
  }

  /** `[newNote, ...notes]` */
  function AddNote(notes: seq<Note>, draft: NoteDraft, tempId: string, createdAt: string): (r: seq<Note>)
    ensures |r| == |notes| + 1
    ensures r[0] == Note(tempId, draft.title, draft.content, draft.category, draft.language, createdAt, draft.tags)
    ensures forall i :: 0 <= i < |notes| ==> r[i + 1] == notes[i]
  {
    [NewNote(draft, tempId, createdAt)] + notes
  }

  /** The predicate of the delete filter: a list passes it throughout exactly when no note of it has the id. */
  function WithoutId(id: string): (r: Note -> bool)
    ensures forall ns: seq<Note> {:trigger HasId(ns, id)} :: (forall i :: 0 <= i < |ns| ==> r(ns[i])) <==> !HasId(ns, id)
  {
    (n: Note) => n.id != id
  }

  /** `notes.filter(n => n.id !== id)` */
  function DeleteNote(notes: seq<Note>, id: string): (r: seq<Note>)
    ensures forall i :: 0 <= i < |r| ==> r[i].id != id && r[i] in notes
    ensures forall i :: 0 <= i < |notes| && notes[i].id != id ==> notes[i] in r
    ensures IsSubsequence(r, notes)
    ensures multiset(r) <= multiset(notes)
    ensures forall i :: 0 <= i < |notes| && notes[i].id != id ==> multiset(r)[notes[i]] == multiset(notes)[notes[i]]
  {
    FilterMultiset(notes, WithoutId(id));
    Filter(notes, WithoutId(id))
  }

  /** Deleting an id no note has changes nothing. */
  lemma DeleteAbsent(notes: seq<Note>, id: string)
    requires !HasId(notes, id)
    ensures DeleteNote(notes, id) == notes
  {
    FilterKeepsAll(notes, WithoutId(id));
  }

  /** Deleting twice is deleting once. */
  lemma DeleteIdempotent(notes: seq<Note>, id: string)
    ensures DeleteNote(DeleteNote(notes, id), id) == DeleteNote(notes, id)
  {
    FilterFilter(notes, WithoutId(id), WithoutId(id), WithoutId(id));
  }

  /** `notes.map(n => n.id === id ? replacement : n)` */
  function ReplaceById(notes: seq<Note>, id: string, replacement: Note): (r: seq<Note>)
    ensures |r| == |notes|
    ensures forall i :: 0 <= i < |notes| ==> r[i] == (if notes[i].id == id then replacement else notes[i])
  {
    seq(|notes|, i requires 0 <= i < |notes| => if notes[i].id == id then replacement else notes[i])
  }

  /** `handleEditNote`: the notes sharing the edited note's id become the edited note. */
  function EditNote(notes: seq<Note>, updated: Note): (r: seq<Note>)
    ensures |r| == |notes|
    ensures forall i :: 0 <= i < |notes| ==> r[i].id == notes[i].id
    ensures forall i :: 0 <= i < |notes| && notes[i].id != updated.id ==> r[i] == notes[i]
    ensures forall i :: 0 <= i < |notes| && notes[i].id == updated.id ==> r[i] == updated
  {
    ReplaceById(notes, updated.id, updated)
  }

  /** `handleAddNote` after the insert returns: the temporary record becomes the stored one. */
  function ConfirmAdd(notes: seq<Note>, tempId: string, stored: Note): (r: seq<Note>)
    ensures |r| == |notes|
    ensures forall i :: 0 <= i < |notes| && notes[i].id != tempId ==> r[i] == notes[i]
    ensures forall i :: 0 <= i < |notes| && notes[i].id == tempId ==> r[i] == stored
  {
    ReplaceById(notes, tempId, stored)
  }

  /** Adding a note under a fresh temporary id and then deleting that id restores the list. */
  lemma DeleteAfterAdd(notes: seq<Note>, draft: NoteDraft, tempId: string, createdAt: string)
    requires !HasId(notes, tempId)
    ensures DeleteNote(AddNote(notes, draft, tempId, createdAt), tempId) == notes
  {
    var added := AddNote(notes, draft, tempId, createdAt);
    assert added[1..] == notes;
    DeleteAbsent(notes, tempId);
  }

  /** Adding under a fresh temporary id and confirming puts the stored record first
      and leaves the rest as it was. */
  lemma ConfirmAfterAdd(notes: seq<Note>, draft: NoteDraft, tempId: string, createdAt: string, stored: Note)
    requires !HasId(notes, tempId)
    ensures ConfirmAdd(AddNote(notes, draft, tempId, createdAt), tempId, stored) == [stored] + notes
  {
    var r := ConfirmAdd(AddNote(notes, draft, tempId, createdAt), tempId, stored);
    forall i | 0 < i < |r| ensures r[i] == notes[i - 1] {
      assert AddNote(notes, draft, tempId, createdAt)[i] == notes[i - 1];
    }
  }

  /** Editing the same note twice is editing it once. */
  lemma EditIdempotent(notes: seq<Note>, updated: Note)
    ensures EditNote(EditNote(notes, updated), updated) == EditNote(notes, updated)
  {
  }

  /** Deleting an edited note leaves what deleting it unedited leaves. */
  lemma {:induction false} DeleteAfterEdit(notes: seq<Note>, updated: Note)
    ensures DeleteNote(EditNote(notes, updated), updated.id) == DeleteNote(notes, updated.id)
  {
    if notes != [] {
      var e := EditNote(notes, updated);
      DeleteAfterEdit(notes[1..], updated);
      assert e[1..] == EditNote(notes[1..], updated);
    }
  }

  // ---------------------------------------------------------------- navigation

  /** `notes.find(n => n.title.toLowerCase() === title.toLowerCase())?.id || null`:
      a first match with an empty id navigates nowhere. */
  function Navigate(notes: seq<Note>, title: string): (r: Option<string>)
    ensures r.Some? <==> exists j :: 0 <= j < |notes| && SameTitle(notes[j].title, title) && notes[j].id != ""
                                     && forall i :: 0 <= i < j ==> !SameTitle(notes[i].title, title)
    ensures r.Some? ==> r.value != "" && exists j :: 0 <= j < |notes| && notes[j].id == r.value
                                                   && SameTitle(notes[j].title, title)
                                                   && forall i :: 0 <= i < j ==> !SameTitle(notes[i].title, title)
  {
    match FirstTitleMatch(notes, title) {
      case Some(j) => if notes[j].id == "" then None else Some(notes[j].id)
      case None => None
    }
  }

  lemma LowerIdempotent(s: string)
    ensures LowerStr(LowerStr(s)) == LowerStr(s)
  {
  }

  /** Navigation ignores the letter case of the requested title. */
  lemma NavigateIgnoresCase(notes: seq<Note>, title: string)
    ensures Navigate(notes, title) == Navigate(notes, LowerStr(title))
  {
    LowerIdempotent(title);
    assert forall n: Note :: SameTitle(n.title, title) == SameTitle(n.title, LowerStr(title));
    assert FirstTitleMatch(notes, title) == FirstTitleMatch(notes, LowerStr(title)) by {
      var a := FirstTitleMatch(notes, title);
      var b := FirstTitleMatch(notes, LowerStr(title));
      if a.Some? && b.Some? {
        assert !(a.value < b.value) && !(b.value < a.value);
      }
    }
  }

  /** When no other note has the same title up to case, navigating to a note's own
      title reaches that note, provided its id is not empty. */
  lemma NavigateToOwnTitle(notes: seq<Note>, i: nat)
    requires i < |notes| && notes[i].id != ""
    requires forall j :: 0 <= j < |notes| && j != i ==> !SameTitle(notes[j].title, notes[i].title)
    ensures Navigate(notes, notes[i].title) == Some(notes[i].id)
  {
  }
}
