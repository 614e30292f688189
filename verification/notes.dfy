/** The note record shared by every component, and the case-insensitive title
    lookup that both the graph (link resolution) and the app (navigation) use. */
module Notes {
  import opened Seqs
  import opened Strings

  datatype Category = Philosophy | Language | Reflection | General

  datatype AppLanguage = En | Ru | Fr | De

  datatype Note = Note(
    id: string,
    title: string,
    content: string,
    category: Category,
    language: AppLanguage,
    createdAt: string,
    tags: seq<string>)

  /** A note as the editor hands it over, before it has an id and a creation time. */
  datatype NoteDraft = NoteDraft(
    title: string,
    content: string,
    category: Category,
    language: AppLanguage,
    tags: seq<string>)

  /** The string value of each category. */
  function CategoryName(c: Category): string {
    match c
    case Philosophy => "Philosophy"
    case Language => "Language"
    case Reflection => "Reflection"
    case General => "General"
  }

  /** `a.toLowerCase() === b.toLowerCase()` */
  predicate SameTitle(a: string, b: string) {
    LowerStr(a) == LowerStr(b)
  }

  /** `notes.find(n => n.title.toLowerCase() === title.toLowerCase())`, as an index. */
  function FirstTitleMatch(notes: seq<Note>, title: string): (r: Option<nat>)
    ensures r.Some? ==> r.value < |notes| && SameTitle(notes[r.value].title, title)
    ensures r.Some? ==> forall j :: 0 <= j < r.value ==> !SameTitle(notes[j].title, title)
    ensures r.None? ==> forall j :: 0 <= j < |notes| ==> !SameTitle(notes[j].title, title)
  {
    FindFirst(notes, (n: Note) => SameTitle(n.title, title))
  }

  /** Looking up a note's own title, in any letter case, finds that note or an earlier one. */
  lemma OwnTitleResolves(notes: seq<Note>, i: nat, title: string)
    requires i < |notes| && SameTitle(notes[i].title, title)
    ensures FirstTitleMatch(notes, title).Some? && FirstTitleMatch(notes, title).value <= i
  {
  }

  predicate HasId(notes: seq<Note>, id: string) {
    exists i :: 0 <= i < |notes| && notes[i].id == id
  }
}
