/** The note record shared by client and server (`shared/schema.ts`), as far
 *  as the keyword graph and the home page read it. */
module Schema {

  datatype Option<T> = None | Some(value: T)

  /** A stored note. `keywords` is a nullable text array column: `None` is
   *  SQL NULL / JavaScript `null`, distinct from an empty list. */
  datatype Note = Note(id: int, title: string, content: string, keywords: Option<seq<string>>)

  /** `n.keywords || []`: a missing list reads as the empty list (an empty
   *  JavaScript array is truthy, so it is kept as it is). */
  function KeywordsOf(n: Note): (r: seq<string>)
    ensures n.keywords.Some? ==> r == n.keywords.value
    ensures n.keywords.None? ==> r == []
  {
    if n.keywords.Some? then n.keywords.value else []
  }

  /** The store assigns every note its own serial primary key. */
  ghost predicate UniqueIds(notes: seq<Note>)
  {
    forall a, b :: 0 <= a < b < |notes| ==> notes[a].id != notes[b].id
  }
}
