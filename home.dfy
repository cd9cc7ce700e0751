/** The home page of `client/src/pages/Home.tsx`: the search box that
 *  narrows the note list, the "Connected Ideas" list of the selected note,
 *  and what deleting a note does to the selection. */
module Home {
  import opened Schema
  import opened Seqs
  import opened GraphView

  // ---------------------------------------------------------------------
  // Case folding and substring search

  /** `toLowerCase` on one character, for the ASCII letters only. */
  function LowerChar(c: char): char
  {
    if 'A' <= c <= 'Z' then (c as int - 'A' as int + 'a' as int) as char else c
  }

  function Lower(s: string): string
  {
    seq(|s|, i requires 0 <= i < |s| => LowerChar(s[i]))
  }

  /** `hay.includes(needle)`: `needle` occurs in `hay` at some position. */
  predicate Contains(hay: string, needle: string)
  {
    exists i :: 0 <= i <= |hay| && needle <= hay[i..]
  }

  // ---------------------------------------------------------------------
  // Search

  /** The search predicate: the lower-cased search text occurs in the
   *  lower-cased title, content, or one of the keywords. */
  predicate Matches(n: Note, search: string)
  {
    Contains(Lower(n.title), Lower(search)) ||
    Contains(Lower(n.content), Lower(search)) ||
    (n.keywords.Some? && exists k :: k in n.keywords.value && Contains(Lower(k), Lower(search)))
  }

  /** `filteredNotes`: the notes the search keeps, in list order. */
  function FilteredNotes(notes: seq<Note>, search: string): (r: seq<Note>)
    ensures IsSubsequence(r, notes)
    ensures forall n :: n in r <==> n in notes && Matches(n, search)
    ensures forall n :: multiset(r)[n] == if Matches(n, search) then multiset(notes)[n] else 0
  {
    Filter(notes, (n: Note) => Matches(n, search))
  }

  lemma EmptyContained(hay: string)
    ensures Contains(hay, "")
  {
    assert "" <= hay[0..];
  }

  /** An empty search keeps every note. */
  lemma EmptySearchKeepsAll(notes: seq<Note>)
    ensures FilteredNotes(notes, "") == notes
  {
    forall n | n in notes
      ensures Matches(n, "")
    {
      EmptyContained(Lower(n.title));
    }
  }

  /** Search texts that differ only in the case of their letters keep the
   *  same notes. */
  lemma SearchIgnoresCase(notes: seq<Note>, search: string, other: string)
    requires Lower(search) == Lower(other)
    ensures FilteredNotes(notes, search) == FilteredNotes(notes, other)
  {
    FilterCongruent(notes, (n: Note) => Matches(n, search), (n: Note) => Matches(n, other));
  }

  lemma LowerSlice(s: string, i: nat, j: nat)
    requires i <= j <= |s|
    ensures Lower(s)[i..j] == Lower(s[i..j])
  {
  }

  lemma LowerKeepsContains(hay: string, needle: string)
    requires Contains(hay, needle)
    ensures Contains(Lower(hay), Lower(needle))
  {
    var i :| 0 <= i <= |hay| && needle <= hay[i..];
    assert hay[i..i + |needle|] == needle;
    LowerSlice(hay, i, i + |needle|);
    assert Lower(needle) <= Lower(hay)[i..];
  }

  lemma ContainsTransitive(a: string, b: string, c: string)
    requires Contains(a, b) && Contains(b, c)
    ensures Contains(a, c)
  {
    var i :| 0 <= i <= |a| && b <= a[i..];
    var j :| 0 <= j <= |b| && c <= b[j..];
    assert a[i + j..i + j + |c|] == b[j..j + |c|];
    assert c <= a[i + j..];
  }

  /** Typing more search text only ever narrows the list: a search text that
   *  contains another keeps a sub-list of what the shorter one keeps. */
  lemma LongerSearchNarrows(notes: seq<Note>, search: string, longer: string)
    requires Contains(longer, search)
    ensures IsSubsequence(FilteredNotes(notes, longer), FilteredNotes(notes, search))
  {
    LowerKeepsContains(longer, search);
    forall n | n in notes && Matches(n, longer)
      ensures Matches(n, search)
    {
      if Contains(Lower(n.title), Lower(longer)) {
        ContainsTransitive(Lower(n.title), Lower(longer), Lower(search));
      } else if Contains(Lower(n.content), Lower(longer)) {
        ContainsTransitive(Lower(n.content), Lower(longer), Lower(search));
      } else {
        var k :| k in n.keywords.value && Contains(Lower(k), Lower(longer));
        ContainsTransitive(Lower(k), Lower(longer), Lower(search));
      }
    }
    FilterMonotone(notes, (n: Note) => Matches(n, search), (n: Note) => Matches(n, longer));
  }

  // ---------------------------------------------------------------------
  // Connected Ideas

  /** The "Connected Ideas" test: another id than the selected note's, and a
   *  keyword that the selected note's keyword list includes. Without a
   *  selection no note passes, since `includes` is never reached. */
  predicate IsRelated(n: Note, selected: Option<Note>)
  {
    (selected.None? || n.id != selected.value.id) &&
    n.keywords.Some? &&
    exists k :: k in n.keywords.value &&
      selected.Some? && selected.value.keywords.Some? && k in selected.value.keywords.value
  }

  function RelatedNotes(notes: seq<Note>, selected: Option<Note>): seq<Note>
  {
    Filter(notes, (n: Note) => IsRelated(n, selected))
  }

  /** "No connections yet" is shown when the related list is empty. */
  predicate ShowsNoConnections(notes: seq<Note>, selected: Option<Note>)
  {
    |RelatedNotes(notes, selected)| == 0
  }

  /** The related list keeps, in list order, exactly the notes with another
   *  id than the selected one that share a keyword with it. */
  lemma RelatedNotesExactly(notes: seq<Note>, selected: Option<Note>)
    ensures IsSubsequence(RelatedNotes(notes, selected), notes)
    ensures selected.None? ==> RelatedNotes(notes, selected) == []
    ensures selected.Some? ==> forall n :: n in RelatedNotes(notes, selected) <==>
      n in notes && n.id != selected.value.id && SharesKeyword(selected.value, n)
    ensures selected.Some? ==> forall n ::
      multiset(RelatedNotes(notes, selected))[n] ==
      if n.id != selected.value.id && SharesKeyword(selected.value, n) then multiset(notes)[n] else 0
  {
    if selected.Some? {
      forall n ensures IsRelated(n, selected) <==> n.id != selected.value.id && SharesKeyword(selected.value, n) {
        if n.keywords.Some? && selected.value.keywords.Some? {
          MeetsIff(selected.value.keywords.value, n.keywords.value);
        }
      }
    }
  }

  /** For a selected note from the list, a note is in its "Connected Ideas"
   *  exactly when the graph links the two. */
  lemma RelatedAgreesWithGraph(notes: seq<Note>, s: nat, k: nat)
    requires UniqueIds(notes) && s < |notes| && k < |notes|
    ensures notes[k] in RelatedNotes(notes, Some(notes[s])) <==> Oriented(notes, s, k) in Links(notes)
  {
    RelatedNotesExactly(notes, Some(notes[s]));
    LinkIffAdjacent(notes, s, k);
  }

  /** "No connections yet" is shown exactly when the selected note's node has
   *  no link in the graph. */
  lemma NoConnectionsIffIsolated(notes: seq<Note>, s: nat)
    requires UniqueIds(notes) && s < |notes|
    ensures ShowsNoConnections(notes, Some(notes[s])) <==>
      forall j: nat :: j < |notes| ==> Oriented(notes, s, j) !in Links(notes)
  {
    var r := RelatedNotes(notes, Some(notes[s]));
    if r != [] {
      assert r[0] in r;
      var j :| 0 <= j < |notes| && notes[j] == r[0];
      RelatedAgreesWithGraph(notes, s, j);
    }
    forall j: nat | j < |notes| && Oriented(notes, s, j) in Links(notes)
      ensures r != []
    {
      RelatedAgreesWithGraph(notes, s, j);
    }
  }

  // ---------------------------------------------------------------------
  // Delete

  /** What `handleDelete` does: the note is deleted only after the user
   *  confirms, and a confirmed delete of the selected note clears the
   *  selection. */
  datatype DeleteOutcome = DeleteOutcome(deleted: Option<int>, selected: Option<Note>)

  function HandleDelete(selected: Option<Note>, id: int, confirmed: bool): (o: DeleteOutcome)
    ensures o.deleted == (if confirmed then Some(id) else None)
    ensures o.selected.None? <==> selected.None? || (confirmed && selected.value.id == id)
    ensures o.selected.Some? ==> o.selected == selected
  {
    if !confirmed then DeleteOutcome(None, selected)
    else DeleteOutcome(Some(id), if selected.Some? && selected.value.id == id then None else selected)
  }

  /** The list after the store has deleted every note with the given id. */
  function WithoutNote(notes: seq<Note>, id: int): seq<Note>
  {
    Filter(notes, (n: Note) => n.id != id)
  }

  /** A selection taken from the list is still in the list once the deleted
   *  note is gone: the details sheet never shows a deleted note. */
  lemma DeleteKeepsSelectionListed(notes: seq<Note>, selected: Option<Note>, id: int)
    requires selected.Some? ==> selected.value in notes
    ensures HandleDelete(selected, id, true).selected.Some? ==>
      HandleDelete(selected, id, true).selected.value in WithoutNote(notes, id)
  {
  }

  /** Deleting the same note a second time leaves the selection alone. */
  lemma DeleteTwiceSameSelection(selected: Option<Note>, id: int)
    ensures HandleDelete(HandleDelete(selected, id, true).selected, id, true).selected ==
      HandleDelete(selected, id, true).selected
  {
  }
}
