# Sprout keyword graph — a Dafny model

Sprout is a note-taking web application. Every note carries a list of
keywords, extracted by a language model when the note is created. The
application draws the notes as a graph: one node per note, and a link
between two notes whenever they share a keyword. The home page also has a
search box that narrows the note list. The details sheet of the selected
note lists its "Connected Ideas", which are the notes that share a keyword
with it.

This project models that logic and proves what it computes:

- `schema.dfy` (module `Schema`): the note record and its nullable keyword
  list (`Option<seq<string>>`).
- `seqs.dfy` (module `Seqs`): JavaScript's `Array.prototype.filter` as
  `Filter`, the order-preserving sub-list relation `IsSubsequence`, and
  multiset facts used to reason about reordered note lists.
- `graph_view.dfy` (module `GraphView`): the `graphData` builder and the
  hover and click handlers of `client/src/components/GraphView.tsx`.
  - The node list is the function `Nodes`.
  - The nested link loop is the method `BuildGraph`. It is proved equal to
    the specification `Links`. `Links` lists the ids of the linked index
    pairs `LinkedPairs`, row by row, in the order the loops visit them.
  - The lemmas then prove what the link list means: which pairs are linked,
    that no pair is linked twice, the count bound, isolated notes, and that
    reordering the notes leaves the set of edges unchanged.
- `home.dfy` (module `Home`): the search filter, the "Connected Ideas" list
  with its "No connections yet" message, and the selection rule of
  `handleDelete` in `client/src/pages/Home.tsx`. The lemmas tie the related
  list to the graph's links: a note is listed exactly when the graph links
  it to the selected note.

The builder is deterministic: `BuildGraph` always returns `Links(notes)`, so
rebuilding from the same notes gives the same links in the same order.

## Model

| member | source | states |
|---|---|---|
| `Schema.KeywordsOf` | client/src/components/GraphView.tsx:24 | a missing keyword list reads as the empty list; a present one is kept as it is |
| `GraphView.NodeOf` | client/src/components/GraphView.tsx:21-26 | a node has the note's id, title and keywords, and its weight is its number of keywords plus one (one when the list is missing) |
| `GraphView.Nodes` | client/src/components/GraphView.tsx:21-26 | one node per note, in input order, each with the note's id, title, keywords and weight |
| `GraphView.MeetsIff` | client/src/components/GraphView.tsx:37-39 | the keyword test used for links holds iff some keyword of the first list also occurs in the second |
| `GraphView.CommonKeywords` | client/src/components/GraphView.tsx:37-39 | the common-keyword list exists exactly when the first note has a keyword list, and it is non-empty exactly when the two notes share a keyword |
| `GraphView.BuildGraph` | client/src/components/GraphView.tsx:20-49 | the nested loop returns the node list and exactly the specified link list `Links(notes)` |
| `GraphView.LinkedPairsExactly` | client/src/components/GraphView.tsx:31-45 | positions (i, j) are linked iff i < j < n and some keyword of note i occurs in note j's keywords |
| `GraphView.SharesKeywordSymmetric` | client/src/components/GraphView.tsx:37 | the sharing relation is symmetric |
| `GraphView.AdjacentIffLinked` | client/src/components/GraphView.tsx:31-44 | two different positions share a keyword, in either order, iff the graph has their pair with the earlier position as source |
| `GraphView.EachPairLinkedOnce` | client/src/components/GraphView.tsx:31-44 | the linked pairs come in strictly increasing scan order, so no pair appears twice and never in both directions |
| `GraphView.LinkCountBound` | client/src/components/GraphView.tsx:31-32 | n notes give at most n(n-1)/2 links |
| `GraphView.NoKeywordsIsolated` | client/src/components/GraphView.tsx:37-39 | a note with a missing or empty keyword list is at neither end of any link |
| `GraphView.NoLinksIffNoSharing` | client/src/components/GraphView.tsx:31-46 | the link list is empty iff no two notes share a keyword |
| `GraphView.LinkIffAdjacent` | client/src/components/GraphView.tsx:39-43 | with distinct ids, the link between two positions, oriented from the earlier, is in the link list iff the positions are different and share a keyword |
| `GraphView.EachLinkOnce` | client/src/components/GraphView.tsx:31-44 | with distinct ids, no link joins a note to itself, and no link appears twice, in the same or the opposite direction |
| `GraphView.EdgeSetMembers` | client/src/components/GraphView.tsx:31-44 | an unordered id pair is an edge iff it is the ids of two different positions that share a keyword |
| `GraphView.ReorderKeepsEdges` | client/src/components/GraphView.tsx:31-44 | any rearrangement of the notes gives the same set of unordered edges |
| `GraphView.HandleNodeHover` | client/src/components/GraphView.tsx:57-61 | no node: empty highlight sets and no hover node; a node: exactly its id is highlighted and the highlighted links are the links touching that id, in original order, each as often as it occurs in the link list |
| `GraphView.HoverHighlightsIncidentLinks` | client/src/components/GraphView.tsx:57-59 | hovering any node carrying a note's id highlights only that id, and a link is highlighted iff it joins that note to an adjacent note |
| `GraphView.HoverLeavesNeighboursPlain` | client/src/components/GraphView.tsx:58-59 | when a node carrying a note's id is hovered, a neighbour of that note is not highlighted, though the link between them is |
| `GraphView.FindNote` | client/src/components/GraphView.tsx:78 | the result is the first note with the id, or nothing when no note has it |
| `GraphView.NodeClickSelection` | client/src/components/GraphView.tsx:76-79 | when some note has the node's id, the click selects the first such note; when none has it, the selection is unchanged |
| `GraphView.ClickSelectsNote` | client/src/components/GraphView.tsx:76-79 | with distinct ids, clicking a note's node selects that note |
| `GraphView.GardenGraph` | client/src/components/GraphView.tsx:31-59 | for notes 1 {gardening, ideas}, 2 {ideas, app}, 3 {water} the only link is (1, 2); hovering node 1 highlights node 1 and that link, hovering node 3 highlights node 3 and no link |
| `Home.FilteredNotes` | client/src/pages/Home.tsx:41-45 | the search result is an order-preserving sub-list of the notes holding exactly the notes whose title, content or some keyword contains the search text, ignoring case, each kept note as often as it occurs in the list |
| `Home.EmptySearchKeepsAll` | client/src/pages/Home.tsx:41-44 | an empty search keeps every note, in order |
| `Home.SearchIgnoresCase` | client/src/pages/Home.tsx:41-44 | search texts that differ only in letter case give the same list |
| `Home.LongerSearchNarrows` | client/src/pages/Home.tsx:41-44 | a search text containing another keeps a sub-list of what the other keeps |
| `Home.RelatedNotesExactly` | client/src/pages/Home.tsx:186-189 | the related list is an order-preserving sub-list holding exactly the notes with a different id that share a keyword with the selected note, each as often as it occurs in the list; it is empty without a selection |
| `Home.RelatedAgreesWithGraph` | client/src/pages/Home.tsx:186-188 | with distinct ids, a note is in the selected note's related list iff the graph links the two |
| `Home.NoConnectionsIffIsolated` | client/src/pages/Home.tsx:200-204 | "No connections yet" shows iff the selected note's node has no link in the graph |
| `Home.HandleDelete` | client/src/pages/Home.tsx:47-52 | a delete is sent only when confirmed; the selection is cleared iff the confirmed delete targets the selected note, and is otherwise unchanged |
| `Home.DeleteKeepsSelectionListed` | client/src/pages/Home.tsx:47-52 | after a confirmed delete, a selection taken from the list is still in the list without the deleted note |
| `Home.DeleteTwiceSameSelection` | client/src/pages/Home.tsx:47-52 | deleting the same id a second time leaves the selection as the first delete left it |

## Left out

- Rendering and physics of the force-directed graph, including `centerAt`, `zoom`, colours and d3 decay parameters. This is third-party floating-point simulation. Links are modelled as id pairs, not as the node objects the library later swaps in.
- Theme detection and toggling through `document.documentElement` and `matchMedia`. This is global DOM state.
- Home.LowerChar: `toLowerCase` is modelled for the ASCII letters A–Z only. Every other character is left unchanged, because full Unicode case mapping is not modelled.
- GraphView.HandleNodeHover: the highlight sets are JavaScript `Set`s of link objects. They are modelled as a sequence in insertion order. Object identity is not modelled.
- The loading state of the note list (`isLoading`, `notes` still undefined) is not modelled. The lists are the loaded notes.
- The `confirm` dialog is a boolean parameter of `Home.HandleDelete`. The network call `deleteNote.mutate` is its `deleted` field.
- `Home.WithoutNote` assumes the store deletes every note with that id and the list is then fetched again. It does not model the network round trip or its failure.
- `createdAt` and the owner of a note are not modelled. They are only displayed or used for access control.
- Keyword extraction on the server (`server/routes.ts`), the store and the schema (`server/storage.ts`, `shared/schema.ts`), authentication, routing, the rich-text editor, the note forms and the note card are not part of this model. They are UI, HTTP, ORM or language-model calls.
- Ids are serial primary keys. The link loop compares positions, not ids, so two notes sharing an id would give a link with that id at both ends. The model follows the code, and `UniqueIds` is required only by the lemmas that talk about links by id.
