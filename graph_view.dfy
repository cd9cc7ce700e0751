/** The keyword relationship graph of `client/src/components/GraphView.tsx`:
 *  one node per note, one link per pair of notes that share a keyword, and
 *  the highlight sets computed when the mouse hovers over a node. */
module GraphView {
  import opened Schema
  import opened Seqs

  /** A graph node. `val` is the size the renderer draws the node at. */
  datatype Node = Node(id: int, title: string, keywords: seq<string>, val: nat)

  /** A link between two notes, by id. The renderer later swaps the ids for
   *  node objects; the hover handler reads them back through `.id`. */
  datatype Link = Link(source: int, target: int)

  datatype GraphData = GraphData(nodes: seq<Node>, links: seq<Link>)

  /** The three pieces of view state that a hover sets. */
  datatype Highlight = Highlight(nodes: set<int>, links: seq<Link>, hoverNode: Option<Node>)

  // ---------------------------------------------------------------------
  // Nodes

  /** The node for one note; its weight is its number of keywords plus one. */
  function NodeOf(n: Note): (r: Node)
    ensures r.id == n.id && r.title == n.title && r.keywords == KeywordsOf(n)
    ensures r.val == |r.keywords| + 1
  {
    Node(n.id, n.title, KeywordsOf(n), (if n.keywords.Some? then |n.keywords.value| else 0) + 1)
  }

  /** `notes.map(...)`: the nodes correspond one to one, in order, to the notes. */
  function Nodes(notes: seq<Note>): (r: seq<Node>)
    ensures |r| == |notes|
    ensures forall k {:trigger r[k]} :: 0 <= k < |r| ==>
      r[k].id == notes[k].id && r[k].title == notes[k].title &&
      r[k].keywords == KeywordsOf(notes[k]) && r[k].val == |KeywordsOf(notes[k])| + 1
  {
    if notes == [] then [] else [NodeOf(notes[0])] + Nodes(notes[1..])
  }

  // ---------------------------------------------------------------------
  // The link predicate

  /** Some element of `xs` also occurs in `ys`. */
  predicate Meets(xs: seq<string>, ys: seq<string>)
  {
    xs != [] && (xs[0] in ys || Meets(xs[1..], ys))
  }

  lemma {:induction false} MeetsIff(xs: seq<string>, ys: seq<string>)
    ensures Meets(xs, ys) <==> exists k :: k in xs && k in ys
  {
    if xs != [] {
      MeetsIff(xs[1..], ys);
      assert forall k :: k in xs <==> k == xs[0] || k in xs[1..];
    }
  }

  /** Two notes are related when both have a keyword list and some keyword of
   *  the first occurs in the second. */
  predicate SharesKeyword(a: Note, b: Note)
  {
    a.keywords.Some? && b.keywords.Some? && Meets(a.keywords.value, b.keywords.value)
  }

  /** `a.keywords?.filter(k => b.keywords?.includes(k))`: the keywords of `a`
   *  also present in `b`, or nothing when `a` has no keyword list. */
  function CommonKeywords(a: Note, b: Note): (r: Option<seq<string>>)
    ensures r.Some? <==> a.keywords.Some?
    ensures (r.Some? && |r.value| > 0) <==> SharesKeyword(a, b)
  {
    if a.keywords.None? then None
    else
      var common := Filter(a.keywords.value, (k: string) => b.keywords.Some? && k in b.keywords.value);
      assert |common| > 0 ==> common[0] in common;
      MeetsIff(a.keywords.value, if b.keywords.Some? then b.keywords.value else []);
      Some(common)
  }

  lemma SharesKeywordSymmetric(a: Note, b: Note)
    ensures SharesKeyword(a, b) <==> SharesKeyword(b, a)
  {
    if a.keywords.Some? && b.keywords.Some? {
      MeetsIff(a.keywords.value, b.keywords.value);
      MeetsIff(b.keywords.value, a.keywords.value);
    }
  }

  /** Notes at two different positions that share a keyword, in either order. */
  ghost predicate Adjacent(notes: seq<Note>, i: nat, j: nat)
    requires i < |notes| && j < |notes|
  {
    i != j && SharesKeyword(notes[i], notes[j])
  }

  // ---------------------------------------------------------------------
  // Specification of the links: index pairs in the order the loops visit them

  /** Pairs `(i, j')` with `j <= j' < |notes|` whose notes share a keyword. */
  function RowPairs(notes: seq<Note>, i: nat, j: nat): (r: seq<(int, int)>)
    requires i < j <= |notes|
    ensures forall k :: 0 <= k < |r| ==> r[k].0 == i && j <= r[k].1 < |notes|
    decreases |notes| - j
  {
    if j == |notes| then []
    else (if SharesKeyword(notes[i], notes[j]) then [(i, j)] else []) + RowPairs(notes, i, j + 1)
  }

  /** The rows of the outer loop from `i` on. */
  function PairsFrom(notes: seq<Note>, i: nat): (r: seq<(int, int)>)
    requires i <= |notes|
    ensures forall k :: 0 <= k < |r| ==> i <= r[k].0 < r[k].1 < |notes|
    decreases |notes| - i
  {
    if i == |notes| then [] else RowPairs(notes, i, i + 1) + PairsFrom(notes, i + 1)
  }

  /** The positions of the linked notes, earlier position first. */
  function LinkedPairs(notes: seq<Note>): (r: seq<(int, int)>)
    ensures forall k :: 0 <= k < |r| ==> 0 <= r[k].0 < r[k].1 < |notes|
  {
    PairsFrom(notes, 0)
  }

  ghost predicate InRange(notes: seq<Note>, pairs: seq<(int, int)>)
  {
    forall k :: 0 <= k < |pairs| ==> 0 <= pairs[k].0 < |notes| && 0 <= pairs[k].1 < |notes|
  }

  function LinksOf(notes: seq<Note>, pairs: seq<(int, int)>): (r: seq<Link>)
    requires InRange(notes, pairs)
  {
    seq(|pairs|, k requires 0 <= k < |pairs| => Link(notes[pairs[k].0].id, notes[pairs[k].1].id))
  }

  /** The links the graph shows, in the order they are built. */
  function Links(notes: seq<Note>): seq<Link>
  {
    LinksOf(notes, LinkedPairs(notes))
  }

  /** The link between positions `i` and `j`, oriented from the earlier one. */
  function Oriented(notes: seq<Note>, i: nat, j: nat): Link
    requires i < |notes| && j < |notes|
  {
    if i < j then Link(notes[i].id, notes[j].id) else Link(notes[j].id, notes[i].id)
  }

  // ---------------------------------------------------------------------
  // The builder

  /** The `graphData` memo: the node list, and the nested loop over `i < j`
   *  that pushes one link per pair of notes with a common keyword. */
  method BuildGraph(notes: seq<Note>) returns (g: GraphData)
    ensures g.nodes == Nodes(notes)
    ensures g.links == Links(notes)
  {
    var nodes := Nodes(notes);
    var links: seq<Link> := [];
    ghost var pairs: seq<(int, int)> := [];
    var i := 0;
    while i < |notes|
      invariant 0 <= i <= |notes|
      invariant InRange(notes, pairs)
      invariant pairs + PairsFrom(notes, i) == LinkedPairs(notes)
      invariant links == LinksOf(notes, pairs)
    {
      ghost var later := PairsFrom(notes, i + 1);
      RowStart(notes, pairs, i);
      var j := i + 1;
      while j < |notes|
        invariant i + 1 <= j <= |notes|
        invariant InRange(notes, pairs)
        invariant pairs + RowPairs(notes, i, j) + later == LinkedPairs(notes)
        invariant links == LinksOf(notes, pairs)
      {
        var a := notes[i];
        var b := notes[j];
        var common := CommonKeywords(a, b);
        LinkStep(notes, pairs, later, i, j);
        if common.Some? && |common.value| > 0 {
          links := links + [Link(a.id, b.id)];
          pairs := pairs + [(i, j)];
        }
        j := j + 1;
      }
      RowEnd(notes, pairs, i);
      i := i + 1;
    }
    g := GraphData(nodes, links);
  }

  /** Entering row `i` of the outer loop. */
  lemma RowStart(notes: seq<Note>, pairs: seq<(int, int)>, i: nat)
    requires i < |notes| && pairs + PairsFrom(notes, i) == LinkedPairs(notes)
    ensures pairs + RowPairs(notes, i, i + 1) + PairsFrom(notes, i + 1) == LinkedPairs(notes)
  {
    assert PairsFrom(notes, i) == RowPairs(notes, i, i + 1) + PairsFrom(notes, i + 1);
  }

  /** Leaving row `i` of the outer loop. */
  lemma RowEnd(notes: seq<Note>, pairs: seq<(int, int)>, i: nat)
    requires i < |notes| && pairs + RowPairs(notes, i, |notes|) + PairsFrom(notes, i + 1) == LinkedPairs(notes)
    ensures pairs + PairsFrom(notes, i + 1) == LinkedPairs(notes)
  {
    assert RowPairs(notes, i, |notes|) == [];
  }

  /** One turn of the inner loop keeps the builder's invariant. */
  lemma LinkStep(notes: seq<Note>, pairs: seq<(int, int)>, later: seq<(int, int)>, i: nat, j: nat)
    requires i < j < |notes| && InRange(notes, pairs)
    requires pairs + RowPairs(notes, i, j) + later == LinkedPairs(notes)
    ensures SharesKeyword(notes[i], notes[j]) ==>
      InRange(notes, pairs + [(i, j)]) &&
      (pairs + [(i, j)]) + RowPairs(notes, i, j + 1) + later == LinkedPairs(notes) &&
      LinksOf(notes, pairs + [(i, j)]) == LinksOf(notes, pairs) + [Link(notes[i].id, notes[j].id)]
    ensures !SharesKeyword(notes[i], notes[j]) ==>
      pairs + RowPairs(notes, i, j + 1) + later == LinkedPairs(notes)
  {
    var row := RowPairs(notes, i, j + 1);
    if SharesKeyword(notes[i], notes[j]) {
      assert RowPairs(notes, i, j) == [(i, j)] + row;
      ConcatShift(pairs, [(i, j)], row, later);
      LinksOfAppend(notes, pairs, i, j);
    } else {
      assert RowPairs(notes, i, j) == row;
    }
  }

  lemma ConcatShift<T>(a: seq<T>, b: seq<T>, c: seq<T>, d: seq<T>)
    ensures a + (b + c) + d == (a + b) + c + d
  {
  }

  lemma LinksOfAppend(notes: seq<Note>, pairs: seq<(int, int)>, i: nat, j: nat)
    requires InRange(notes, pairs) && i < |notes| && j < |notes|
    ensures InRange(notes, pairs + [(i, j)])
    ensures LinksOf(notes, pairs + [(i, j)]) == LinksOf(notes, pairs) + [Link(notes[i].id, notes[j].id)]
  {
    var ps := pairs + [(i, j)];
    assert forall k :: 0 <= k < |pairs| ==> ps[k] == pairs[k];
  }

  // ---------------------------------------------------------------------
  // Which pairs are linked

  lemma {:induction false} RowPairsMembers(notes: seq<Note>, i: nat, j: nat, m: nat)
    requires i < j <= |notes|
    ensures (i, m) in RowPairs(notes, i, j) <==> j <= m < |notes| && SharesKeyword(notes[i], notes[m])
    decreases |notes| - j
  {
    if j < |notes| {
      RowPairsMembers(notes, i, j + 1, m);
    }
  }

  lemma {:induction false} PairsFromMembers(notes: seq<Note>, s: nat, i: nat, j: nat)
    requires s <= |notes|
    ensures (i, j) in PairsFrom(notes, s) <==> s <= i < j < |notes| && SharesKeyword(notes[i], notes[j])
    decreases |notes| - s
  {
    if s < |notes| {
      PairsFromMembers(notes, s + 1, i, j);
      if i == s {
        RowPairsMembers(notes, s, s + 1, j);
      }
    }
  }

  /** A pair of positions is linked exactly when the earlier note has a
   *  keyword that the later one also has. */
  lemma LinkedPairsExactly(notes: seq<Note>, i: nat, j: nat)
    ensures (i, j) in LinkedPairs(notes) <==> i < j < |notes| && SharesKeyword(notes[i], notes[j])
  {
    PairsFromMembers(notes, 0, i, j);
  }

  /** Two different positions are adjacent exactly when the graph has the
   *  pair, earlier position first: the direction of the scan does not matter. */
  lemma AdjacentIffLinked(notes: seq<Note>, i: nat, j: nat)
    requires i < |notes| && j < |notes|
    ensures Adjacent(notes, i, j) <==>
      (if i < j then (i, j) else (j, i)) in LinkedPairs(notes)
  {
    SharesKeywordSymmetric(notes[i], notes[j]);
    if i < j {
      LinkedPairsExactly(notes, i, j);
    } else {
      LinkedPairsExactly(notes, j, i);
    }
  }

  // ---------------------------------------------------------------------
  // Each pair at most once

  ghost predicate LexIncreasing(ps: seq<(int, int)>)
  {
    forall a, b :: 0 <= a < b < |ps| ==> ps[a].0 < ps[b].0 || (ps[a].0 == ps[b].0 && ps[a].1 < ps[b].1)
  }

  lemma {:induction false} RowPairsIncreasing(notes: seq<Note>, i: nat, j: nat)
    requires i < j <= |notes|
    ensures LexIncreasing(RowPairs(notes, i, j))
    decreases |notes| - j
  {
    if j < |notes| {
      RowPairsIncreasing(notes, i, j + 1);
      var rest := RowPairs(notes, i, j + 1);
      var step: seq<(int, int)> := if SharesKeyword(notes[i], notes[j]) then [(i, j)] else [];
      var all := RowPairs(notes, i, j);
      assert all == step + rest;
      forall a, b | 0 <= a < b < |all|
        ensures all[a].0 == all[b].0 && all[a].1 < all[b].1
      {
        if a < |step| {
          assert all[a] == (i, j) && all[b] == rest[b - 1];
        } else {
          assert all[a] == rest[a - |step|] && all[b] == rest[b - |step|];
        }
      }
    }
  }

  lemma {:induction false} PairsFromIncreasing(notes: seq<Note>, s: nat)
    requires s <= |notes|
    ensures LexIncreasing(PairsFrom(notes, s))
    decreases |notes| - s
  {
    if s < |notes| {
      PairsFromIncreasing(notes, s + 1);
      RowPairsIncreasing(notes, s, s + 1);
      var row := RowPairs(notes, s, s + 1);
      var rest := PairsFrom(notes, s + 1);
      var all := PairsFrom(notes, s);
      assert all == row + rest;
      forall a, b | 0 <= a < b < |all|
        ensures all[a].0 < all[b].0 || (all[a].0 == all[b].0 && all[a].1 < all[b].1)
      {
        if b < |row| {
          assert all[a] == row[a] && all[b] == row[b];
        } else if a < |row| {
          assert all[a] == row[a] && all[b] == rest[b - |row|];
        } else {
          assert all[a] == rest[a - |row|] && all[b] == rest[b - |row|];
        }
      }
    }
  }

  /** The links come in scan order, so no pair of positions is linked twice,
   *  neither in the same nor in the opposite direction. */
  lemma EachPairLinkedOnce(notes: seq<Note>)
    ensures LexIncreasing(LinkedPairs(notes))
    ensures forall a, b :: 0 <= a < b < |LinkedPairs(notes)| ==>
      LinkedPairs(notes)[a] != LinkedPairs(notes)[b] &&
      LinkedPairs(notes)[a] != (LinkedPairs(notes)[b].1, LinkedPairs(notes)[b].0)
  {
    PairsFromIncreasing(notes, 0);
    var ps := LinkedPairs(notes);
    assert forall b :: 0 <= b < |ps| ==> ps[b] in ps;
  }

  lemma {:induction false} RowPairsLength(notes: seq<Note>, i: nat, j: nat)
    requires i < j <= |notes|
    ensures |RowPairs(notes, i, j)| <= |notes| - j
    decreases |notes| - j
  {
    if j < |notes| {
      RowPairsLength(notes, i, j + 1);
    }
  }

  lemma {:induction false} PairsFromLength(notes: seq<Note>, s: nat)
    requires s <= |notes|
    ensures 2 * |PairsFrom(notes, s)| <= (|notes| - s) * (|notes| - s - 1)
    decreases |notes| - s
  {
    if s < |notes| {
      PairsFromLength(notes, s + 1);
      RowPairsLength(notes, s, s + 1);
      var m := |notes| - s - 1;
      var row, rest := |RowPairs(notes, s, s + 1)|, |PairsFrom(notes, s + 1)|;
      assert |PairsFrom(notes, s)| == row + rest;
      assert 2 * rest <= m * (m - 1) && row <= m;
      Triangle(m);
    }
  }

  lemma Triangle(m: int)
    ensures (m + 1) * m == m * (m - 1) + 2 * m
  {
  }

  /** At most n(n-1)/2 links for n notes. */
  lemma LinkCountBound(notes: seq<Note>)
    ensures 2 * |Links(notes)| <= |notes| * (|notes| - 1)
  {
    PairsFromLength(notes, 0);
  }

  // ---------------------------------------------------------------------
  // Isolated notes

  /** A note whose keyword list is missing or empty is in no link. */
  lemma NoKeywordsIsolated(notes: seq<Note>, k: nat)
    requires k < |notes| && KeywordsOf(notes[k]) == []
    ensures forall p :: p in LinkedPairs(notes) ==> p.0 != k && p.1 != k
  {
    forall p | p in LinkedPairs(notes)
      ensures p.0 != k && p.1 != k
    {
      var ps := LinkedPairs(notes);
      var m :| 0 <= m < |ps| && ps[m] == p;
      LinkedPairsExactly(notes, p.0, p.1);
      MeetsIff(KeywordsOf(notes[p.0]), KeywordsOf(notes[p.1]));
    }
  }

  /** The graph has no link at all exactly when no two notes share a keyword. */
  lemma NoLinksIffNoSharing(notes: seq<Note>)
    ensures Links(notes) == [] <==>
      forall i, j :: 0 <= i < j < |notes| ==> !SharesKeyword(notes[i], notes[j])
  {
    var ps := LinkedPairs(notes);
    if ps != [] {
      assert ps[0] in ps;
      LinkedPairsExactly(notes, ps[0].0, ps[0].1);
    }
    forall i, j | 0 <= i < j < |notes| && SharesKeyword(notes[i], notes[j])
      ensures ps != []
    {
      LinkedPairsExactly(notes, i, j);
    }
  }

  // ---------------------------------------------------------------------
  // Links by id

  /** With distinct ids, the link between two positions is in the graph
   *  exactly when they are adjacent. */
  lemma LinkIffAdjacent(notes: seq<Note>, i: nat, j: nat)
    requires UniqueIds(notes) && i < |notes| && j < |notes|
    ensures Oriented(notes, i, j) in Links(notes) <==> Adjacent(notes, i, j)
  {
    var ps := LinkedPairs(notes);
    var ls := Links(notes);
    AdjacentIffLinked(notes, i, j);
    var lo, hi := if i < j then i else j, if i < j then j else i;
    if Adjacent(notes, i, j) {
      var m :| 0 <= m < |ps| && ps[m] == (lo, hi);
      assert ls[m] == Oriented(notes, i, j);
    }
    if Oriented(notes, i, j) in ls {
      var m :| 0 <= m < |ls| && ls[m] == Oriented(notes, i, j);
      var a, b := ps[m].0, ps[m].1;
      assert 0 <= a < b < |notes|;
      assert ls[m] == Link(notes[a].id, notes[b].id);
      SameIdSamePosition(notes, a, lo);
      SameIdSamePosition(notes, b, hi);
      assert ps[m] == (lo, hi);
    }
  }

  /** With distinct ids, the links themselves are all different, none is the
   *  reverse of another, and none joins a note to itself. */
  lemma EachLinkOnce(notes: seq<Note>)
    requires UniqueIds(notes)
    ensures forall l :: l in Links(notes) ==> l.source != l.target
    ensures forall a, b :: 0 <= a < b < |Links(notes)| ==>
      Links(notes)[a] != Links(notes)[b] &&
      Links(notes)[a] != Link(Links(notes)[b].target, Links(notes)[b].source)
  {
    var ps := LinkedPairs(notes);
    var ls := Links(notes);
    EachPairLinkedOnce(notes);
    forall l | l in ls
      ensures l.source != l.target
    {
      var m :| 0 <= m < |ls| && ls[m] == l;
      assert ls[m] == Link(notes[ps[m].0].id, notes[ps[m].1].id);
    }
    forall a, b | 0 <= a < b < |ls|
      ensures ls[a] != ls[b] && ls[a] != Link(ls[b].target, ls[b].source)
    {
      assert ls[a] == Link(notes[ps[a].0].id, notes[ps[a].1].id);
      assert ls[b] == Link(notes[ps[b].0].id, notes[ps[b].1].id);
    }
  }

  lemma SameIdSamePosition(notes: seq<Note>, a: nat, b: nat)
    requires UniqueIds(notes) && a < |notes| && b < |notes| && notes[a].id == notes[b].id
    ensures a == b
  {
  }

  // ---------------------------------------------------------------------
  // The edge set does not depend on the order of the notes

  /** The links as unordered pairs of ids. */
  ghost function EdgeSet(notes: seq<Note>): set<set<int>>
  {
    set l | l in Links(notes) :: {l.source, l.target}
  }

  lemma EdgeSetMembers(notes: seq<Note>, e: set<int>)
    ensures e in EdgeSet(notes) <==>
      exists i: nat, j: nat :: i < |notes| && j < |notes| && Adjacent(notes, i, j) && e == {notes[i].id, notes[j].id}
  {
    var ps := LinkedPairs(notes);
    var ls := Links(notes);
    if e in EdgeSet(notes) {
      var l :| l in ls && e == {l.source, l.target};
      var m :| 0 <= m < |ls| && ls[m] == l;
      assert ps[m] in ps;
      LinkedPairsExactly(notes, ps[m].0, ps[m].1);
      assert Adjacent(notes, ps[m].0, ps[m].1);
    }
    if exists i: nat, j: nat :: i < |notes| && j < |notes| && Adjacent(notes, i, j) && e == {notes[i].id, notes[j].id} {
      var i: nat, j: nat :| i < |notes| && j < |notes| && Adjacent(notes, i, j) && e == {notes[i].id, notes[j].id};
      AdjacentIffLinked(notes, i, j);
      var m :| 0 <= m < |ps| && ps[m] == (if i < j then (i, j) else (j, i));
      assert ls[m] in ls;
      assert e == {ls[m].source, ls[m].target};
    }
  }

  lemma EdgeSetSubset(notes: seq<Note>, other: seq<Note>)
    requires multiset(notes) == multiset(other)
    ensures EdgeSet(notes) <= EdgeSet(other)
  {
    forall e | e in EdgeSet(notes)
      ensures e in EdgeSet(other)
    {
      EdgeSetMembers(notes, e);
      var i: nat, j: nat :| i < |notes| && j < |notes| && Adjacent(notes, i, j) && e == {notes[i].id, notes[j].id};
      var i', j' := DistinctPositions(notes, other, i, j);
      assert Adjacent(other, i', j');
      EdgeSetMembers(other, e);
    }
  }

  /** Reordering the notes changes at most the direction and the order of
   *  the links, never which notes are linked. */
  lemma ReorderKeepsEdges(notes: seq<Note>, other: seq<Note>)
    requires multiset(notes) == multiset(other)
    ensures EdgeSet(notes) == EdgeSet(other)
  {
    EdgeSetSubset(notes, other);
    EdgeSetSubset(other, notes);
  }

  // ---------------------------------------------------------------------
  // Hover

  predicate Touches(l: Link, id: int)
  {
    l.source == id || l.target == id
  }

  /** `handleNodeHover`: only the hovered node is highlighted, together with
   *  the links that have it at either end, in their original order. */
  function HandleNodeHover(links: seq<Link>, node: Option<Node>): (h: Highlight)
    ensures node.None? ==> h.nodes == {} && h.links == [] && h.hoverNode == None
    ensures node.Some? ==> h.nodes == {node.value.id} && h.hoverNode == node
    ensures node.Some? ==> IsSubsequence(h.links, links)
    ensures node.Some? ==> forall l :: l in h.links <==> l in links && Touches(l, node.value.id)
    ensures node.Some? ==> forall l ::
      multiset(h.links)[l] == if Touches(l, node.value.id) then multiset(links)[l] else 0
  {
    if node.None? then Highlight({}, [], None)
    else Highlight({node.value.id}, Filter(links, (l: Link) => Touches(l, node.value.id)), node)
  }

  /** Hovering over the node of a note highlights that node alone and exactly
   *  the links between it and the notes adjacent to it. */
  lemma HoverHighlightsIncidentLinks(notes: seq<Note>, k: nat, node: Node)
    requires UniqueIds(notes) && k < |notes| && node.id == notes[k].id
    ensures HandleNodeHover(Links(notes), Some(node)).nodes == {notes[k].id}
    ensures forall j: nat :: j < |notes| ==>
      (Oriented(notes, k, j) in HandleNodeHover(Links(notes), Some(node)).links <==> Adjacent(notes, k, j))
    ensures forall l :: l in HandleNodeHover(Links(notes), Some(node)).links ==>
      exists j: nat :: j < |notes| && Adjacent(notes, k, j) && l == Oriented(notes, k, j)
  {
    var h := HandleNodeHover(Links(notes), Some(node));
    forall j: nat | j < |notes|
      ensures Oriented(notes, k, j) in h.links <==> Adjacent(notes, k, j)
    {
      LinkIffAdjacent(notes, k, j);
    }
    forall l | l in h.links
      ensures exists j: nat :: j < |notes| && Adjacent(notes, k, j) && l == Oriented(notes, k, j)
    {
      var j := IncidentLinkEnd(notes, k, l);
    }
  }

  /** A link touching the id of the note at `k` joins `k` to an adjacent note. */
  lemma IncidentLinkEnd(notes: seq<Note>, k: nat, l: Link) returns (j: nat)
    requires UniqueIds(notes) && k < |notes|
    requires l in Links(notes) && Touches(l, notes[k].id)
    ensures j < |notes| && Adjacent(notes, k, j) && l == Oriented(notes, k, j)
  {
    var ps := LinkedPairs(notes);
    var ls := Links(notes);
    var m :| 0 <= m < |ls| && ls[m] == l;
    assert ps[m] in ps;
    var a, b := ps[m].0, ps[m].1;
    LinkedPairsExactly(notes, a, b);
    SharesKeywordSymmetric(notes[a], notes[b]);
    if notes[a].id == notes[k].id {
      assert a == k;
      j := b;
    } else {
      assert b == k;
      j := a;
    }
  }

  /** The neighbours of the hovered node are not highlighted, only the
   *  links to them. */
  lemma HoverLeavesNeighboursPlain(notes: seq<Note>, k: nat, j: nat, node: Node)
    requires UniqueIds(notes) && k < |notes| && j < |notes| && Adjacent(notes, k, j)
    requires node.id == notes[k].id
    ensures notes[j].id !in HandleNodeHover(Links(notes), Some(node)).nodes
    ensures Oriented(notes, k, j) in HandleNodeHover(Links(notes), Some(node)).links
  {
    var h := HandleNodeHover(Links(notes), Some(node));
    assert h.nodes == {notes[k].id};
    if notes[j].id == notes[k].id {
      SameIdSamePosition(notes, j, k);
    }
    LinkIffAdjacent(notes, k, j);
    assert Touches(Oriented(notes, k, j), node.id);
  }

  // ---------------------------------------------------------------------
  // Click

  /** `k` is the first position holding a note with that id. */
  ghost predicate FirstWithId(notes: seq<Note>, id: int, k: int)
  {
    0 <= k < |notes| && notes[k].id == id && forall k' :: 0 <= k' < k ==> notes[k'].id != id
  }

  /** `notes.find(n => n.id === id)`: the first note with that id. */
  function FindNote(notes: seq<Note>, id: int): (r: Option<Note>)
    ensures r.None? <==> forall k :: 0 <= k < |notes| ==> notes[k].id != id
    ensures r.Some? ==> exists k :: FirstWithId(notes, id, k) && notes[k] == r.value
  {
    if notes == [] then None
    else if notes[0].id == id then
      assert FirstWithId(notes, id, 0);
      Some(notes[0])
    else
      var r := FindNote(notes[1..], id);
      assert r.Some? ==> exists k :: FirstWithId(notes[1..], id, k) && notes[1..][k] == r.value;
      assert forall k :: FirstWithId(notes[1..], id, k) ==> FirstWithId(notes, id, k + 1);
      r
  }

  /** `onNodeClick`: the note behind the clicked node becomes the selection;
   *  when no note has the node's id the selection stays as it was. */
  function NodeClickSelection(notes: seq<Note>, node: Node, selected: Option<Note>): (r: Option<Note>)
    ensures (exists k :: 0 <= k < |notes| && notes[k].id == node.id) ==>
      exists k :: FirstWithId(notes, node.id, k) && r == Some(notes[k])
    ensures (forall k :: 0 <= k < |notes| ==> notes[k].id != node.id) ==> r == selected
  {
    var note := FindNote(notes, node.id);
    if note.Some? then note else selected
  }

  /** Clicking the node of a note selects that very note. */
  lemma ClickSelectsNote(notes: seq<Note>, k: nat, selected: Option<Note>)
    requires UniqueIds(notes) && k < |notes|
    ensures NodeClickSelection(notes, Nodes(notes)[k], selected) == Some(notes[k])
  {
    var r := FindNote(notes, notes[k].id);
    assert r.Some?;
    var m :| FirstWithId(notes, notes[k].id, m) && notes[m] == r.value;
    assert m == k;
  }

  // ---------------------------------------------------------------------
  // A worked example

  function Garden(): seq<Note>
  {
    [ Note(1, "Garden plan", "", Some(["gardening", "ideas"])),
      Note(2, "App sketch", "", Some(["ideas", "app"])),
      Note(3, "Rain barrel", "", Some(["water"])) ]
  }

  /** Notes 1 and 2 share "ideas"; note 3 stands alone. Hovering over node 1
   *  highlights node 1 and link (1, 2); hovering over node 3 highlights
   *  node 3 and no link. */
  lemma GardenGraph()
    ensures Links(Garden()) == [Link(1, 2)]
    ensures HandleNodeHover(Links(Garden()), Some(Nodes(Garden())[0])).nodes == {1}
    ensures HandleNodeHover(Links(Garden()), Some(Nodes(Garden())[0])).links == [Link(1, 2)]
    ensures HandleNodeHover(Links(Garden()), Some(Nodes(Garden())[2])).nodes == {3}
    ensures HandleNodeHover(Links(Garden()), Some(Nodes(Garden())[2])).links == []
  {
    var g := Garden();
    assert SharesKeyword(g[0], g[1]) by { assert "ideas" in g[0].keywords.value; }
    assert !SharesKeyword(g[0], g[2]);
    assert !SharesKeyword(g[1], g[2]);
    assert LinkedPairs(g) == [(0, 1)];
  }
}
