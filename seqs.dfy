/** Sequence helpers shared by the graph view and the home page: the
 *  JavaScript `Array.prototype.filter`, and what it means for one list to be
 *  an order-preserving sub-list of another. */
module Seqs {

  /** `r` is obtained from `s` by deleting elements, keeping the order of
   *  the rest. */
  ghost predicate IsSubsequence<T>(r: seq<T>, s: seq<T>)
    decreases |s|
  {
    if s == [] then r == []
    else (r != [] && r[0] == s[0] && IsSubsequence(r[1..], s[1..])) || IsSubsequence(r, s[1..])
  }

  /** `s.filter(p)`: the elements of `s` that satisfy `p`, in their order.
   *  The result keeps every occurrence of an accepted element and no
   *  occurrence of a rejected one. */
  function Filter<T(!new)>(s: seq<T>, p: T -> bool): (r: seq<T>)
    ensures IsSubsequence(r, s)
    ensures forall x :: multiset(r)[x] == if p(x) then multiset(s)[x] else 0
    ensures forall x :: x in r <==> x in s && p(x)
    ensures (forall x :: x in s ==> p(x)) ==> r == s
  {
    if s == [] then []
    else
      assert s == [s[0]] + s[1..];
      if p(s[0]) then [s[0]] + Filter(s[1..], p)
      else Filter(s[1..], p)
  }

  /** Filtering depends only on what the predicate says about the elements
   *  actually present. */
  lemma {:induction false} FilterCongruent<T(!new)>(s: seq<T>, p: T -> bool, q: T -> bool)
    requires forall x :: x in s ==> p(x) == q(x)
    ensures Filter(s, p) == Filter(s, q)
  {
    if s != [] {
      assert forall x :: x in s[1..] ==> x in s;
      FilterCongruent(s[1..], p, q);
    }
  }

  /** A stricter predicate keeps a sub-list of what a looser one keeps. */
  lemma {:induction false} FilterMonotone<T(!new)>(s: seq<T>, p: T -> bool, q: T -> bool)
    requires forall x :: x in s && q(x) ==> p(x)
    ensures IsSubsequence(Filter(s, q), Filter(s, p))
  {
    if s != [] {
      assert forall x :: x in s[1..] ==> x in s;
      FilterMonotone(s[1..], p, q);
    }
  }

  /** Two positions holding the same value mean the value occurs twice. */
  lemma TwoPositionsCount<T>(s: seq<T>, i: nat, j: nat)
    requires i < j < |s| && s[i] == s[j]
    ensures multiset(s)[s[i]] >= 2
  {
    assert s == s[..i] + [s[i]] + s[i + 1..j] + [s[j]] + s[j + 1..];
  }

  /** A value that occurs twice sits at two different positions. */
  lemma {:induction false} TwoPositionsOf<T>(s: seq<T>, x: T) returns (a: nat, b: nat)
    requires multiset(s)[x] >= 2
    ensures a < b < |s| && s[a] == x && s[b] == x
  {
    assert s == [s[0]] + s[1..];
    if s[0] == x {
      assert x in multiset(s[1..]);
      var c :| 0 <= c < |s[1..]| && s[1..][c] == x;
      a, b := 0, c + 1;
    } else {
      a, b := TwoPositionsOf(s[1..], x);
      a, b := a + 1, b + 1;
    }
  }

  /** Two different positions of `s` have counterparts at two different
   *  positions of any rearrangement `t` of `s`. */
  lemma DistinctPositions<T>(s: seq<T>, t: seq<T>, i: nat, j: nat) returns (i': nat, j': nat)
    requires multiset(s) == multiset(t)
    requires i < |s| && j < |s| && i != j
    ensures i' < |t| && j' < |t| && i' != j' && t[i'] == s[i] && t[j'] == s[j]
  {
    if s[i] != s[j] {
      assert s[i] in multiset(t) && s[j] in multiset(t);
      i' :| 0 <= i' < |t| && t[i'] == s[i];
      j' :| 0 <= j' < |t| && t[j'] == s[j];
    } else {
      TwoPositionsCount(s, if i < j then i else j, if i < j then j else i);
      i', j' := TwoPositionsOf(t, s[i]);
    }
  }
}
