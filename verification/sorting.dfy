/**
 * The sorted view of an account's movements: `movements.slice().sort((a, b) => a - b)`.
 * The copy is sorted, so the stored movements are never touched; in this functional
 * model that is structural, and what remains to state is that the view is the
 * ascending permutation of the movements.
 */
module Sorting {

  predicate Ascending(s: seq<int>)
  {
    forall i, j :: 0 <= i < j < |s| ==> s[i] <= s[j]
  }

  /** Every element of s is at least lo. */
  predicate AtLeast(lo: int, s: seq<int>)
  {
    forall i :: 0 <= i < |s| ==> lo <= s[i]
  }

  /** A lower bound of a list bounds every rearrangement of it. */
  lemma AtLeastPermutation(lo: int, s: seq<int>, t: seq<int>)
    requires AtLeast(lo, s) && multiset(s) == multiset(t)
    ensures AtLeast(lo, t)
  {
    forall i | 0 <= i < |t|
      ensures lo <= t[i]
    {
      assert t[i] in multiset(t);
      var j :| 0 <= j < |s| && s[j] == t[i];
    }
  }

  lemma ConsAscending(x: int, s: seq<int>)
    requires AtLeast(x, s) && Ascending(s)
    ensures Ascending([x] + s)
  {
  }

  lemma AscendingTail(s: seq<int>)
    requires Ascending(s) && s != []
    ensures Ascending(s[1..]) && AtLeast(s[0], s[1..])
  {
    var t := s[1..];
    assert forall i :: 0 <= i < |t| ==> t[i] == s[i + 1];
  }

  lemma TailMultiset(s: seq<int>)
    requires s != []
    ensures multiset(s) == multiset{s[0]} + multiset(s[1..])
    ensures multiset(s[1..]) == multiset(s) - multiset{s[0]}
  {
    assert s == [s[0]] + s[1..];
  }

  /** Inserts one movement into an ascending list. */
  function Insert(x: int, s: seq<int>): (r: seq<int>)
    requires Ascending(s)
    ensures Ascending(r)
    ensures multiset(r) == multiset(s) + multiset{x}
  {
    if s == [] || x <= s[0] then
      assert AtLeast(x, s) by {
        if s != [] {
          AscendingTail(s);
        }
      }
      ConsAscending(x, s);
      [x] + s
    else
      AscendingTail(s);
      var tail := Insert(x, s[1..]);
      TailMultiset(s);
      assert multiset(s[1..] + [x]) == multiset(tail);
      AtLeastPermutation(s[0], s[1..] + [x], tail);
      ConsAscending(s[0], tail);
      [s[0]] + tail
  }

  /** The ascending sort of a movement list, by insertion. */
  function SortAscending(s: seq<int>): (r: seq<int>)
    ensures Ascending(r)
    ensures multiset(r) == multiset(s)
  {
    if s == [] then []
    else
      TailMultiset(s);
      Insert(s[0], SortAscending(s[1..]))
  }

  /** The head of a non-empty ascending list is its least element. */
  lemma HeadIsLeast(s: seq<int>, v: int)
    requires Ascending(s) && v in multiset(s)
    ensures s[0] <= v
  {
    var i :| 0 <= i < |s| && s[i] == v;
  }

  /** Two ascending lists with the same elements are equal. */
  lemma {:induction false} AscendingPermutationUnique(a: seq<int>, b: seq<int>)
    requires Ascending(a) && Ascending(b)
    requires multiset(a) == multiset(b)
    ensures a == b
  {
    assert |a| == |multiset(a)| == |multiset(b)| == |b|;
    if a != [] {
      var x, y := a[0], b[0];
      assert x in multiset(a) && y in multiset(b);
      HeadIsLeast(a, y);
      HeadIsLeast(b, x);
      assert x == y;
      TailMultiset(a);
      TailMultiset(b);
      assert multiset(a[1..]) == multiset(b[1..]);
      AscendingTail(a);
      AscendingTail(b);
      AscendingPermutationUnique(a[1..], b[1..]);
      assert a == [x] + a[1..];
      assert b == [y] + b[1..];
    }
  }

  /** The movements as `displayMovements` lists them, script.js:79. */
  function DisplayedMovements(movements: seq<int>, sort: bool): (shown: seq<int>)
    ensures multiset(shown) == multiset(movements)
    ensures sort ==> Ascending(shown)
    ensures !sort ==> shown == movements
  {
    if sort then SortAscending(movements) else movements
  }

  /**
   * The sorted view is the only ascending arrangement of the movements, so it is
   * what any correct numeric sort would show.
   */
  lemma SortedViewIsUnique(movements: seq<int>, other: seq<int>)
    requires Ascending(other) && multiset(other) == multiset(movements)
    ensures DisplayedMovements(movements, true) == other
  {
    AscendingPermutationUnique(DisplayedMovements(movements, true), other);
  }
}
