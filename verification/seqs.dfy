/** Sequence helpers shared by the connection registry and the dashboard
    views: JavaScript's `indexOf`, `splice(i, 1)` and `filter`, stated over
    immutable sequences. */
module Seqs {

  /** `s.indexOf(x)`: the first position holding `x`, or -1 when there is none. */
  function IndexOf<T(==)>(s: seq<T>, x: T): (i: int)
    ensures -1 <= i < |s|
    ensures i == -1 <==> x !in s
    ensures 0 <= i ==> s[i] == x && x !in s[..i]
  {
    if |s| == 0 then -1
    else if s[0] == x then 0
    else
      var j := IndexOf(s[1..], x);
      assert s[1..][..j+1] == s[1..j+2] by { if j >= 0 { assert j + 2 <= |s|; } }
      if j < 0 then -1 else
        assert s[..j+1] == [s[0]] + s[1..][..j];
        j + 1
  }

  /** Removes the element at position `i`, as `splice(i, 1)` does. */
  function RemoveAt<T>(s: seq<T>, i: nat): (r: seq<T>)
    requires i < |s|
    ensures |r| == |s| - 1
    ensures multiset(r) + multiset{s[i]} == multiset(s)
    ensures forall k :: 0 <= k < i ==> r[k] == s[k]
    ensures forall k :: i <= k < |r| ==> r[k] == s[k + 1]
  {
    assert s == s[..i] + [s[i]] + s[i+1..];
    s[..i] + s[i+1..]
  }

  /** `IndexOf` is determined by its contract. */
  lemma {:induction false} IndexOfIs<T>(s: seq<T>, x: T, i: int)
    requires (i == -1 && x !in s) || (0 <= i < |s| && s[i] == x && x !in s[..i])
    ensures IndexOf(s, x) == i
  {
  }

  /** Removing another element keeps `x` where it was, or one place earlier
      when the removed element stood before it. */
  lemma {:induction false} IndexOfAfterRemove<T>(s: seq<T>, i: nat, x: T)
    requires i < |s| && s[i] != x
    ensures var j := IndexOf(s, x);
      IndexOf(RemoveAt(s, i), x) == if j < 0 then -1 else if j < i then j else j - 1
  {
    var j := IndexOf(s, x);
    if j < 0 {
      AbsentAfterRemove(s, i, x);
    } else if j < i {
      BeforeRemoved(s, i, x, j);
    } else {
      AfterRemoved(s, i, x, j);
    }
  }

  lemma AbsentAfterRemove<T>(s: seq<T>, i: nat, x: T)
    requires i < |s| && x !in s
    ensures IndexOf(RemoveAt(s, i), x) == -1
  {
    var r := RemoveAt(s, i);
    assert forall y :: y in r ==> y in multiset(s);
    IndexOfIs(r, x, -1);
  }

  lemma BeforeRemoved<T>(s: seq<T>, i: nat, x: T, j: nat)
    requires j < i < |s| && s[j] == x && x !in s[..j]
    ensures IndexOf(RemoveAt(s, i), x) == j
  {
    var r := RemoveAt(s, i);
    assert r[..j] == s[..j];
    IndexOfIs(r, x, j);
  }

  lemma AfterRemoved<T>(s: seq<T>, i: nat, x: T, j: nat)
    requires i < j < |s| && s[j] == x && x !in s[..j]
    ensures IndexOf(RemoveAt(s, i), x) == j - 1
  {
    var r := RemoveAt(s, i);
    forall k | 0 <= k < j - 1 ensures r[k] != x {
      if k < i { assert s[..j][k] == s[k]; } else { assert s[..j][k + 1] == s[k + 1]; }
    }
    IndexOfIs(r, x, j - 1);
  }

  /** Removes the first occurrence of `x`, leaving `s` alone when `x` is absent:
      the `indexOf` / `splice` pair of the connection close handler. */
  function RemoveFirst<T(==,!new)>(s: seq<T>, x: T): (r: seq<T>)
    ensures x !in s ==> r == s
    ensures x in s ==> |r| == |s| - 1 && multiset(r) + multiset{x} == multiset(s)
    ensures forall y :: y != x ==> (y in r <==> y in s)
    ensures x in s ==> exists i :: 0 <= i < |s| && s[i] == x && x !in s[..i] && r == s[..i] + s[i + 1..]
  {
    var i := IndexOf(s, x);
    if i < 0 then s
    else
      assert s == s[..i] + [x] + s[i+1..];
      assert forall y :: y in s <==> y in s[..i] || y == x || y in s[i+1..];
      RemoveAt(s, i)
  }

  /** Array.prototype.filter: the elements satisfying `p`, in their original order. */
  function Filter<T(!new)>(s: seq<T>, p: T -> bool): (r: seq<T>)
    ensures |r| <= |s|
    ensures forall x :: x in r <==> x in s && p(x)
  {
    if |s| == 0 then []
    else
      var rest := Filter(s[1..], p);
      assert forall x :: x in s <==> x == s[0] || x in s[1..];
      if p(s[0]) then [s[0]] + rest else rest
  }

  /** `a` can be obtained from `b` by deleting elements, keeping the order. */
  predicate IsSubsequence<T(==)>(a: seq<T>, b: seq<T>)
    decreases |b|
  {
    if |a| == 0 then true
    else if |b| == 0 then false
    else (a[0] == b[0] && IsSubsequence(a[1..], b[1..])) || IsSubsequence(a, b[1..])
  }

  /** The positions of `s` whose element satisfies `p`: the reference
      definition of how many elements a filter keeps. */
  ghost function Matching<T>(s: seq<T>, p: T -> bool): set<nat> {
    set i: nat | i < |s| && p(s[i])
  }

  lemma {:induction false} FilterIsSubsequence<T(!new)>(s: seq<T>, p: T -> bool)
    ensures IsSubsequence(Filter(s, p), s)
  {
    if |s| > 0 {
      FilterIsSubsequence(s[1..], p);
      if p(s[0]) {
        assert Filter(s, p)[1..] == Filter(s[1..], p);
      }
    }
  }

  /** Filtering distributes over concatenation. */
  lemma {:induction false} FilterAppend<T(!new)>(a: seq<T>, b: seq<T>, p: T -> bool)
    ensures Filter(a + b, p) == Filter(a, p) + Filter(b, p)
  {
    if |a| == 0 {
      assert a + b == b;
    } else {
      assert (a + b)[1..] == a[1..] + b;
      FilterAppend(a[1..], b, p);
    }
  }

  /** The filter keeps exactly one element per matching position. */
  lemma {:induction false} FilterCountsMatches<T(!new)>(s: seq<T>, p: T -> bool)
    ensures |Filter(s, p)| == |Matching(s, p)|
  {
    if |s| == 0 {
      assert Matching(s, p) == {};
    } else {
      var init := s[..|s| - 1];
      var last: nat := |s| - 1;
      var x := s[last];
      FilterCountsMatches(init, p);
      assert s == init + [x];
      FilterAppend(init, [x], p);
      assert [x][1..] == [];
      assert |Filter(s, p)| == |Filter(init, p)| + (if p(x) then 1 else 0);
      MatchingSnoc(s, p);
    }
  }

  lemma MatchingSnoc<T>(s: seq<T>, p: T -> bool)
    requires |s| > 0
    ensures var last := |s| - 1;
      Matching(s, p) == Matching(s[..last], p) + (if p(s[last]) then {last} else {})
    ensures |s| - 1 !in Matching(s[..|s| - 1], p)
  {
    var last := |s| - 1;
    var init := s[..last];
    forall i: nat | i < |init| ensures init[i] == s[i] { }
  }

  /** The filter keeps nothing exactly when no element satisfies `p`. */
  lemma {:induction false} FilterEmpty<T(!new)>(s: seq<T>, p: T -> bool)
    ensures |Filter(s, p)| == 0 <==> forall i :: 0 <= i < |s| ==> !p(s[i])
  {
    if |s| > 0 {
      FilterEmpty(s[1..], p);
      assert forall i :: 0 < i < |s| ==> s[i] == s[1..][i - 1];
    }
  }

  /** Filters with predicates that agree on the elements are the same. */
  lemma {:induction false} FilterCongruent<T(!new)>(s: seq<T>, p: T -> bool, q: T -> bool)
    requires forall x :: x in s ==> p(x) == q(x)
    ensures Filter(s, p) == Filter(s, q)
  {
    if |s| > 0 {
      assert forall x :: x in s[1..] ==> x in s;
      FilterCongruent(s[1..], p, q);
    }
  }

  /** Filtering with a predicate that holds everywhere keeps the whole sequence. */
  lemma {:induction false} FilterAll<T(!new)>(s: seq<T>, p: T -> bool)
    requires forall x :: x in s ==> p(x)
    ensures Filter(s, p) == s
  {
    if |s| > 0 {
      assert forall x :: x in s[1..] ==> x in s;
      FilterAll(s[1..], p);
      assert [s[0]] + s[1..] == s;
    }
  }

  /** The at most `n` leading elements, as `slice(0, n)` gives them. */
  function Take<T>(s: seq<T>, n: nat): (r: seq<T>)
    ensures |r| == if |s| < n then |s| else n
    ensures r == s[..|r|]
  {
    if |s| < n then s else s[..n]
  }
}
