/** Order-preserving selection from a sequence, which both SQL `DELETE ... WHERE` and the
    catalogue's stream filters amount to. */
module Seqs {

  /** `b` contains the elements of `a` in the same order, possibly with others in between. */
  ghost predicate IsSubsequence<T>(a: seq<T>, b: seq<T>)
    decreases |b|
  {
    if a == [] then true
    else if b == [] then false
    else (a[0] == b[0] && IsSubsequence(a[1..], b[1..])) || IsSubsequence(a, b[1..])
  }

  /** The elements of `s` that satisfy `p`, in their order. */
  function Filter<T>(p: T -> bool, s: seq<T>): (r: seq<T>)
    ensures |r| <= |s|
    ensures forall k :: 0 <= k < |r| ==> r[k] in s && p(r[k])
    ensures forall k :: 0 <= k < |s| && p(s[k]) ==> s[k] in r
    ensures IsSubsequence(r, s)
  {
    if s == [] then []
    else
      var rest := Filter(p, s[1..]);
      assert forall k :: 0 < k < |s| ==> s[k] == s[1..][k - 1];
      if p(s[0]) then
        var r := [s[0]] + rest;
        assert r[1..] == rest;
        r
      else rest
  }

  /** Filtering keeps every element that satisfies `p` as often as it occurs, and no other. */
  lemma {:induction false} FilterCounts<T>(p: T -> bool, s: seq<T>)
    ensures forall x :: multiset(Filter(p, s))[x] == if p(x) then multiset(s)[x] else 0
  {
    if s != [] {
      FilterCounts(p, s[1..]);
      assert s == [s[0]] + s[1..];
      if p(s[0]) {
        assert Filter(p, s) == [s[0]] + Filter(p, s[1..]);
      }
    }
  }

  /** The keys along `s` strictly increase. */
  predicate StrictlyIncreasing<T>(s: seq<T>, key: T -> int) {
    forall i, j :: 0 <= i < j < |s| ==> key(s[i]) < key(s[j])
  }

  /** Dropping elements keeps increasing keys increasing. */
  lemma {:induction false} FilterKeepsIncreasing<T>(p: T -> bool, s: seq<T>, key: T -> int)
    requires StrictlyIncreasing(s, key)
    ensures StrictlyIncreasing(Filter(p, s), key)
  {
    if s != [] {
      FilterKeepsIncreasing(p, s[1..], key);
      var rest := Filter(p, s[1..]);
      forall y | y in rest ensures key(s[0]) < key(y) {
        var j :| 0 <= j < |s[1..]| && s[1..][j] == y;
        assert s[j + 1] == y;
      }
    }
  }

  /** `List.remove(Object)`: the first occurrence of `x` goes, the rest keeps its order. */
  function RemoveFirst<T(==)>(s: seq<T>, x: T): (r: seq<T>)
    ensures x !in s ==> r == s
    ensures x in s ==> |r| == |s| - 1 && multiset(r) == multiset(s) - multiset{x}
  {
    if s == [] then []
    else if s[0] == x then
      assert s == [s[0]] + s[1..];
      s[1..]
    else
      var r := [s[0]] + RemoveFirst(s[1..], x);
      assert s == [s[0]] + s[1..];
      r
  }

  /** No element occurs twice. */
  predicate Distinct<T(==)>(s: seq<T>) {
    forall i, j :: 0 <= i < j < |s| ==> s[i] != s[j]
  }

  /** Removing an element from a sequence without repeats leaves one without repeats. */
  lemma {:induction false} RemoveFirstKeepsDistinct<T>(s: seq<T>, x: T)
    requires Distinct(s)
    ensures Distinct(RemoveFirst(s, x))
  {
    if s != [] && s[0] != x {
      var t := s[1..];
      DistinctParts(s);
      RemoveFirstKeepsDistinct(t, x);
      RemoveFirstFrom(t, x);
      ConsDistinct(s[0], RemoveFirst(t, x));
      assert RemoveFirst(s, x) == [s[0]] + RemoveFirst(t, x);
    } else if s != [] {
      DistinctParts(s);
    }
  }

  /** The head of a sequence without repeats is not in its tail, which has no repeats either. */
  lemma DistinctParts<T>(s: seq<T>)
    requires s != [] && Distinct(s)
    ensures s[0] !in s[1..] && Distinct(s[1..])
  {
    forall j | 0 <= j < |s[1..]| ensures s[1..][j] != s[0] {
      assert s[1..][j] == s[j + 1];
    }
  }

  /** What is left after removing an element was there before. */
  lemma RemoveFirstFrom<T>(s: seq<T>, x: T)
    ensures forall y :: y in RemoveFirst(s, x) ==> y in s
  {
    var r := RemoveFirst(s, x);
    forall y | y in r ensures y in s {
      assert y in multiset(r);
    }
  }

  /** Putting an absent element in front keeps a sequence without repeats. */
  lemma ConsDistinct<T>(h: T, t: seq<T>)
    requires h !in t && Distinct(t)
    ensures Distinct([h] + t)
  {
    var r := [h] + t;
    forall i, j | 0 <= i < j < |r| ensures r[i] != r[j] {
      assert r[j] == t[j - 1];
      if i > 0 {
        assert r[i] == t[i - 1];
      }
    }
  }

  /** `List.remove(Object)` takes out the first occurrence of `x` and keeps the rest in order. */
  lemma {:induction false} RemoveFirstCutsFirst<T>(s: seq<T>, x: T)
    requires x in s
    ensures exists i :: 0 <= i < |s| && s[i] == x && x !in s[..i] && RemoveFirst(s, x) == s[..i] + s[i + 1..]
  {
    if s[0] == x {
      assert s[0] == x && x !in s[..0] && RemoveFirst(s, x) == s[..0] + s[1..];
    } else {
      var t := s[1..];
      assert x in t by {
        var j :| 0 <= j < |s| && s[j] == x;
        assert t[j - 1] == x;
      }
      RemoveFirstCutsFirst(t, x);
      var i :| 0 <= i < |t| && t[i] == x && x !in t[..i] && RemoveFirst(t, x) == t[..i] + t[i + 1..];
      CutBehindHead(s, i);
      assert RemoveFirst(s, x) == [s[0]] + RemoveFirst(t, x);
      assert s[i + 1] == x && x !in s[..i + 1] && RemoveFirst(s, x) == s[..i + 1] + s[i + 2..];
    }
  }

  /** Cutting out the element at `i + 1` is keeping the head and cutting out element `i` of the
      tail. */
  lemma CutBehindHead<T>(s: seq<T>, i: nat)
    requires i + 1 < |s|
    ensures s[..i + 1] == [s[0]] + s[1..][..i]
    ensures s[..i + 1] + s[i + 2..] == [s[0]] + (s[1..][..i] + s[1..][i + 1..])
  {
    assert s[i + 2..] == s[1..][i + 1..];
  }

  /** `f` applied to every element of `s`, in order (built from the end, as a loop that appends does). */
  function Map<A, B>(f: A -> B, s: seq<A>): (r: seq<B>)
    ensures |r| == |s|
    ensures forall k :: 0 <= k < |s| ==> r[k] == f(s[k])
  {
    if s == [] then [] else Map(f, s[..|s| - 1]) + [f(s[|s| - 1])]
  }

  /** Cutting out the element at `i` takes one copy of it out of the multiset. */
  lemma MultisetCut<T>(s: seq<T>, i: nat)
    requires i < |s|
    ensures multiset(s[..i] + s[i + 1..]) == multiset(s) - multiset{s[i]}
  {
    assert s == s[..i] + [s[i]] + s[i + 1..];
  }

  /** Taking the first element off `a` and the same element off its rearrangement `b` leaves
      rearrangements of each other. */
  lemma PermutationTails<T>(a: seq<T>, b: seq<T>, i: nat)
    requires multiset(a) == multiset(b)
    requires a != [] && i < |b| && b[i] == a[0]
    ensures multiset(a[1..]) == multiset(b[..i] + b[i + 1..])
  {
    MultisetCut(a, 0);
    MultisetCut(b, i);
    assert a[..0] + a[1..] == a[1..];
  }
}
