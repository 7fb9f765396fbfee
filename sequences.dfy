/**
  * Helpers on integer sequences shared by both programs: the `std::find`
  * and `vector::erase` idioms the adjacency lists are edited with, the
  * subsequence relation that says a list was only ever erased from, and the
  * total length of a list of lists (arcs of a graph, preferences left).
  */
module Sequences {

  /** `std::find`: the first position holding x, or |s| (the end iterator) when x is absent. */
  function Find(s: seq<int>, x: int): (i: nat)
    ensures i <= |s|
    ensures i < |s| ==> s[i] == x
    ensures forall j :: 0 <= j < i ==> s[j] != x
    ensures i == |s| <==> x !in s
  {
    if s == [] then 0
    else if s[0] == x then 0
    else 1 + Find(s[1..], x)
  }

  /** `vector::erase` at position i: the element there leaves, the later ones shift down by one. */
  function Delete(s: seq<int>, i: nat): (r: seq<int>)
    requires i < |s|
    ensures |r| == |s| - 1
    ensures forall j :: 0 <= j < i ==> r[j] == s[j]
    ensures forall j :: i <= j < |r| ==> r[j] == s[j + 1]
  {
    s[..i] + s[i + 1..]
  }

  /** Erasing takes exactly one copy of the erased element out of the multiset. */
  lemma DeleteMultiset(s: seq<int>, i: nat)
    requires i < |s|
    ensures multiset(Delete(s, i)) == multiset(s) - multiset{s[i]}
  {
    assert s == s[..i] + [s[i]] + s[i + 1..];
  }

  /** `erase(find(s, x))` guarded by `!= end`: drop the first occurrence of x, if there is one. */
  function RemoveFirst(s: seq<int>, x: int): (r: seq<int>)
  {
    var i := Find(s, x);
    if i < |s| then Delete(s, i) else s
  }

  /** a can be obtained from b by erasing elements: a is a subsequence of b. */
  ghost predicate IsSubsequence(a: seq<int>, b: seq<int>)
    decreases |b|
  {
    if b == [] then a == []
    else (a != [] && a[0] == b[0] && IsSubsequence(a[1..], b[1..])) || IsSubsequence(a, b[1..])
  }

  lemma {:induction false} SubsequenceReflexive(a: seq<int>)
    ensures IsSubsequence(a, a)
    decreases |a|
  {
    if a != [] {
      SubsequenceReflexive(a[1..]);
    }
  }

  lemma {:induction false} SubsequenceTransitive(a: seq<int>, b: seq<int>, c: seq<int>)
    requires IsSubsequence(a, b) && IsSubsequence(b, c)
    ensures IsSubsequence(a, c)
    decreases |c|
  {
    if c == [] {
    } else if b != [] && b[0] == c[0] && IsSubsequence(b[1..], c[1..]) {
      if a != [] && a[0] == b[0] && IsSubsequence(a[1..], b[1..]) {
        SubsequenceTransitive(a[1..], b[1..], c[1..]);
      } else {
        SubsequenceTransitive(a, b[1..], c[1..]);
      }
    } else {
      SubsequenceTransitive(a, b, c[1..]);
    }
  }

  /** A common first element can be put in front of both sides. */
  lemma SubsequenceCons(x: int, a: seq<int>, b: seq<int>)
    requires IsSubsequence(a, b)
    ensures IsSubsequence([x] + a, [x] + b)
  {
    assert ([x] + a)[1..] == a && ([x] + b)[1..] == b;
  }

  /** Erasing at a position after the first keeps the first element in front. */
  lemma DeleteCons(s: seq<int>, i: nat)
    requires 0 < i < |s|
    ensures Delete(s, i) == [s[0]] + Delete(s[1..], i - 1)
  {
    assert s[..i] == [s[0]] + s[1..][..i - 1];
    assert s[i + 1..] == s[1..][i..];
  }

  /** Erasing one element yields a subsequence. */
  lemma {:induction false} DeleteIsSubsequence(s: seq<int>, i: nat)
    requires i < |s|
    ensures IsSubsequence(Delete(s, i), s)
    decreases i
  {
    if i == 0 {
      assert Delete(s, 0) == s[1..];
      SubsequenceReflexive(s[1..]);
    } else {
      DeleteIsSubsequence(s[1..], i - 1);
      DeleteCons(s, i);
      SubsequenceCons(s[0], Delete(s[1..], i - 1), s[1..]);
      assert [s[0]] + s[1..] == s;
    }
  }

  /** A subsequence never holds an element more often than the sequence it was taken from. */
  lemma {:induction false} SubsequenceMultiset(a: seq<int>, b: seq<int>)
    requires IsSubsequence(a, b)
    ensures multiset(a) <= multiset(b)
    decreases |b|
  {
    if b != [] {
      assert b == [b[0]] + b[1..];
      if a != [] && a[0] == b[0] && IsSubsequence(a[1..], b[1..]) {
        SubsequenceMultiset(a[1..], b[1..]);
        assert a == [a[0]] + a[1..];
      } else {
        SubsequenceMultiset(a, b[1..]);
      }
    }
  }

  /** Membership carries over from a subsequence to the sequence it was taken from. */
  lemma SubsequenceContains(a: seq<int>, b: seq<int>, x: int)
    requires IsSubsequence(a, b) && x in a
    ensures x in b
  {
    SubsequenceMultiset(a, b);
    assert multiset(a)[x] > 0;
  }

  /** Appending to the longer sequence keeps the relation. */
  lemma {:induction false} SubsequenceAppend(a: seq<int>, b: seq<int>, x: int)
    requires IsSubsequence(a, b)
    ensures IsSubsequence(a, b + [x])
    decreases |b|
  {
    if b == [] {
      assert a == [];
      assert (b + [x])[1..] == [];
    } else {
      assert (b + [x])[1..] == b[1..] + [x];
      if a != [] && a[0] == b[0] && IsSubsequence(a[1..], b[1..]) {
        SubsequenceAppend(a[1..], b[1..], x);
      } else {
        SubsequenceAppend(a, b[1..], x);
      }
    }
  }

  /** What `erase(find(...))` promises: one fewer x when x was present, nothing else lost, order kept. */
  lemma RemoveFirstProperties(s: seq<int>, x: int)
    ensures x in s ==> |RemoveFirst(s, x)| == |s| - 1
    ensures multiset(RemoveFirst(s, x)) == multiset(s) - multiset{x}
    ensures x !in s ==> RemoveFirst(s, x) == s
    ensures IsSubsequence(RemoveFirst(s, x), s)
  {
    var i := Find(s, x);
    if i < |s| {
      DeleteMultiset(s, i);
      DeleteIsSubsequence(s, i);
    } else {
      SubsequenceReflexive(s);
      assert multiset(s)[x] == 0;
    }
  }

  /** Sum of the lengths of the lists: the arc count of a graph, or the preferences left. */
  function SumOfLengths(s: seq<seq<int>>): nat
  {
    if s == [] then 0 else SumOfLengths(s[..|s| - 1]) + |s[|s| - 1]|
  }

  /** Replacing one list changes the total by the difference in that list's length. */
  lemma {:induction false} SumOfLengthsUpdate(s: seq<seq<int>>, i: nat, t: seq<int>)
    requires i < |s|
    ensures SumOfLengths(s[i := t]) == SumOfLengths(s) - |s[i]| + |t|
    decreases |s|
  {
    var n := |s| - 1;
    if i < n {
      assert s[i := t][..n] == s[..n][i := t];
      SumOfLengthsUpdate(s[..n], i, t);
    } else {
      assert s[i := t][..n] == s[..n];
    }
  }

  /** No value occurs twice. */
  ghost predicate Distinct(s: seq<int>)
  {
    forall i, j :: 0 <= i < j < |s| ==> s[i] != s[j]
  }

  /** The values 0..n-1. */
  ghost function Below(n: int): set<int>
    decreases n
  {
    if n <= 0 then {} else Below(n - 1) + {n - 1}
  }

  /** Below(n) holds exactly the n values 0..n-1. */
  lemma {:induction false} BelowCard(n: nat)
    ensures |Below(n)| == n
    ensures forall x :: x in Below(n) <==> 0 <= x < n
  {
    if n > 0 {
      BelowCard(n - 1);
    }
  }

  /** A sequence without repeats has as many distinct values as entries. */
  lemma {:induction false} DistinctCard(s: seq<int>)
    requires Distinct(s)
    ensures |set x | x in s| == |s|
  {
    if s != [] {
      var k := |s| - 1;
      DistinctCard(s[..k]);
      assert s == s[..k] + [s[k]];
      assert (set x | x in s) == (set x | x in s[..k]) + {s[k]};
    }
  }

  /**
    * Pigeonhole: n values without repeats, each below n, take every value
    * below n.
    */
  lemma DistinctBelowCovers(s: seq<int>, n: nat)
    requires |s| == n && Distinct(s)
    requires forall i :: 0 <= i < |s| ==> 0 <= s[i] < n
    ensures forall x :: 0 <= x < n ==> x in s
  {
    var values := set x | x in s;
    DistinctCard(s);
    BelowCard(n);
    assert values <= Below(n);
    assert values * Below(n) == values;
    assert values + Below(n) == Below(n);
    assert |Below(n) - values| == 0;
    forall x | 0 <= x < n ensures x in s {
      assert x !in Below(n) - values;
    }
  }
}
