/** Counting facts about sequences shared by the bounded tables. */
module Collections {

  ghost predicate Distinct<T(!new)>(s: seq<T>) {
    forall i, j :: 0 <= i < j < |s| ==> s[i] != s[j]
  }

  lemma {:induction false} DistinctCount<T(!new)>(s: seq<T>)
    requires Distinct(s)
    ensures |(set x <- s)| == |s|
  {
    if s == [] {
      assert (set x <- s) == {};
    } else {
      var t := s[..|s| - 1];
      DistinctCount(t);
      assert s == t + [s[|s| - 1]];
      assert (set x <- s) == (set x <- t) + {s[|s| - 1]};
      assert s[|s| - 1] !in t;
    }
  }

  lemma SubsetCount<T>(a: set<T>, b: set<T>)
    requires a <= b
    ensures |a| <= |b|
  {
    assert b == a + (b - a);
  }

  // A sequence without repetitions drawn from a set is no longer than the set.
  lemma DistinctWithin<T(!new)>(s: seq<T>, pool: set<T>)
    requires Distinct(s)
    requires forall x <- s :: x in pool
    ensures |s| <= |pool|
  {
    DistinctCount(s);
    SubsetCount((set x <- s), pool);
  }

  ghost function Below(n: nat): (r: set<nat>)
    ensures forall i: nat :: i in r <==> i < n
    ensures |r| == n
  {
    if n == 0 then {} else Below(n - 1) + {n - 1}
  }

  lemma DistinctBelow(s: seq<nat>, n: nat)
    requires Distinct(s)
    requires forall x <- s :: x < n
    ensures |s| <= n
  {
    DistinctWithin(s, Below(n));
  }

  lemma SliceOfSlice<T>(s: seq<T>, a: nat, b: nat, c: nat, d: nat)
    requires a <= b <= |s| && c <= d <= b - a
    ensures s[a..b][c..d] == s[a + c..a + d]
  {
    var inner := s[a..b];
    forall k | 0 <= k < d - c ensures inner[c..d][k] == s[a + c..a + d][k] {
      assert inner[c..d][k] == inner[c + k] == s[a + (c + k)];
    }
  }

  lemma PrefixOfPrefix<T>(s: seq<T>, i: nat, j: nat)
    requires i <= j <= |s|
    ensures s[..j][..i] == s[..i]
  {
  }
}
