/** Duplicate-free sequences and permutations. */
module Sequences {

  ghost predicate Distinct<T>(s: seq<T>) {
    forall i, j :: 0 <= i < j < |s| ==> s[i] != s[j]
  }

  ghost function Elements<T>(s: seq<T>): set<T> {
    set x | x in s
  }

  /** Duplicate-free means every multiplicity is at most one. */
  lemma {:induction false} DistinctMultiplicity<T>(s: seq<T>)
    ensures Distinct(s) <==> forall x :: multiset(s)[x] <= 1
  {
    if s != [] {
      var t := s[1..];
      DistinctMultiplicity(t);
      assert s == [s[0]] + t;
      assert multiset(s) == multiset{s[0]} + multiset(t);
      assert Distinct(s) <==> Distinct(t) && s[0] !in t by { DistinctHead(s); }
      if Distinct(s) {
        assert s[0] !in multiset(t);
      } else if s[0] in t {
        assert multiset(s)[s[0]] >= 2;
      } else {
        var x :| multiset(t)[x] > 1;
        assert multiset(s)[x] > 1;
      }
    }
  }

  lemma DistinctHead<T>(s: seq<T>)
    requires s != []
    ensures Distinct(s) <==> Distinct(s[1..]) && s[0] !in s[1..]
  {
    if Distinct(s[1..]) && s[0] !in s[1..] {
      forall i, j | 0 <= i < j < |s|
        ensures s[i] != s[j]
      {
        assert s[j] == s[1..][j - 1];
        if i > 0 { assert s[i] == s[1..][i - 1]; }
      }
    }
  }

  lemma {:induction false} DistinctAppend<T>(s: seq<T>, t: seq<T>)
    ensures Distinct(s + t) <==> Distinct(s) && Distinct(t) && Elements(s) !! Elements(t)
  {
    var u := s + t;
    assert forall i :: 0 <= i < |s| ==> u[i] == s[i];
    assert forall j :: 0 <= j < |t| ==> t[j] == u[|s| + j];
    if Distinct(u) {
    } else if Distinct(s) && Distinct(t) {
      var i, j :| 0 <= i < j < |u| && u[i] == u[j];
      assert i < |s| <= j;
      assert u[i] in Elements(s) && u[i] in Elements(t);
    }
  }

  /** Adding the elements of a list grows a set by the list's length exactly when the list is
      duplicate-free and disjoint from the set. */
  lemma {:induction false} GrowthIsExact<T>(before: set<T>, s: seq<T>)
    ensures |before + Elements(s)| <= |before| + |s|
    ensures |before + Elements(s)| == |before| + |s| <==> Distinct(s) && before !! Elements(s)
    decreases |s|
  {
    if s == [] {
      assert before + Elements(s) == before;
    } else {
      var more, t := before + {s[0]}, s[1..];
      GrowthIsExact(more, t);
      assert Elements(s) == {s[0]} + Elements(t);
      assert before + Elements(s) == more + Elements(t);
      DistinctHead(s);
    }
  }

  lemma ElementsAppend<T>(s: seq<T>, t: seq<T>)
    ensures Elements(s + t) == Elements(s) + Elements(t)
  {
  }

  function Range(n: nat): (r: seq<nat>)
    ensures |r| == n
  {
    seq(n, i => i)
  }

  /** Every index of the sequence occurs in it once. */
  ghost predicate IsPermutation(order: seq<nat>) {
    multiset(order) == multiset(Range(|order|))
  }

  lemma PermutationFacts(order: seq<nat>)
    requires IsPermutation(order)
    ensures Distinct(order)
    ensures forall x :: x in order <==> 0 <= x < |order|
  {
    DistinctMultiplicity(Range(|order|));
    DistinctMultiplicity(order);
    forall x
      ensures x in order <==> 0 <= x < |order|
    {
      assert x in order <==> x in multiset(order);
      assert x in Range(|order|) <==> x in multiset(Range(|order|));
      if 0 <= x < |order| { assert Range(|order|)[x] == x; }
    }
  }

  /** Images of two lists with the same elements have the same elements, when equal elements have
      equal images. */
  lemma {:induction false} ImageMultiset<T, U>(a: seq<T>, x: seq<U>, b: seq<T>, y: seq<U>)
    requires |a| == |x| && |b| == |y| && multiset(a) == multiset(b)
    requires forall i, j :: 0 <= i < |a| && 0 <= j < |b| && a[i] == b[j] ==> x[i] == y[j]
    ensures multiset(x) == multiset(y)
  {
    if a == [] {
      assert |multiset(b)| == 0;
    } else {
      assert a[0] in multiset(b);
      var j :| 0 <= j < |b| && b[j] == a[0];
      SameTail(a, b, j);
      forall i, k | 0 <= i < |a| - 1 && 0 <= k < |b| - 1 && a[1..][i] == Without(b, j)[k]
        ensures x[1..][i] == Without(y, j)[k]
      {
        var l := if k < j then k else k + 1;
        assert b[l] == Without(b, j)[k] && y[l] == Without(y, j)[k] && a[i + 1] == b[l];
      }
      ImageMultiset(a[1..], x[1..], Without(b, j), Without(y, j));
      SameTail(x, y, j);
    }
  }

  function Without<T>(s: seq<T>, j: nat): (r: seq<T>)
    requires j < |s|
    ensures |r| == |s| - 1
  {
    s[..j] + s[j + 1..]
  }

  lemma SameTail<T>(a: seq<T>, b: seq<T>, j: nat)
    requires a != [] && j < |b| && a[0] == b[j]
    ensures multiset(a) == multiset(b) <==> multiset(a[1..]) == multiset(Without(b, j))
  {
    assert a == [a[0]] + a[1..];
    RemoveAt(b, j);
    var h := multiset{a[0]};
    assert multiset(a) - h == multiset(a[1..]) && multiset(b) - h == multiset(Without(b, j));
  }

  lemma RemoveAt<T>(s: seq<T>, j: nat)
    requires j < |s|
    ensures multiset(s) == multiset{s[j]} + multiset(s[..j] + s[j + 1..])
  {
    assert s == s[..j] + [s[j]] + s[j + 1..];
  }
}
