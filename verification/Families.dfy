/** Sequences of finite sets: their union, and how much of it is counted twice. */
module Families {

  function Union(parts: seq<set<int>>): set<int>
  {
    if parts == [] then {} else Union(parts[..|parts| - 1]) + parts[|parts| - 1]
  }

  function TotalSize(parts: seq<set<int>>): nat
  {
    if parts == [] then 0 else TotalSize(parts[..|parts| - 1]) + |parts[|parts| - 1]|
  }

  predicate Disjoint(parts: seq<set<int>>)
  {
    forall i, j :: 0 <= i < j < |parts| ==> parts[i] !! parts[j]
  }

  lemma {:induction false} InUnion(parts: seq<set<int>>, x: int)
    ensures x in Union(parts) <==> exists i :: 0 <= i < |parts| && x in parts[i]
  {
    if parts != [] {
      var n := |parts| - 1;
      InUnion(parts[..n], x);
      if x in Union(parts[..n]) {
        var i :| 0 <= i < n && x in parts[..n][i];
        assert x in parts[i];
      } else if x !in parts[n] {
        forall i | 0 <= i < |parts|
          ensures x !in parts[i]
        {
          if i < n { assert parts[..n][i] == parts[i]; }
        }
      }
    }
  }

  lemma UnionSize(a: set<int>, b: set<int>)
    ensures |a + b| == |a| + |b| - |a * b|
  {
    assert a + b == a + (b - a);
    assert b == (b - a) + a * b;
  }

  /** Counting the parts one by one overshoots the union, unless they are disjoint. */
  lemma {:induction false} OvercountIsOverlap(parts: seq<set<int>>)
    ensures |Union(parts)| <= TotalSize(parts)
    ensures |Union(parts)| == TotalSize(parts) <==> Disjoint(parts)
  {
    if parts != [] {
      var n := |parts| - 1;
      OvercountIsOverlap(parts[..n]);
      UnionSize(Union(parts[..n]), parts[n]);
      LastOverlaps(parts);
      DisjointBefore(parts);
    }
  }

  lemma LastOverlaps(parts: seq<set<int>>)
    requires parts != []
    ensures var n := |parts| - 1;
            Union(parts[..n]) * parts[n] == {} <==> forall i :: 0 <= i < n ==> parts[i] !! parts[n]
  {
    var n := |parts| - 1;
    forall x
      ensures x in Union(parts[..n]) <==> exists i :: 0 <= i < n && x in parts[i]
    {
      InUnion(parts[..n], x);
      if i :| 0 <= i < n && x in parts[i] { assert x in parts[..n][i]; }
    }
    var common := Union(parts[..n]) * parts[n];
    if x :| x in common {
      var i :| 0 <= i < n && x in parts[i];
      assert !(parts[i] !! parts[n]);
    } else {
      assert forall i, x :: 0 <= i < n && x in parts[i] && x in parts[n] ==> x in common;
    }
  }

  lemma DisjointBefore(parts: seq<set<int>>)
    requires parts != []
    ensures var n := |parts| - 1;
            Disjoint(parts) <==> Disjoint(parts[..n]) && forall i :: 0 <= i < n ==> parts[i] !! parts[n]
  {
    var before := parts[..|parts| - 1];
    assert forall i, j :: 0 <= i < j < |before| ==> (before[i] !! before[j] <==> parts[i] !! parts[j]);
  }

  lemma OneByOne(a: set<int>, b: set<int>, x: int)
    ensures a + b + {x} == a + (b + {x})
    ensures a - b - {x} == a - (b + {x})
    ensures x !in a - b ==> a - b == a - (b + {x})
  {
  }

  /** How many of the numbers below n are members. */
  function Size(s: set<int>, n: nat): nat
  {
    if n == 0 then 0 else Size(s, n - 1) + if n - 1 in s then 1 else 0
  }

  lemma {:induction false} SizeBound(s: set<int>, n: nat)
    ensures Size(s, n) <= n
  {
    if n > 0 { SizeBound(s, n - 1); }
  }

  lemma {:induction false} SizeMonotone(s: set<int>, t: set<int>, n: nat)
    requires s <= t
    ensures Size(s, n) <= Size(t, n)
  {
    if n > 0 { SizeMonotone(s, t, n - 1); }
  }

  lemma {:induction false} SizeCongruent(s: set<int>, t: set<int>, n: nat)
    requires forall x :: 0 <= x < n ==> (x in s <==> x in t)
    ensures Size(s, n) == Size(t, n)
  {
    if n > 0 { SizeCongruent(s, t, n - 1); }
  }

  lemma {:induction false} SizeRemove(s: set<int>, x: int, n: nat)
    requires x in s && 0 <= x < n
    ensures Size(s - {x}, n) == Size(s, n) - 1
  {
    if x == n - 1 {
      SizeCongruent(s, s - {x}, n - 1);
    } else {
      SizeRemove(s, x, n - 1);
    }
  }

  lemma SizeAdd(s: set<int>, x: int, n: nat)
    requires x !in s && 0 <= x < n
    ensures Size(s + {x}, n) == Size(s, n) + 1
  {
    SizeRemove(s + {x}, x, n);
    assert s + {x} - {x} == s;
  }

  lemma {:induction false} SizeIsCardinality(s: set<int>, n: nat)
    requires forall x :: x in s ==> 0 <= x < n
    ensures Size(s, n) == |s|
  {
    if n == 0 {
      forall x | x in s
        ensures false
      {
      }
    } else if n - 1 in s {
      SizeIsCardinality(s - {n - 1}, n - 1);
      SizeCongruent(s, s - {n - 1}, n - 1);
    } else {
      SizeIsCardinality(s, n - 1);
    }
  }
}
