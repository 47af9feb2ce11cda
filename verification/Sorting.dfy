/** Stands for std::sort: any order among elements of equal rank will do for its callers. */
module Sorting {

  predicate Ranked<T(==)>(s: seq<T>, rank: map<T, int>) {
    forall e | e in s :: e in rank
  }

  predicate Ordered<T(==)>(s: seq<T>, rank: map<T, int>)
    requires Ranked(s, rank)
  {
    forall i, j | 0 <= i < j < |s| :: rank[s[i]] <= rank[s[j]]
  }

  method Insert<T(==)>(s: seq<T>, e: T, rank: map<T, int>) returns (r: seq<T>)
    requires Ranked(s, rank) && Ordered(s, rank) && e in rank
    ensures multiset(r) == multiset(s) + multiset{e}
    ensures Ranked(r, rank) && Ordered(r, rank)
  {
    var k := 0;
    while k < |s| && rank[s[k]] < rank[e]
      invariant k <= |s| && forall i | 0 <= i < k :: rank[s[i]] < rank[e]
    {
      k := k + 1;
    }
    r := s[..k] + [e] + s[k..];
    InsertOrdered(s, e, k, rank);
    assert s == s[..k] + s[k..];
  }

  lemma InsertOrdered<T>(s: seq<T>, e: T, k: nat, rank: map<T, int>)
    requires Ranked(s, rank) && Ordered(s, rank) && e in rank && k <= |s|
    requires forall i | 0 <= i < k :: rank[s[i]] < rank[e]
    requires k < |s| ==> rank[e] <= rank[s[k]]
    ensures Ranked(s[..k] + [e] + s[k..], rank) && Ordered(s[..k] + [e] + s[k..], rank)
  {
    var r := s[..k] + [e] + s[k..];
    forall x | x in r ensures x in rank {
      var i :| 0 <= i < |r| && r[i] == x;
      assert i < k ==> x == s[i];
      assert i > k ==> x == s[i - 1];
    }
    forall i, j | 0 <= i < j < |r| ensures rank[r[i]] <= rank[r[j]] {
      assert i < k ==> r[i] == s[i];
      assert j < k ==> r[j] == s[j];
      assert i > k ==> r[i] == s[i - 1];
      assert j > k ==> r[j] == s[j - 1];
    }
  }

  method SortByRank<T(==)>(s: seq<T>, rank: map<T, int>) returns (sorted: seq<T>)
    requires Ranked(s, rank)
    ensures multiset(sorted) == multiset(s)
    ensures Ranked(sorted, rank) && Ordered(sorted, rank)
  {
    sorted := [];
    for n := 0 to |s|
      invariant multiset(sorted) == multiset(s[..n])
      invariant Ranked(sorted, rank) && Ordered(sorted, rank)
    {
      assert s[..n + 1] == s[..n] + [s[n]];
      sorted := Insert(sorted, s[n], rank);
    }
    assert s[..|s|] == s;
  }

  lemma SameElements<T>(a: seq<T>, b: seq<T>)
    requires multiset(a) == multiset(b)
    ensures |a| == |b| && forall e :: e in a <==> e in b
  {
    assert |a| == |multiset(a)| && |b| == |multiset(b)|;
    forall e ensures e in a <==> e in b {
      assert e in a <==> e in multiset(a);
      assert e in b <==> e in multiset(b);
    }
  }
}
