/** The ordering of candidates for a shift (src/App.jsx:169 and 180):
    fewest shifts of that kind so far first. Among candidates with the same
    count the program lets `Math.random` decide; here a rank supplied by the
    caller decides, so every property below holds whatever the ranks are. */
module Ranking {
  import opened Common

  /** Candidate `a` may come before candidate `b`: it has fewer shifts, or
      as many and a rank no greater. */
  predicate NoLater(count: seq<nat>, rank: seq<int>, a: nat, b: nat)
    requires a < |count| && b < |count| && |rank| == |count|
  {
    count[a] < count[b] || (count[a] == count[b] && rank[a] <= rank[b])
  }

  predicate InRange(count: seq<nat>, s: seq<nat>) {
    forall i :: 0 <= i < |s| ==> s[i] < |count|
  }

  /** Candidate `a` may come before every entry of `s`. */
  predicate Leads(count: seq<nat>, rank: seq<int>, a: nat, s: seq<nat>)
    requires a < |count| && InRange(count, s) && |rank| == |count|
  {
    forall j :: 0 <= j < |s| ==> NoLater(count, rank, a, s[j])
  }

  /** Each entry may come before all entries after it. */
  predicate SortedBy(count: seq<nat>, rank: seq<int>, s: seq<nat>)
    requires InRange(count, s) && |rank| == |count|
  {
    |s| <= 1 || (Leads(count, rank, s[0], s[1..]) && SortedBy(count, rank, s[1..]))
  }

  /** Puts `x` into a sorted list in front of the first entry it may come
      before. */
  function Insert(count: seq<nat>, rank: seq<int>, x: nat, s: seq<nat>): (r: seq<nat>)
    requires x < |count| && InRange(count, s) && |rank| == |count|
    requires SortedBy(count, rank, s)
    ensures multiset(r) == multiset(s) + multiset{x}
    ensures InRange(count, r) && SortedBy(count, rank, r)
    ensures forall a: nat :: a < |count| && Leads(count, rank, a, s) && NoLater(count, rank, a, x) ==> Leads(count, rank, a, r)
  {
    if s == [] then [x]
    else if NoLater(count, rank, x, s[0]) then
      var r := [x] + s;
      assert r[1..] == s;
      assert Leads(count, rank, x, s) by {
        forall j | 0 <= j < |s| ensures NoLater(count, rank, x, s[j]) {
          if j > 0 {
            assert NoLater(count, rank, s[0], s[1..][j - 1]);
          }
        }
      }
      r
    else
      var rest := Insert(count, rank, x, s[1..]);
      var r := [s[0]] + rest;
      assert s == [s[0]] + s[1..];
      assert r[1..] == rest;
      r
  }

  /** `list.sort(comparator)`: a permutation of the candidates in which
      fewer shifts always come first. */
  function SortByCount(count: seq<nat>, rank: seq<int>, s: seq<nat>): (r: seq<nat>)
    requires InRange(count, s) && |rank| == |count|
    ensures multiset(r) == multiset(s)
    ensures InRange(count, r) && SortedBy(count, rank, r)
  {
    if s == [] then []
    else
      assert s == [s[0]] + s[1..];
      Insert(count, rank, s[0], SortByCount(count, rank, s[1..]))
  }

  /** In a sorted list an earlier candidate never has more shifts than a
      later one. */
  lemma {:induction false} SortedCounts(count: seq<nat>, rank: seq<int>, s: seq<nat>, p: int, q: int)
    requires InRange(count, s) && |rank| == |count| && SortedBy(count, rank, s)
    requires 0 <= p < q < |s|
    ensures count[s[p]] <= count[s[q]]
  {
    if p == 0 {
      assert NoLater(count, rank, s[0], s[1..][q - 1]);
    } else {
      SortedCounts(count, rank, s[1..], p - 1, q - 1);
    }
  }

  /** A permutation keeps the members and, when there are no repeats, keeps
      there being none. */
  lemma {:induction false} PermutationNoDup(s: seq<nat>, t: seq<nat>)
    requires multiset(s) == multiset(t) && NoDup(s)
    ensures NoDup(t)
    ensures forall x :: x in t <==> x in s
  {
    forall x ensures x in t <==> x in s {
      assert x in t <==> x in multiset(t);
      assert x in s <==> x in multiset(s);
    }
    forall p, q | 0 <= p < q < |t| ensures t[p] != t[q] {
      if t[p] == t[q] {
        assert t == t[..q] + [t[q]] + t[q + 1..];
        assert t[p] in t[..q];
        assert multiset(t)[t[q]] >= 2;
        NoDupCount(s, t[q]);
        assert false;
      }
    }
  }

  lemma {:induction false} NoDupCount(s: seq<nat>, x: nat)
    requires NoDup(s)
    ensures multiset(s)[x] <= 1
  {
    if s != [] {
      assert s == [s[0]] + s[1..];
      assert NoDup(s[1..]);
      NoDupCount(s[1..], x);
      if s[0] == x {
        assert x !in s[1..];
      }
    }
  }
}
