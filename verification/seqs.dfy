/**
  Sequence helpers for the SQL queries of the model: `WHERE` is a filter over
  the table's scan order, `ORDER BY a ASC, b ASC` a stable sort on a rank.
*/
module Seqs {

  ghost predicate Distinct<T>(s: seq<T>) {
    forall i, j :: 0 <= i < j < |s| ==> s[i] != s[j]
  }

  /** The elements of `s` satisfying `p`, in their original order. */
  function Filter<T(!new)>(s: seq<T>, p: T -> bool): (r: seq<T>)
    ensures |r| <= |s|
    ensures forall x :: x in r <==> x in s && p(x)
    ensures forall i :: 0 <= i < |r| ==> p(r[i])
  {
    if |s| == 0 then [] else (if p(s[0]) then [s[0]] else []) + Filter(s[1..], p)
  }

  lemma {:induction false} FilterDistinct<T(!new)>(s: seq<T>, p: T -> bool)
    requires Distinct(s)
    ensures Distinct(Filter(s, p))
  {
    if |s| > 0 {
      FilterDistinct(s[1..], p);
      assert s[0] !in s[1..];
    }
  }

  /** The elements of `s` that satisfy `p`, as a set. */
  function Passing<T(!new)>(s: seq<T>, p: T -> bool): set<T> {
    set x | x in s && p(x)
  }

  /** On a duplicate-free sequence, the filter has one entry per element that passes. */
  lemma {:induction false} FilterCount<T(!new)>(s: seq<T>, p: T -> bool)
    requires Distinct(s)
    ensures |Filter(s, p)| == |Passing(s, p)|
  {
    if |s| == 0 {
      assert Passing(s, p) == {};
    } else {
      FilterCount(s[1..], p);
      assert s == [s[0]] + s[1..];
      FilterCons(s[0], s[1..], p);
      assert s[0] !in s[1..];
      var rest := Passing(s[1..], p);
      if p(s[0]) {
        assert Passing(s, p) == rest + {s[0]};
        assert |Passing(s, p)| == |rest| + 1;
      } else {
        assert Passing(s, p) == rest;
      }
    }
  }

  /** A sort key compared lexicographically: `ORDER BY major ASC, minor ASC`. */
  datatype Rank = Rank(major: int, minor: int)

  predicate RankLe(a: Rank, b: Rank) {
    a.major < b.major || (a.major == b.major && a.minor <= b.minor)
  }

  predicate SortedBy<T>(s: seq<T>, rank: T -> Rank) {
    forall i, j :: 0 <= i < j < |s| ==> RankLe(rank(s[i]), rank(s[j]))
  }

  /**
    Insert `x` in front of the first element that does not rank below it,
    so `x` comes before the elements it ties with.
  */
  function Insert<T>(x: T, s: seq<T>, rank: T -> Rank): (r: seq<T>)
    requires SortedBy(s, rank)
    ensures multiset(r) == multiset(s) + multiset{x}
    ensures SortedBy(r, rank)
  {
    if |s| == 0 then [x]
    else if RankLe(rank(x), rank(s[0])) then [x] + s
    else
      var rest := s[1..];
      var r' := Insert(x, rest, rank);
      assert s == [s[0]] + rest;
      forall k | 0 <= k < |r'|
        ensures RankLe(rank(s[0]), rank(r'[k]))
      {
        assert r'[k] in multiset(r');
        if r'[k] != x {
          assert r'[k] in multiset(rest);
          var m :| 0 <= m < |rest| && rest[m] == r'[k];
          assert rest[m] == s[m + 1];
        }
      }
      SortedCons(s[0], r', rank);
      [s[0]] + r'
  }

  lemma SortedCons<T>(h: T, t: seq<T>, rank: T -> Rank)
    requires SortedBy(t, rank)
    requires forall k :: 0 <= k < |t| ==> RankLe(rank(h), rank(t[k]))
    ensures SortedBy([h] + t, rank)
  {
    var r := [h] + t;
    forall i, j | 0 <= i < j < |r|
      ensures RankLe(rank(r[i]), rank(r[j]))
    {
      assert r[j] == t[j - 1];
      if i > 0 {
        assert r[i] == t[i - 1];
      }
    }
  }

  /**
    `ORDER BY` over the scan order: sorted by rank and a permutation of the
    input. Rows of equal rank keep their scan order (`SortStable`); SQLite
    does not promise any particular order among ties, and no contract of
    the handlers relies on one.
  */
  function SortBy<T>(s: seq<T>, rank: T -> Rank): (r: seq<T>)
    ensures multiset(r) == multiset(s)
    ensures SortedBy(r, rank)
  {
    if |s| == 0 then []
    else
      assert s == [s[0]] + s[1..];
      Insert(s[0], SortBy(s[1..], rank), rank)
  }

  /** The elements of rank `k`. */
  function Tied<T>(rank: T -> Rank, k: Rank): T -> bool {
    (x: T) => rank(x) == k
  }

  /** Inserting `x` puts it before every element it ties with and leaves their order alone. */
  lemma {:induction false} InsertTies<T(!new)>(x: T, s: seq<T>, rank: T -> Rank, k: Rank)
    requires SortedBy(s, rank)
    ensures Filter(Insert(x, s, rank), Tied(rank, k))
         == (if rank(x) == k then [x] else []) + Filter(s, Tied(rank, k))
  {
    var p := Tied(rank, k);
    if |s| == 0 {
      FilterCons(x, s, p);
      assert [x] + s == [x];
    } else if RankLe(rank(x), rank(s[0])) {
      FilterCons(x, s, p);
    } else {
      var rest := s[1..];
      assert s == [s[0]] + rest;
      assert SortedBy(rest, rank);
      var tail := Insert(x, rest, rank);
      assert Insert(x, s, rank) == [s[0]] + tail;
      FilterCons(s[0], tail, p);
      InsertTies(x, rest, rank, k);
      FilterCons(s[0], rest, p);
      if rank(x) == k {
        assert !p(s[0]) && p(x);
        assert Filter([s[0]] + tail, p) == Filter(tail, p);
        assert Filter([s[0]] + rest, p) == Filter(rest, p);
      } else {
        assert !p(x);
        assert Filter(tail, p) == Filter(rest, p);
      }
    }
  }

  lemma FilterCons<T(!new)>(h: T, t: seq<T>, p: T -> bool)
    ensures Filter([h] + t, p) == (if p(h) then [h] else []) + Filter(t, p)
  {
    assert ([h] + t)[1..] == t;
  }

  /**
    The sort is stable: for every rank, the elements of that rank come out
    in the order they came in.
  */
  lemma {:induction false} SortStable<T(!new)>(s: seq<T>, rank: T -> Rank, k: Rank)
    ensures Filter(SortBy(s, rank), Tied(rank, k)) == Filter(s, Tied(rank, k))
  {
    if |s| > 0 {
      SortStable(s[1..], rank, k);
      InsertTies(s[0], SortBy(s[1..], rank), rank, k);
    }
  }

  /** Under a rank with a single value the sort changes nothing. */
  lemma SortOfTiesIsIdentity<T(!new)>(s: seq<T>, rank: T -> Rank, k: Rank)
    requires forall i :: 0 <= i < |s| ==> rank(s[i]) == k
    ensures SortBy(s, rank) == s
  {
    SortStable(s, rank, k);
    FilterAll(s, Tied(rank, k));
    var r := SortBy(s, rank);
    assert multiset(r) == multiset(s);
    forall i | 0 <= i < |r|
      ensures Tied(rank, k)(r[i])
    {
      assert r[i] in multiset(s);
    }
    FilterAll(r, Tied(rank, k));
  }

  lemma {:induction false} FilterAll<T(!new)>(s: seq<T>, p: T -> bool)
    requires forall i :: 0 <= i < |s| ==> p(s[i])
    ensures Filter(s, p) == s
  {
    if |s| > 0 {
      FilterAll(s[1..], p);
      assert s == [s[0]] + s[1..];
    }
  }

  lemma PermutationKeepsMembers<T(!new)>(a: seq<T>, b: seq<T>)
    requires multiset(a) == multiset(b)
    ensures |a| == |b|
    ensures forall x :: x in a <==> x in b
  {
    assert |multiset(a)| == |multiset(b)|;
    forall x
      ensures x in a <==> x in b
    {
      assert x in a <==> x in multiset(a);
      assert x in b <==> x in multiset(b);
    }
  }

  /** A permutation of a duplicate-free sequence is duplicate-free. */
  lemma PermutationDistinct<T>(a: seq<T>, b: seq<T>)
    requires multiset(a) == multiset(b) && Distinct(a)
    ensures Distinct(b)
  {
    forall i, j | 0 <= i < j < |b|
      ensures b[i] != b[j]
    {
      if b[i] == b[j] {
        var x := b[i];
        assert multiset(b)[x] >= 2 by {
          assert b == b[..i] + [x] + b[i + 1..j] + [x] + b[j + 1..];
          assert multiset(b) == multiset(b[..i]) + multiset{x} + multiset(b[i + 1..j]) + multiset{x} + multiset(b[j + 1..]);
        }
        DistinctCountAtMostOne(a, x);
      }
    }
  }

  lemma {:induction false} DistinctCountAtMostOne<T>(a: seq<T>, x: T)
    requires Distinct(a)
    ensures multiset(a)[x] <= 1
  {
    if |a| > 0 {
      assert a == [a[0]] + a[1..];
      assert Distinct(a[1..]);
      DistinctCountAtMostOne(a[1..], x);
      if a[0] == x {
        assert x !in a[1..];
        assert multiset(a[1..])[x] == 0;
      }
    }
  }
}
