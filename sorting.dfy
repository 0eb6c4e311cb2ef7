/**
 * Ordering of tables: sorting by an integer key (non-increasing), taking the
 * first k rows (`sort_values(...).head(k)`), and the facts about them that the
 * rankings rely on.
 */
module Sorting {

  /** Non-increasing in `key` across the whole sequence. */
  ghost predicate SortedDesc<T>(s: seq<T>, key: T -> int)
  {
    forall i, j :: 0 <= i < j < |s| ==> key(s[i]) >= key(s[j])
  }

  /** No two elements share the identity `id`. */
  ghost predicate UniqueBy<T, K>(s: seq<T>, id: T -> K)
  {
    forall i, j :: 0 <= i < j < |s| ==> id(s[i]) != id(s[j])
  }

  function Min(a: int, b: int): int { if a <= b then a else b }

  /** Inserts `x` into a non-increasing sequence, keeping it non-increasing. */
  function Insert<T>(x: T, s: seq<T>, key: T -> int): (r: seq<T>)
    requires SortedDesc(s, key)
    ensures SortedDesc(r, key)
    ensures multiset(r) == multiset(s) + multiset{x}
    ensures |r| == |s| + 1
  {
    if s == [] then [x]
    else if key(x) >= key(s[0]) then
      assert s == [s[0]] + s[1..];
      [x] + s
    else
      var t := Insert(x, s[1..], key);
      InsertHead(x, s, t, key);
      [s[0]] + t
  }

  lemma InsertHead<T>(x: T, s: seq<T>, t: seq<T>, key: T -> int)
    requires s != [] && key(x) < key(s[0]) && SortedDesc(s, key)
    requires SortedDesc(t, key) && multiset(t) == multiset(s[1..]) + multiset{x}
    ensures SortedDesc([s[0]] + t, key)
    ensures multiset([s[0]] + t) == multiset(s) + multiset{x}
  {
    assert s == [s[0]] + s[1..];
    forall y | y in t ensures key(y) <= key(s[0]) {
      assert y in multiset(t);
      if y != x {
        assert y in multiset(s[1..]);
        var j :| 0 <= j < |s[1..]| && s[1..][j] == y;
        assert s[j + 1] == y;
      }
    }
    var r := [s[0]] + t;
    forall i, j | 0 <= i < j < |r| ensures key(r[i]) >= key(r[j]) {
      if i == 0 {
        assert r[j] in t;
      } else {
        assert r[i] == t[i - 1] && r[j] == t[j - 1];
      }
    }
  }

  /** `sort_values(key, ascending=False)`: an ordering of `s` that is non-increasing in `key`. */
  function SortDesc<T>(s: seq<T>, key: T -> int): (r: seq<T>)
    ensures SortedDesc(r, key)
    ensures multiset(r) == multiset(s)
    ensures |r| == |s|
  {
    if s == [] then []
    else
      assert s == [s[0]] + s[1..];
      Insert(s[0], SortDesc(s[1..], key), key)
  }

  /** Sorting neither adds nor drops a row. */
  lemma SortKeepsMembers<T>(s: seq<T>, key: T -> int)
    ensures forall x :: x in SortDesc(s, key) <==> x in s
  {
    var r := SortDesc(s, key);
    forall x ensures x in r <==> x in s {
      assert x in r <==> x in multiset(r);
      assert x in s <==> x in multiset(s);
    }
  }

  lemma {:induction false} InsertKeepsUnique<T, K>(x: T, s: seq<T>, key: T -> int, id: T -> K)
    requires SortedDesc(s, key) && UniqueBy(s, id)
    requires forall y :: y in s ==> id(y) != id(x)
    ensures UniqueBy(Insert(x, s, key), id)
  {
    if s != [] && key(x) < key(s[0]) {
      var t := Insert(x, s[1..], key);
      InsertKeepsUnique(x, s[1..], key, id);
      forall y | y in t ensures id(y) != id(s[0]) {
        assert y in multiset(t);
        if y != x {
          assert y in multiset(s[1..]);
          var j :| 0 <= j < |s[1..]| && s[1..][j] == y;
          assert s[j + 1] == y;
        }
      }
      var r := [s[0]] + t;
      forall i, j | 0 <= i < j < |r| ensures id(r[i]) != id(r[j]) {
        if i == 0 {
          assert r[j] in t;
        } else {
          assert r[i] == t[i - 1] && r[j] == t[j - 1];
        }
      }
    }
  }

  /** Sorting a table whose rows have distinct identities keeps them distinct. */
  lemma {:induction false} SortKeepsUnique<T, K>(s: seq<T>, key: T -> int, id: T -> K)
    requires UniqueBy(s, id)
    ensures UniqueBy(SortDesc(s, key), id)
  {
    if s != [] {
      assert s == [s[0]] + s[1..];
      var t := SortDesc(s[1..], key);
      SortKeepsUnique(s[1..], key, id);
      forall y | y in t ensures id(y) != id(s[0]) {
        assert y in multiset(s[1..]);
        var j :| 0 <= j < |s[1..]| && s[1..][j] == y;
        assert s[j + 1] == y;
      }
      InsertKeepsUnique(s[0], t, key, id);
    }
  }

  /**
   * `sort_values(key, ascending=False).head(k)`: the first min(k, |s|) rows of
   * the sorted table. They come from `s`, are non-increasing, and no row left
   * out has a larger key than a row kept.
   */
  function TopK<T>(s: seq<T>, key: T -> int, k: nat): (r: seq<T>)
    ensures |r| == Min(k, |s|)
    ensures multiset(r) <= multiset(s)
    ensures SortedDesc(r, key)
    ensures forall x, y :: x in s && x !in r && y in r ==> key(x) <= key(y)
  {
    var sorted := SortDesc(s, key);
    var n := Min(k, |s|);
    PrefixFacts(sorted, key, n);
    SortKeepsMembers(s, key);
    sorted[..n]
  }

  /** A prefix of a sorted sequence is sorted, is part of it, and no element after it is larger. */
  lemma PrefixFacts<T>(sorted: seq<T>, key: T -> int, n: nat)
    requires SortedDesc(sorted, key) && n <= |sorted|
    ensures multiset(sorted[..n]) <= multiset(sorted)
    ensures SortedDesc(sorted[..n], key)
    ensures forall x, y :: x in sorted && x !in sorted[..n] && y in sorted[..n] ==> key(x) <= key(y)
  {
    var r := sorted[..n];
    assert sorted == r + sorted[n..];
    assert multiset(sorted) == multiset(r) + multiset(sorted[n..]);
    forall x, y | x in sorted && x !in r && y in r ensures key(x) <= key(y) {
      var p :| 0 <= p < |sorted| && sorted[p] == x;
      var q :| 0 <= q < |r| && r[q] == y;
      assert forall i :: 0 <= i < n ==> r[i] == sorted[i];
      assert sorted[q] == y;
    }
  }

  lemma {:induction false} TakeKeepsUnique<T, K>(s: seq<T>, key: T -> int, id: T -> K, k: nat)
    requires UniqueBy(s, id)
    ensures UniqueBy(TopK(s, key, k), id)
  {
    SortKeepsUnique(s, key, id);
  }

  /** The largest element of a non-empty sequence. */
  function MaxOf(s: seq<int>): (m: int)
    requires |s| > 0
    ensures m in s
    ensures forall i :: 0 <= i < |s| ==> s[i] <= m
  {
    if |s| == 1 then s[0]
    else
      var p := s[..|s| - 1];
      var m := MaxOf(p);
      assert forall i :: 0 <= i < |s| - 1 ==> s[i] == p[i];
      if s[|s| - 1] > m then s[|s| - 1] else m
  }

  /** The smallest element of a non-empty sequence. */
  function MinOf(s: seq<int>): (m: int)
    requires |s| > 0
    ensures m in s
    ensures forall i :: 0 <= i < |s| ==> m <= s[i]
  {
    if |s| == 1 then s[0]
    else
      var p := s[..|s| - 1];
      var m := MinOf(p);
      assert forall i :: 0 <= i < |s| - 1 ==> s[i] == p[i];
      if s[|s| - 1] < m then s[|s| - 1] else m
  }

  /** A subset is no larger than its superset. */
  lemma {:induction false} SubsetCardinality<T>(a: set<T>, b: set<T>)
    requires a <= b
    ensures |a| <= |b|
    decreases |a|
  {
    if a != {} {
      var x :| x in a;
      SubsetCardinality(a - {x}, b - {x});
    }
  }
}
