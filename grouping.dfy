/**
 * Group-by over a table: the distinct keys of a column (missing keys dropped,
 * as `groupby` and `value_counts` do by default), a weighted count per key,
 * and the `idxmax` of a count column.
 */
module Grouping {
  import opened Wrappers
  import opened Sorting

  /** One row of a count table: a group key and its count. */
  datatype Count<K> = Count(key: K, count: nat)

  function ByCount<K>(c: Count<K>): int { c.count }

  function KeyOf<K>(c: Count<K>): K { c.key }

  /** Some row of `s` has the (non-missing) key `k`. */
  ghost predicate HasKey<T, K>(s: seq<T>, key: T -> Option<K>, k: K)
  {
    exists i :: 0 <= i < |s| && key(s[i]) == Some(k)
  }

  /** The distinct non-missing keys of `s`, in order of first occurrence. */
  function GroupKeys<T, K(==,!new)>(s: seq<T>, key: T -> Option<K>): (ks: seq<K>)
    ensures forall i, j :: 0 <= i < j < |ks| ==> ks[i] != ks[j]
    ensures forall k :: k in ks <==> HasKey(s, key, k)
  {
    if s == [] then []
    else
      var p := s[..|s| - 1];
      var ks := GroupKeys(p, key);
      var last := key(s[|s| - 1]);
      assert forall i :: 0 <= i < |p| ==> s[i] == p[i];
      assert forall k :: HasKey(s, key, k) <==> HasKey(p, key, k) || last == Some(k) by {
        forall k | HasKey(s, key, k) ensures HasKey(p, key, k) || last == Some(k) {
          var i :| 0 <= i < |s| && key(s[i]) == Some(k);
          if i < |p| { assert key(p[i]) == Some(k); }
        }
      }
      if last.None? || last.value in ks then ks else ks + [last.value]
  }

  /** The sum of `w` over the rows of `s` whose key is `k`. */
  function Weight<T, K(==)>(s: seq<T>, key: T -> Option<K>, w: T -> nat, k: K): nat
  {
    if s == [] then 0
    else
      Weight(s[..|s| - 1], key, w, k) + (if key(s[|s| - 1]) == Some(k) then w(s[|s| - 1]) else 0)
  }

  /** The sum of `w` over the rows of `s` that have a key at all. */
  function TotalWeight<T, K>(s: seq<T>, key: T -> Option<K>, w: T -> nat): nat
  {
    if s == [] then 0
    else
      TotalWeight(s[..|s| - 1], key, w) + (if key(s[|s| - 1]).Some? then w(s[|s| - 1]) else 0)
  }

  /** A weight of one per row: plain row counting. */
  function One<T>(x: T): nat { 1 }

  function SumCounts<K>(t: seq<Count<K>>): nat
  {
    if t == [] then 0 else t[0].count + SumCounts(t[1..])
  }

  /** One count row per key, in the order of `keys`. */
  function TableOf<T, K(==)>(keys: seq<K>, s: seq<T>, key: T -> Option<K>, w: T -> nat): (t: seq<Count<K>>)
    ensures |t| == |keys|
    ensures forall i :: 0 <= i < |t| ==> t[i] == Count(keys[i], Weight(s, key, w, keys[i]))
  {
    if keys == [] then [] else [Count(keys[0], Weight(s, key, w, keys[0]))] + TableOf(keys[1..], s, key, w)
  }

  /**
   * `groupby(key)[...].count()` / `value_counts(sort=False)`: one row per
   * distinct non-missing key, counting the weight of the rows with that key;
   * the counts add up to the weight of all rows that have a key.
   */
  function Tally<T, K(==,!new)>(s: seq<T>, key: T -> Option<K>, w: T -> nat): (t: seq<Count<K>>)
    ensures UniqueBy(t, KeyOf)
    ensures forall i :: 0 <= i < |t| ==> HasKey(s, key, t[i].key)
    ensures forall k :: HasKey(s, key, k) ==> exists i :: 0 <= i < |t| && t[i].key == k
    ensures forall i :: 0 <= i < |t| ==> t[i].count == Weight(s, key, w, t[i].key)
    ensures SumCounts(t) == TotalWeight(s, key, w)
  {
    var keys := GroupKeys(s, key);
    var t := TableOf(keys, s, key, w);
    assert forall k :: k in keys ==> exists i :: 0 <= i < |t| && t[i].key == k by {
      forall k | k in keys ensures exists i :: 0 <= i < |t| && t[i].key == k {
        var i :| 0 <= i < |keys| && keys[i] == k;
        assert t[i].key == k;
      }
    }
    TallySum(s, key, w);
    t
  }

  lemma {:induction false} WeightAbsent<T, K>(s: seq<T>, key: T -> Option<K>, w: T -> nat, k: K)
    requires !HasKey(s, key, k)
    ensures Weight(s, key, w, k) == 0
  {
    if s != [] {
      var p := s[..|s| - 1];
      assert forall i :: 0 <= i < |p| ==> p[i] == s[i];
      WeightAbsent(p, key, w, k);
    }
  }

  lemma {:induction false} SumCountsAppend<K>(a: seq<Count<K>>, b: seq<Count<K>>)
    ensures SumCounts(a + b) == SumCounts(a) + SumCounts(b)
  {
    if a == [] {
      assert a + b == b;
    } else {
      assert (a + b)[1..] == a[1..] + b;
      SumCountsAppend(a[1..], b);
    }
  }

  /** Appending one row to `s` adds its weight to the table over duplicate-free `keys` iff its key is among them. */
  lemma {:induction false} TableOfSnoc<T, K>(keys: seq<K>, s: seq<T>, x: T, key: T -> Option<K>, w: T -> nat)
    requires forall i, j :: 0 <= i < j < |keys| ==> keys[i] != keys[j]
    ensures SumCounts(TableOf(keys, s + [x], key, w))
         == SumCounts(TableOf(keys, s, key, w)) + (if key(x).Some? && key(x).value in keys then w(x) else 0)
  {
    if keys != [] {
      var s' := s + [x];
      assert s'[..|s'| - 1] == s;
      TableOfSnoc(keys[1..], s, x, key, w);
      if key(x).Some? && key(x).value == keys[0] {
        assert key(x).value !in keys[1..];
      }
      assert keys == [keys[0]] + keys[1..];
    }
  }

  lemma {:induction false} TallySum<T, K(!new)>(s: seq<T>, key: T -> Option<K>, w: T -> nat)
    ensures SumCounts(TableOf(GroupKeys(s, key), s, key, w)) == TotalWeight(s, key, w)
  {
    if s != [] {
      var p := s[..|s| - 1];
      var x := s[|s| - 1];
      assert s == p + [x];
      var kp := GroupKeys(p, key);
      TallySum(p, key, w);
      TableOfSnoc(kp, p, x, key, w);
      assert TotalWeight(s, key, w) == TotalWeight(p, key, w) + (if key(x).Some? then w(x) else 0);
      if key(x).Some? && key(x).value !in kp {
        var k := key(x).value;
        assert GroupKeys(s, key) == kp + [k];
        var tp := TableOf(kp, s, key, w);
        assert TableOf(kp + [k], s, key, w) == tp + [Count(k, Weight(s, key, w, k))];
        SumCountsAppend(tp, [Count(k, Weight(s, key, w, k))]);
        WeightAbsent(p, key, w, k);
      } else {
        assert GroupKeys(s, key) == kp;
      }
    }
  }

  lemma {:induction false} SumCountsInsert<K>(x: Count<K>, t: seq<Count<K>>, key: Count<K> -> int)
    requires SortedDesc(t, key)
    ensures SumCounts(Insert(x, t, key)) == x.count + SumCounts(t)
  {
    if t != [] && key(x) < key(t[0]) {
      SumCountsInsert(x, t[1..], key);
    }
  }

  /** Sorting a count table does not change the sum of its counts. */
  lemma {:induction false} SumCountsSorted<K>(t: seq<Count<K>>, key: Count<K> -> int)
    ensures SumCounts(SortDesc(t, key)) == SumCounts(t)
  {
    if t != [] {
      SumCountsSorted(t[1..], key);
      SumCountsInsert(t[0], SortDesc(t[1..], key), key);
    }
  }

  /** `a` sorts strictly before `b` in code-point (lexicographic) order, as Python compares strings. */
  predicate Below(a: string, b: string)
  {
    if a == [] then b != []
    else if b == [] then false
    else if a[0] != b[0] then a[0] < b[0]
    else Below(a[1..], b[1..])
  }

  lemma {:induction false} BelowTransitive(a: string, b: string, c: string)
    requires Below(a, b) && Below(b, c)
    ensures Below(a, c)
  {
    if a != [] && a[0] == b[0] && b[0] == c[0] {
      BelowTransitive(a[1..], b[1..], c[1..]);
    }
  }

  lemma {:induction false} BelowTotal(a: string, b: string)
    requires a != b
    ensures Below(a, b) || Below(b, a)
  {
    if a != [] && b != [] && a[0] == b[0] {
      assert a == [a[0]] + a[1..] && b == [b[0]] + b[1..];
      BelowTotal(a[1..], b[1..]);
    }
  }

  /**
   * `idxmax` of the count column of a key-ordered group-by table: the position
   * of a maximal count whose key is the least among all maximal counts.
   */
  function ArgMaxLeastKey(t: seq<Count<string>>): (i: nat)
    requires |t| > 0
    ensures i < |t|
    ensures forall j :: 0 <= j < |t| ==> t[j].count <= t[i].count
    ensures forall j :: 0 <= j < |t| && t[j].count == t[i].count && t[j].key != t[i].key ==> Below(t[i].key, t[j].key)
  {
    if |t| == 1 then 0
    else
      var p := t[..|t| - 1];
      var b := ArgMaxLeastKey(p);
      var n := |t| - 1;
      assert forall j :: 0 <= j < n ==> t[j] == p[j];
      if t[n].count > t[b].count then n
      else if t[n].count == t[b].count && Below(t[n].key, t[b].key) then
        assert forall j :: 0 <= j < n && t[j].count == t[n].count && t[j].key != t[n].key ==> Below(t[n].key, t[j].key) by {
          forall j | 0 <= j < n && t[j].count == t[n].count && t[j].key != t[n].key
            ensures Below(t[n].key, t[j].key)
          {
            if t[j].key != t[b].key { BelowTransitive(t[n].key, t[b].key, t[j].key); }
          }
        }
        n
      else
        assert t[n].count == t[b].count && t[n].key != t[b].key ==> Below(t[b].key, t[n].key) by {
          if t[n].count == t[b].count && t[n].key != t[b].key { BelowTotal(t[n].key, t[b].key); }
        }
        b
  }

  /**
   * A count table sorted by descending count (`sort_values(ascending=False)`
   * after a group-by count): the keys are the distinct non-missing keys,
   * each listed once with the weight of its rows, and the counts add up to
   * the weight of every row that has a key.
   */
  function Ranking<T, K(==,!new)>(s: seq<T>, key: T -> Option<K>, w: T -> nat): (t: seq<Count<K>>)
    ensures SortedDesc(t, ByCount)
    ensures UniqueBy(t, KeyOf)
    ensures forall i :: 0 <= i < |t| ==> HasKey(s, key, t[i].key)
    ensures forall k :: HasKey(s, key, k) ==> exists i :: 0 <= i < |t| && t[i].key == k
    ensures forall i :: 0 <= i < |t| ==> t[i].count == Weight(s, key, w, t[i].key)
    ensures SumCounts(t) == TotalWeight(s, key, w)
    ensures t == [] <==> forall i :: 0 <= i < |s| ==> key(s[i]).None?
  {
    var u := Tally(s, key, w);
    var t := SortDesc(u, ByCount);
    SortKeepsUnique(u, ByCount, KeyOf);
    SumCountsSorted(u, ByCount);
    TallyEmpty(s, key, w);
    RankingEntries(s, key, w, u, t);
    RankingCovers(s, key, w, u, t);
    t
  }

  /** Sorting the tally keeps every entry's key and count. */
  lemma RankingEntries<T, K(!new)>(s: seq<T>, key: T -> Option<K>, w: T -> nat, u: seq<Count<K>>, t: seq<Count<K>>)
    requires u == Tally(s, key, w) && multiset(t) == multiset(u)
    ensures forall i :: 0 <= i < |t| ==> HasKey(s, key, t[i].key) && t[i].count == Weight(s, key, w, t[i].key)
  {
    forall i | 0 <= i < |t| ensures HasKey(s, key, t[i].key) && t[i].count == Weight(s, key, w, t[i].key) {
      assert t[i] in multiset(u);
      var j :| 0 <= j < |u| && u[j] == t[i];
    }
  }

  /** Sorting the tally keeps every key. */
  lemma RankingCovers<T, K(!new)>(s: seq<T>, key: T -> Option<K>, w: T -> nat, u: seq<Count<K>>, t: seq<Count<K>>)
    requires u == Tally(s, key, w) && multiset(t) == multiset(u)
    ensures forall k :: HasKey(s, key, k) ==> exists i :: 0 <= i < |t| && t[i].key == k
  {
    forall k | HasKey(s, key, k) ensures exists i :: 0 <= i < |t| && t[i].key == k {
      var j :| 0 <= j < |u| && u[j].key == k;
      assert u[j] in multiset(t);
      var i :| 0 <= i < |t| && t[i] == u[j];
    }
  }

  lemma TallyEmpty<T, K(!new)>(s: seq<T>, key: T -> Option<K>, w: T -> nat)
    ensures Tally(s, key, w) == [] <==> forall i :: 0 <= i < |s| ==> key(s[i]).None?
  {
    var u := Tally(s, key, w);
    if u != [] {
      assert HasKey(s, key, u[0].key);
    } else {
      forall i | 0 <= i < |s| ensures key(s[i]).None? {
        if key(s[i]).Some? { assert HasKey(s, key, key(s[i]).value); }
      }
    }
  }

  /**
   * `m` is the key `idxmax` picks from a key-ordered count table: an entry
   * with key `m` has the largest count, and every other key with that count
   * sorts after `m`.
   */
  ghost predicate LeastMostCommon(t: seq<Count<string>>, m: string)
  {
    exists i :: 0 <= i < |t| && t[i].key == m
      && (forall j :: 0 <= j < |t| ==> t[j].count <= t[i].count)
      && (forall j :: 0 <= j < |t| && t[j].count == t[i].count && t[j].key != m ==> Below(m, t[j].key))
  }

  lemma LeastMostCommonOfArgMax(t: seq<Count<string>>)
    requires |t| > 0
    ensures LeastMostCommon(t, t[ArgMaxLeastKey(t)].key)
  {
    var i := ArgMaxLeastKey(t);
    assert t[i].key == t[i].key;
  }

  /** The most common key does not depend on the order of the table's rows. */
  lemma LeastMostCommonReordered(u: seq<Count<string>>, t: seq<Count<string>>, m: string)
    requires forall x :: x in t <==> x in u
    requires LeastMostCommon(u, m)
    ensures LeastMostCommon(t, m)
  {
    var i :| 0 <= i < |u| && u[i].key == m
      && (forall j :: 0 <= j < |u| ==> u[j].count <= u[i].count)
      && (forall j :: 0 <= j < |u| && u[j].count == u[i].count && u[j].key != m ==> Below(m, u[j].key));
    assert u[i] in t;
    var i' :| 0 <= i' < |t| && t[i'] == u[i];
    forall j | 0 <= j < |t|
      ensures t[j].count <= t[i'].count
      ensures t[j].count == t[i'].count && t[j].key != m ==> Below(m, t[j].key)
    {
      assert t[j] in u;
      var k :| 0 <= k < |u| && u[k] == t[j];
    }
  }
}
