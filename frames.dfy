/** Table primitives shared by the reconciliation rules: nullable cells, row filters
    (boolean masks), first-appearance `unique()`, and the grouping of rows by a key. */
module Frames {

  /** A nullable cell: `None` plays the part of pandas' NaN. */
  datatype Option<T> = None | Some(value: T)

  /** `np.where(a.isnull(), b, a)`: the first non-null of two cells. */
  function Coalesce<T>(a: Option<T>, b: Option<T>): (r: Option<T>)
    ensures r.Some? <==> a.Some? || b.Some?
    ensures a.Some? ==> r == a
    ensures a.None? ==> r == b
  {
    if a.None? then b else a
  }

  /** `Series.map(d)` on one cell: the dictionary value, or null for a key it lacks. */
  function Lookup<K, V>(d: map<K, V>, k: K): (r: Option<V>)
    ensures r.Some? <==> k in d
    ensures r.Some? ==> r.value == d[k]
  {
    if k in d then Some(d[k]) else None
  }

  /** `df[mask]`: the rows that satisfy `p`, in their original order. */
  function Filter<T(!new)>(s: seq<T>, p: T -> bool): (r: seq<T>)
    ensures |r| <= |s|
    ensures forall x :: x in r <==> x in s && p(x)
  {
    if s == [] then []
    else
      assert s == [s[0]] + s[1..];
      (if p(s[0]) then [s[0]] else []) + Filter(s[1..], p)
  }

  /** The first row adds one to the length of a filter exactly when it passes. */
  lemma FilterLength<T(!new)>(s: seq<T>, p: T -> bool)
    requires s != []
    ensures |Filter(s, p)| == (if p(s[0]) then 1 else 0) + |Filter(s[1..], p)|
  {
  }

  /** A mask keeps each passing row exactly as often as the table holds it. */
  lemma {:induction false} FilterMultiset<T(!new)>(s: seq<T>, p: T -> bool)
    ensures forall x :: multiset(Filter(s, p))[x] == if p(x) then multiset(s)[x] else 0
  {
    if s != [] {
      assert s == [s[0]] + s[1..];
      FilterMultiset(s[1..], p);
    }
  }

  /** Filtering distributes over concatenation: the kept rows stay in their original order. */
  lemma {:induction false} FilterConcat<T(!new)>(s: seq<T>, t: seq<T>, p: T -> bool)
    ensures Filter(s + t, p) == Filter(s, p) + Filter(t, p)
  {
    if s == [] {
      assert s + t == t;
    } else {
      assert (s + t)[1..] == s[1..] + t;
      FilterConcat(s[1..], t, p);
    }
  }

  /** A mask that every row passes keeps the whole table. */
  lemma {:induction false} FilterAll<T(!new)>(s: seq<T>, p: T -> bool)
    requires forall i :: 0 <= i < |s| ==> p(s[i])
    ensures Filter(s, p) == s
  {
    if s != [] {
      FilterAll(s[1..], p);
    }
  }

  /** A mask that no row passes keeps nothing. */
  lemma {:induction false} FilterNone<T(!new)>(s: seq<T>, p: T -> bool)
    requires forall i :: 0 <= i < |s| ==> !p(s[i])
    ensures Filter(s, p) == []
  {
    if s != [] {
      FilterNone(s[1..], p);
    }
  }

  /** A filter keeps something exactly when some row passes. */
  lemma FilterNonEmpty<T(!new)>(s: seq<T>, p: T -> bool)
    ensures Filter(s, p) != [] <==> exists i :: 0 <= i < |s| && p(s[i])
  {
    if Filter(s, p) != [] {
      assert Filter(s, p)[0] in Filter(s, p);
    }
    if i :| 0 <= i < |s| && p(s[i]) {
      assert s[i] in Filter(s, p);
    }
  }

  /** Two masks that agree on every row select the same rows. */
  lemma {:induction false} FilterExt<T(!new)>(s: seq<T>, p: T -> bool, q: T -> bool)
    requires forall i :: 0 <= i < |s| ==> p(s[i]) == q(s[i])
    ensures Filter(s, p) == Filter(s, q)
  {
    if s != [] {
      FilterExt(s[1..], p, q);
    }
  }

  /** Applying a mask `q` after a mask `p` selects the rows that pass both. */
  lemma {:induction false} FilterFilter<T(!new)>(s: seq<T>, p: T -> bool, q: T -> bool, pq: T -> bool)
    requires forall i :: 0 <= i < |s| ==> pq(s[i]) == (p(s[i]) && q(s[i]))
    ensures Filter(Filter(s, p), q) == Filter(s, pq)
  {
    if s != [] {
      var head := if p(s[0]) then [s[0]] else [];
      FilterFilter(s[1..], p, q, pq);
      FilterConcat(head, Filter(s[1..], p), q);
      if p(s[0]) {
        assert Filter(head, q) == if q(s[0]) then [s[0]] else [];
      }
    }
  }

  /** A column-wise transformation: `f` applied to every row. */
  function MapSeq<T, U>(s: seq<T>, f: T -> U): (r: seq<U>)
    ensures |r| == |s|
    ensures forall i :: 0 <= i < |s| ==> r[i] == f(s[i])
  {
    seq(|s|, i requires 0 <= i < |s| => f(s[i]))
  }

  /** A transformation of two tables put end to end is the two transformations end to end. */
  lemma MapSeqConcat<T, U>(a: seq<T>, b: seq<T>, f: T -> U)
    ensures MapSeq(a + b, f) == MapSeq(a, f) + MapSeq(b, f)
  {
  }

  /** The rows of a transformed table are the transformed rows. */
  lemma MapSeqMembers<T, U>(s: seq<T>, f: T -> U)
    ensures forall y :: y in MapSeq(s, f) ==> exists x :: x in s && y == f(x)
    ensures forall x :: x in s ==> f(x) in MapSeq(s, f)
  {
    forall y | y in MapSeq(s, f) ensures exists x :: x in s && y == f(x) {
      var i :| 0 <= i < |s| && MapSeq(s, f)[i] == y;
      assert s[i] in s;
    }
    forall x | x in s ensures f(x) in MapSeq(s, f) {
      var i :| 0 <= i < |s| && s[i] == x;
      assert MapSeq(s, f)[i] == f(x);
    }
  }

  /** Filtering after a row transformation keeps the same rows as filtering before it, when the mask
      reads only what the transformation leaves alone. */
  lemma {:induction false} FilterMapSeq<T(!new), U(!new)>(s: seq<T>, f: T -> U, p: U -> bool, q: T -> bool)
    requires forall i :: 0 <= i < |s| ==> p(f(s[i])) == q(s[i])
    ensures Filter(MapSeq(s, f), p) == MapSeq(Filter(s, q), f)
  {
    if s != [] {
      assert MapSeq(s, f) == [f(s[0])] + MapSeq(s[1..], f);
      FilterMapSeq(s[1..], f, p, q);
      if q(s[0]) {
        assert MapSeq([s[0]] + Filter(s[1..], q), f) == [f(s[0])] + MapSeq(Filter(s[1..], q), f);
      }
    }
  }

  /** Each row expanded into zero or more rows, the expansions concatenated in row order. */
  function FlatMap<T, U>(s: seq<T>, f: T -> seq<U>): seq<U> {
    if s == [] then [] else f(s[0]) + FlatMap(s[1..], f)
  }

  /** A row of the expansion comes from the expansion of some row, and every such row is kept. */
  lemma {:induction false} FlatMapMembers<T, U>(s: seq<T>, f: T -> seq<U>)
    ensures forall y :: y in FlatMap(s, f) ==> exists k :: 0 <= k < |s| && y in f(s[k])
    ensures forall k, y :: 0 <= k < |s| && y in f(s[k]) ==> y in FlatMap(s, f)
  {
    if s != [] {
      FlatMapMembers(s[1..], f);
      assert FlatMap(s, f) == f(s[0]) + FlatMap(s[1..], f);
      forall y | y in FlatMap(s, f) ensures exists k :: 0 <= k < |s| && y in f(s[k]) {
        if y !in f(s[0]) {
          assert y in FlatMap(s[1..], f);
          var k :| 0 <= k < |s[1..]| && y in f(s[1..][k]);
          assert s[1..][k] == s[k + 1];
        }
      }
      forall k, y | 0 <= k < |s| && y in f(s[k]) ensures y in FlatMap(s, f) {
        if k > 0 {
          assert s[1..][k - 1] == s[k];
          assert y in FlatMap(s[1..], f);
        }
      }
    }
  }

  /** An expansion that never drops a row is at least as long as the table. */
  lemma {:induction false} FlatMapLonger<T, U>(s: seq<T>, f: T -> seq<U>)
    requires forall k :: 0 <= k < |s| ==> f(s[k]) != []
    ensures |FlatMap(s, f)| >= |s|
  {
    if s != [] {
      assert forall k :: 0 <= k < |s[1..]| ==> s[1..][k] == s[k + 1];
      FlatMapLonger(s[1..], f);
    }
  }

  /** An expansion into exactly one row per row keeps the table's shape. */
  lemma {:induction false} FlatMapSingle<T, U>(s: seq<T>, f: T -> seq<U>)
    requires forall k :: 0 <= k < |s| ==> |f(s[k])| == 1
    ensures |FlatMap(s, f)| == |s|
    ensures forall i :: 0 <= i < |s| ==> FlatMap(s, f)[i] == f(s[i])[0]
  {
    if s != [] {
      assert forall k :: 0 <= k < |s[1..]| ==> s[1..][k] == s[k + 1];
      FlatMapSingle(s[1..], f);
      assert |f(s[0])| == 1;
    }
  }

  /** At most one row passes the mask. */
  predicate AtMostOne<T>(s: seq<T>, p: T -> bool) {
    forall i, j :: 0 <= i < j < |s| && p(s[i]) ==> !p(s[j])
  }

  /** The first row that passes the mask, if any. */
  function FirstWhere<T>(s: seq<T>, p: T -> bool): (r: Option<T>)
    ensures r.Some? ==> r.value in s && p(r.value)
    ensures r.None? ==> forall i :: 0 <= i < |s| ==> !p(s[i])
  {
    if s == [] then None else if p(s[0]) then Some(s[0]) else FirstWhere(s[1..], p)
  }

  /** When at most one row passes, the filter holds that row alone, or nothing. */
  lemma {:induction false} FilterAtMostOne<T(!new)>(s: seq<T>, p: T -> bool)
    requires AtMostOne(s, p)
    ensures Filter(s, p) == if FirstWhere(s, p).Some? then [FirstWhere(s, p).value] else []
  {
    if s != [] {
      assert AtMostOne(s[1..], p) by {
        forall i, j | 0 <= i < j < |s[1..]| && p(s[1..][i]) ensures !p(s[1..][j]) {
          assert s[1..][i] == s[i + 1] && s[1..][j] == s[j + 1];
        }
      }
      FilterAtMostOne(s[1..], p);
      if p(s[0]) {
        assert forall i :: 0 <= i < |s[1..]| ==> !p(s[1..][i]) by {
          forall i | 0 <= i < |s[1..]| ensures !p(s[1..][i]) {
            assert s[1..][i] == s[i + 1];
          }
        }
        assert Filter(s[1..], p) == [];
      }
    }
  }

  predicate NoDup<T(==)>(s: seq<T>) {
    forall i, j :: 0 <= i < j < |s| ==> s[i] != s[j]
  }

  /** The position of the first occurrence of `x` in `s`. */
  function IndexOf<T(==)>(s: seq<T>, x: T): (k: nat)
    requires x in s
    ensures k < |s| && s[k] == x
    ensures forall j :: 0 <= j < k ==> s[j] != x
  {
    if s[0] == x then 0 else 1 + IndexOf(s[1..], x)
  }

  /** `Series.unique()`: each value once, in the order of first appearance. */
  function Distinct<T(==,!new)>(s: seq<T>): (r: seq<T>)
    ensures NoDup(r)
    ensures forall x :: x in r <==> x in s
    decreases |s|
  {
    if s == [] then []
    else
      var init, last := s[..|s| - 1], s[|s| - 1];
      assert s == init + [last];
      var d := Distinct(init);
      if last in d then d else d + [last]
  }

  lemma {:induction false} IndexOfPrefix<T>(s: seq<T>, t: seq<T>, x: T)
    requires x in s
    ensures x in s + t && IndexOf(s + t, x) == IndexOf(s, x)
  {
    var k := IndexOf(s, x);
    var k' := IndexOf(s + t, x);
    assert (s + t)[k] == x;
    assert k' <= k;
    assert s[k'] == (s + t)[k'];
  }

  /** The values of `Distinct(s)` come in the order in which they first occur in `s`. */
  lemma {:induction false} DistinctFirstAppearance<T(!new)>(s: seq<T>)
    ensures forall i, j :: 0 <= i < j < |Distinct(s)| ==> IndexOf(s, Distinct(s)[i]) < IndexOf(s, Distinct(s)[j])
    decreases |s|
  {
    if s != [] {
      var init, last := s[..|s| - 1], s[|s| - 1];
      assert s == init + [last];
      var d := Distinct(init);
      DistinctFirstAppearance(init);
      var r := Distinct(s);
      forall i, j | 0 <= i < j < |r|
        ensures IndexOf(s, r[i]) < IndexOf(s, r[j])
      {
        assert r[i] == d[i];
        IndexOfPrefix(init, [last], r[i]);
        if j < |d| {
          assert r[j] == d[j];
          IndexOfPrefix(init, [last], r[j]);
          assert IndexOf(init, d[i]) < IndexOf(init, d[j]);
        } else {
          assert r[j] == last && last !in init;
          assert s[|init|] == last;
          assert IndexOf(init, r[i]) < |init|;
        }
      }
    }
  }

  /** The mask "the row's key is `k`". */
  function KeyIs<T, K(==)>(key: T -> K, k: K): T -> bool {
    x => key(x) == k
  }

  /** The rows whose key is `k`, in their original order (`df[df[key] == k]`). */
  function Group<T(!new), K(==)>(s: seq<T>, key: T -> K, k: K): (r: seq<T>)
    ensures forall x :: x in r <==> x in s && key(x) == k
  {
    Filter(s, KeyIs(key, k))
  }

  /** Selecting key `c` within the group of key `d`. */
  lemma GroupOfGroup<T(!new), K>(s: seq<T>, key: T -> K, d: K, c: K)
    ensures Group(Group(s, key, d), key, c) == if d == c then Group(s, key, c) else []
  {
    var g := Group(s, key, d);
    if d == c {
      assert forall i :: 0 <= i < |g| ==> g[i] in g;
      FilterAll(g, KeyIs(key, c));
    } else {
      FilterNone(g, KeyIs(key, c));
    }
  }

  /** The groups of `ks`, one after another (`pd.concat` in the order of `ks`). */
  function Flatten<T(!new), K(==)>(s: seq<T>, key: T -> K, ks: seq<K>): (r: seq<T>)
    ensures forall x :: x in r ==> x in s && key(x) in ks
  {
    if ks == [] then []
    else Flatten(s, key, ks[..|ks| - 1]) + Group(s, key, ks[|ks| - 1])
  }

  /** Concatenating the groups of distinct keys keeps each row of those keys exactly as often
      as the table holds it and drops the rows of other keys. */
  lemma {:induction false} FlattenCount<T(!new), K>(s: seq<T>, key: T -> K, ks: seq<K>)
    requires NoDup(ks)
    ensures forall x :: multiset(Flatten(s, key, ks))[x] == if key(x) in ks then multiset(s)[x] else 0
  {
    if ks != [] {
      var init, last := ks[..|ks| - 1], ks[|ks| - 1];
      assert ks == init + [last];
      assert NoDup(init);
      FlattenCount(s, key, init);
      FilterMultiset(s, KeyIs(key, last));
      forall x ensures multiset(Flatten(s, key, ks))[x] == if key(x) in ks then multiset(s)[x] else 0 {
        assert key(x) in ks <==> key(x) in init || key(x) == last;
        assert key(x) == last ==> key(x) !in init;
      }
    }
  }

  /** Selecting one key from the concatenated groups gives that key's group, or nothing. */
  lemma {:induction false} GroupFlatten<T(!new), K>(s: seq<T>, key: T -> K, ks: seq<K>, c: K)
    requires NoDup(ks)
    ensures Group(Flatten(s, key, ks), key, c) == if c in ks then Group(s, key, c) else []
  {
    if ks != [] {
      var init, last := ks[..|ks| - 1], ks[|ks| - 1];
      assert ks == init + [last];
      assert NoDup(init);
      GroupFlatten(s, key, init, c);
      FilterConcat(Flatten(s, key, init), Group(s, key, last), KeyIs(key, c));
      GroupOfGroup(s, key, last, c);
      assert c == last ==> c !in init;
    }
  }

  /** When `ks` lists every key of the table once, the groups together are the whole table. */
  lemma FlattenPermutation<T(!new), K>(s: seq<T>, key: T -> K, ks: seq<K>)
    requires NoDup(ks)
    requires forall i :: 0 <= i < |s| ==> key(s[i]) in ks
    ensures multiset(Flatten(s, key, ks)) == multiset(s)
    ensures |Flatten(s, key, ks)| == |s|
  {
    FlattenCount(s, key, ks);
    forall x ensures multiset(Flatten(s, key, ks))[x] == multiset(s)[x] {
      if x in s {
        var i :| 0 <= i < |s| && s[i] == x;
      }
    }
    assert multiset(Flatten(s, key, ks)) == multiset(s);
    assert |multiset(Flatten(s, key, ks))| == |Flatten(s, key, ks)|;
  }
}
