/** Python's `sorted` as a stable insertion sort over a key function and a
    strict total order on keys.  `SortMe` sorts rows ascending by their key
    tuple; `Max` sorts rows descending by one column. */
module Sorting {
  import opened Values

  /** Insert `x`, which came before every element of `s` in the input, in
      front of the first element that does not sort strictly before it. */
  function Insert<T, K>(x: T, s: seq<T>, key: T -> K, lt: (K, K) -> bool): (r: seq<T>)
    ensures multiset(r) == multiset(s) + multiset{x}
  {
    if s == [] || !lt(key(s[0]), key(x)) then [x] + s
    else
      assert s == [s[0]] + s[1..];
      [s[0]] + Insert(x, s[1..], key, lt)
  }

  function SortBy<T, K>(s: seq<T>, key: T -> K, lt: (K, K) -> bool): (r: seq<T>)
    ensures multiset(r) == multiset(s)
  {
    if s == [] then []
    else
      assert s == [s[0]] + s[1..];
      Insert(s[0], SortBy(s[1..], key, lt), key, lt)
  }

  /** Non-decreasing by key: no later element sorts strictly before an earlier one. */
  ghost predicate SortedBy<T, K>(s: seq<T>, key: T -> K, lt: (K, K) -> bool) {
    forall i, j :: 0 <= i < j < |s| ==> !lt(key(s[j]), key(s[i]))
  }

  /** The elements of `s` whose key is `k`, in order. */
  function WithKey<T, K(==)>(s: seq<T>, key: T -> K, k: K): seq<T> {
    if s == [] then []
    else (if key(s[0]) == k then [s[0]] else []) + WithKey(s[1..], key, k)
  }

  /** No key sorts strictly before itself. */
  ghost predicate Irreflexive<K(!new)>(lt: (K, K) -> bool) {
    forall a :: !lt(a, a)
  }

  lemma NotLtTrans<K(!new)>(lt: (K, K) -> bool, a: K, b: K, c: K)
    requires StrictTotal(lt) && !lt(b, a) && !lt(c, b)
    ensures !lt(c, a)
  {
    if a != b {
      assert lt(a, b);
    }
  }

  /** Putting in front an element no later element sorts before keeps a
      sequence sorted. */
  lemma ConsSorted<T, K>(y: T, t: seq<T>, key: T -> K, lt: (K, K) -> bool)
    requires SortedBy(t, key, lt) && forall j :: 0 <= j < |t| ==> !lt(key(t[j]), key(y))
    ensures SortedBy([y] + t, key, lt)
  {
    var r := [y] + t;
    forall i, j | 0 <= i < j < |r| ensures !lt(key(r[j]), key(r[i])) {
      assert r[j] == t[j - 1];
      if i > 0 { assert r[i] == t[i - 1]; }
    }
  }

  lemma SortedByTail<T, K>(s: seq<T>, key: T -> K, lt: (K, K) -> bool)
    requires s != [] && SortedBy(s, key, lt)
    ensures SortedBy(s[1..], key, lt)
  {
    forall i, j | 0 <= i < j < |s[1..]| ensures !lt(key(s[1..][j]), key(s[1..][i])) {
      assert s[1..][j] == s[j + 1] && s[1..][i] == s[i + 1];
    }
  }

  lemma {:induction false} InsertSorted<T, K(!new)>(x: T, s: seq<T>, key: T -> K, lt: (K, K) -> bool)
    requires StrictTotal(lt) && SortedBy(s, key, lt)
    ensures SortedBy(Insert(x, s, key, lt), key, lt)
  {
    if s == [] || !lt(key(s[0]), key(x)) {
      forall j | 0 <= j < |s| ensures !lt(key(s[j]), key(x)) {
        if j > 0 { NotLtTrans(lt, key(x), key(s[0]), key(s[j])); }
      }
      ConsSorted(x, s, key, lt);
    } else {
      var t := Insert(x, s[1..], key, lt);
      SortedByTail(s, key, lt);
      InsertSorted(x, s[1..], key, lt);
      forall j | 0 <= j < |t| ensures !lt(key(t[j]), key(s[0])) {
        assert t[j] in multiset(t);
        if t[j] != x {
          assert t[j] in multiset(s[1..]);
          var i :| 0 <= i < |s[1..]| && s[1..][i] == t[j];
          assert s[i + 1] == t[j];
        }
      }
      ConsSorted(s[0], t, key, lt);
    }
  }

  lemma {:induction false} SortBySorted<T, K(!new)>(s: seq<T>, key: T -> K, lt: (K, K) -> bool)
    requires StrictTotal(lt)
    ensures SortedBy(SortBy(s, key, lt), key, lt)
  {
    if s != [] {
      SortBySorted(s[1..], key, lt);
      InsertSorted(s[0], SortBy(s[1..], key, lt), key, lt);
    }
  }

  lemma {:induction false} WithKeyAppend<T, K>(a: seq<T>, b: seq<T>, key: T -> K, k: K)
    ensures WithKey(a + b, key, k) == WithKey(a, key, k) + WithKey(b, key, k)
  {
    if a != [] {
      assert (a + b)[1..] == a[1..] + b;
      WithKeyAppend(a[1..], b, key, k);
    } else {
      assert a + b == b;
    }
  }

  lemma WithKeyCons<T, K>(y: T, s: seq<T>, key: T -> K, k: K)
    ensures WithKey([y] + s, key, k) == WithKey([y], key, k) + WithKey(s, key, k)
  {
    assert ([y] + s)[1..] == s;
    assert [y][1..] == [];
  }

  /** Putting `y` in front of `t` when `t` holds `x` in front of the rest
      of `s`, and `x` and `y` have different keys. */
  lemma StableStep<T, K>(x: T, s: seq<T>, t: seq<T>, key: T -> K, k: K)
    requires s != [] && key(s[0]) != key(x)
    requires WithKey(t, key, k) == WithKey([x], key, k) + WithKey(s[1..], key, k)
    ensures WithKey([s[0]] + t, key, k) == WithKey([x], key, k) + WithKey(s, key, k)
  {
    WithKeyCons(s[0], t, key, k);
    assert s == [s[0]] + s[1..];
    WithKeyCons(s[0], s[1..], key, k);
    var hx, h0, w := WithKey([x], key, k), WithKey([s[0]], key, k), WithKey(s[1..], key, k);
    assert hx == [] || h0 == [];
    assert h0 + (hx + w) == hx + (h0 + w);
  }

  /** Inserting keeps, for every key, the relative order of the elements
      with that key, with `x` in front of those equal to it. */
  lemma {:induction false} InsertStable<T, K(!new)>(x: T, s: seq<T>, key: T -> K, lt: (K, K) -> bool, k: K)
    requires Irreflexive(lt)
    ensures WithKey(Insert(x, s, key, lt), key, k) == WithKey([x], key, k) + WithKey(s, key, k)
  {
    if s == [] || !lt(key(s[0]), key(x)) {
      WithKeyCons(x, s, key, k);
    } else {
      assert !lt(key(x), key(x));
      InsertStable(x, s[1..], key, lt, k);
      StableStep(x, s, Insert(x, s[1..], key, lt), key, k);
    }
  }

  /** `sorted` is stable: for every key, the elements carrying it keep their order. */
  lemma {:induction false} SortByStable<T, K(!new)>(s: seq<T>, key: T -> K, lt: (K, K) -> bool, k: K)
    requires Irreflexive(lt)
    ensures WithKey(SortBy(s, key, lt), key, k) == WithKey(s, key, k)
  {
    if s != [] {
      var t := SortBy(s[1..], key, lt);
      assert SortBy(s, key, lt) == Insert(s[0], t, key, lt);
      SortByStable(s[1..], key, lt, k);
      InsertStable(s[0], t, key, lt, k);
      assert s == [s[0]] + s[1..];
      WithKeyCons(s[0], s[1..], key, k);
    }
  }
}
