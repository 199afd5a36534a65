/** `itertools.groupby` on the key tuple: the maximal runs of consecutive
    rows whose key tuples are equal.  Reduce, Aggregate and Join group this way. */
module Grouping {
  import opened Values
  import Sorting

  /** The key function `lambda x: tuple(x[k] for k in keys)` as a value. */
  function KeyFn(keys: seq<string>): Row -> Key {
    (r: Row) => KeyOf(r, keys)
  }

  /** Rows sorted ascending by their key tuple. */
  ghost predicate SortedByKey(rows: seq<Row>, keys: seq<string>) {
    Sorting.SortedBy(rows, KeyFn(keys), KeyLt)
  }

  /** The four facts that make `g` the groupby of `rows`: the runs
      concatenate to the input, no run is empty, every row of a run has the
      run's key, and neighbouring runs differ in key. */
  ghost predicate IsRunPartition(rows: seq<Row>, keys: seq<string>, g: seq<seq<Row>>) {
    Flatten(g) == rows &&
    (forall i :: 0 <= i < |g| ==> g[i] != []) &&
    (forall i, j :: 0 <= i < |g| && 0 <= j < |g[i]| ==> KeyOf(g[i][j], keys) == KeyOf(g[i][0], keys)) &&
    (forall i :: 0 <= i < |g| - 1 ==> KeyOf(g[i][0], keys) != KeyOf(g[i + 1][0], keys))
  }

  /** The runs of `rows`. */
  function Runs(rows: seq<Row>, keys: seq<string>): (g: seq<seq<Row>>)
    ensures IsRunPartition(rows, keys, g)
  {
    if rows == [] then []
    else
      var rest := Runs(rows[1..], keys);
      if rest != [] && KeyOf(rest[0][0], keys) == KeyOf(rows[0], keys) then
        JoinFirstRun(rows, keys, rest);
        [[rows[0]] + rest[0]] + rest[1..]
      else
        NewFirstRun(rows, keys, rest);
        [[rows[0]]] + rest
  }

  /** The first row joins the first run of the rest when it has that run's key... */
  lemma JoinFirstRun(rows: seq<Row>, keys: seq<string>, rest: seq<seq<Row>>)
    requires rows != [] && IsRunPartition(rows[1..], keys, rest)
    requires rest != [] && KeyOf(rest[0][0], keys) == KeyOf(rows[0], keys)
    ensures IsRunPartition(rows, keys, [[rows[0]] + rest[0]] + rest[1..])
  {
    var h := [[rows[0]] + rest[0]] + rest[1..];
    assert Flatten(rest) == rest[0] + Flatten(rest[1..]);
    assert Flatten(h) == [rows[0]] + rest[0] + Flatten(rest[1..]);
    assert rows == [rows[0]] + rows[1..];
    forall i, j | 0 <= i < |h| && 0 <= j < |h[i]| ensures KeyOf(h[i][j], keys) == KeyOf(h[i][0], keys) {
      if i == 0 {
        if j > 0 { assert h[0][j] == rest[0][j - 1]; }
      } else {
        assert h[i] == rest[i];
      }
    }
    forall i | 0 <= i < |h| - 1 ensures KeyOf(h[i][0], keys) != KeyOf(h[i + 1][0], keys) {
      assert h[i + 1] == rest[i + 1];
      if i > 0 { assert h[i] == rest[i]; }
    }
    forall i | 0 <= i < |h| ensures h[i] != [] {
      if i > 0 { assert h[i] == rest[i]; }
    }
  }

  /** ...and starts a run of its own otherwise. */
  lemma NewFirstRun(rows: seq<Row>, keys: seq<string>, rest: seq<seq<Row>>)
    requires rows != [] && IsRunPartition(rows[1..], keys, rest)
    requires !(rest != [] && KeyOf(rest[0][0], keys) == KeyOf(rows[0], keys))
    ensures IsRunPartition(rows, keys, [[rows[0]]] + rest)
  {
    var h := [[rows[0]]] + rest;
    assert Flatten(h) == [rows[0]] + Flatten(rest);
    assert rows == [rows[0]] + rows[1..];
    forall i, j | 0 <= i < |h| && 0 <= j < |h[i]| ensures KeyOf(h[i][j], keys) == KeyOf(h[i][0], keys) {
      if i > 0 { assert h[i] == rest[i - 1]; }
    }
    forall i | 0 <= i < |h| - 1 ensures KeyOf(h[i][0], keys) != KeyOf(h[i + 1][0], keys) {
      assert h[i + 1] == rest[i];
      if i > 0 { assert h[i] == rest[i - 1]; }
    }
    forall i | 0 <= i < |h| ensures h[i] != [] {
      if i > 0 { assert h[i] == rest[i - 1]; }
    }
  }

  /** Dropping the first row from a run partition whose first run has more rows. */
  lemma PartitionDropFromFirst(rows: seq<Row>, keys: seq<string>, g: seq<seq<Row>>)
    requires IsRunPartition(rows, keys, g) && g != [] && |g[0]| > 1
    ensures IsRunPartition(rows[1..], keys, [g[0][1..]] + g[1..])
  {
    var h := [g[0][1..]] + g[1..];
    assert Flatten(h) == g[0][1..] + Flatten(g[1..]);
    assert Flatten(g) == [g[0][0]] + g[0][1..] + Flatten(g[1..]);
    forall i, j | 0 <= i < |h| && 0 <= j < |h[i]| ensures KeyOf(h[i][j], keys) == KeyOf(h[i][0], keys) {
      if i == 0 { assert h[0][j] == g[0][j + 1] && h[0][0] == g[0][1]; }
      else { assert h[i] == g[i]; }
    }
    forall i | 0 <= i < |h| - 1 ensures KeyOf(h[i][0], keys) != KeyOf(h[i + 1][0], keys) {
      if i == 0 { assert h[0][0] == g[0][1] && h[1] == g[1]; }
      else { assert h[i] == g[i] && h[i + 1] == g[i + 1]; }
    }
    forall i | 0 <= i < |h| ensures h[i] != [] {
      if i > 0 { assert h[i] == g[i]; }
    }
  }

  /** Dropping a first run that holds one row. */
  lemma PartitionDropFirstRun(rows: seq<Row>, keys: seq<string>, g: seq<seq<Row>>)
    requires IsRunPartition(rows, keys, g) && g != [] && |g[0]| == 1
    ensures IsRunPartition(rows[1..], keys, g[1..])
  {
    var h := g[1..];
    assert Flatten(g) == g[0] + Flatten(h);
    forall i, j | 0 <= i < |h| && 0 <= j < |h[i]| ensures KeyOf(h[i][j], keys) == KeyOf(h[i][0], keys) {
      assert h[i] == g[i + 1];
    }
    forall i | 0 <= i < |h| - 1 ensures KeyOf(h[i][0], keys) != KeyOf(h[i + 1][0], keys) {
      assert h[i] == g[i + 1] && h[i + 1] == g[i + 2];
    }
    forall i | 0 <= i < |h| ensures h[i] != [] {
      assert h[i] == g[i + 1];
    }
  }

  lemma FlattenNonEmpty<T>(g: seq<seq<T>>)
    ensures g != [] && g[0] != [] ==> Flatten(g) != []
  {
  }

  /** The grouping is determined by those four facts: `Runs` is the only
      partition into maximal equal-key runs. */
  lemma {:induction false} RunsUnique(rows: seq<Row>, keys: seq<string>, g: seq<seq<Row>>)
    requires IsRunPartition(rows, keys, g)
    ensures g == Runs(rows, keys)
    decreases |rows|
  {
    FlattenNonEmpty(g);
    if rows != [] {
      assert g != [];
      assert Flatten(g) == g[0] + Flatten(g[1..]);
      assert g[0][0] == rows[0];
      var rest := Runs(rows[1..], keys);
      if |g[0]| > 1 {
        PartitionDropFromFirst(rows, keys, g);
        RunsUnique(rows[1..], keys, [g[0][1..]] + g[1..]);
        assert rest == [g[0][1..]] + g[1..];
        assert KeyOf(rest[0][0], keys) == KeyOf(rows[0], keys);
        assert [rows[0]] + rest[0] == g[0];
        assert rest[1..] == g[1..];
      } else {
        PartitionDropFirstRun(rows, keys, g);
        RunsUnique(rows[1..], keys, g[1..]);
        assert rest == g[1..];
        assert g[0] == [rows[0]];
        if rest != [] {
          assert KeyOf(g[0][0], keys) != KeyOf(g[1][0], keys);
        }
        assert g == [[rows[0]]] + rest;
      }
    }
  }

  lemma {:induction false} FlattenMember<T>(g: seq<seq<T>>, i: nat, j: nat)
    requires i < |g| && j < |g[i]|
    ensures g[i][j] in Flatten(g)
  {
    if i > 0 { FlattenMember(g[1..], i - 1, j); }
  }

  lemma {:induction false} SortedTail(rows: seq<Row>, keys: seq<string>)
    requires rows != [] && SortedByKey(rows, keys)
    ensures SortedByKey(rows[1..], keys)
    ensures forall r :: r in rows[1..] ==> !KeyLt(KeyOf(r, keys), KeyOf(rows[0], keys))
  {
    var f := KeyFn(keys);
    forall i, j | 0 <= i < j < |rows[1..]| ensures !KeyLt(f(rows[1..][j]), f(rows[1..][i])) {
      assert rows[1..][j] == rows[j + 1] && rows[1..][i] == rows[i + 1];
    }
    forall r | r in rows[1..] ensures !KeyLt(KeyOf(r, keys), KeyOf(rows[0], keys)) {
      var j :| 0 <= j < |rows[1..]| && rows[1..][j] == r;
      assert rows[j + 1] == r;
      assert !KeyLt(f(rows[j + 1]), f(rows[0]));
    }
  }

  /** The first keys of the runs strictly increase. */
  ghost predicate KeysIncrease(g: seq<seq<Row>>, keys: seq<string>) {
    forall i, j :: 0 <= i < j < |g| && g[i] != [] && g[j] != [] ==>
      KeyLt(KeyOf(g[i][0], keys), KeyOf(g[j][0], keys))
  }

  lemma ConsIncrease(x: seq<Row>, h: seq<seq<Row>>, keys: seq<string>)
    requires x != [] && KeysIncrease(h, keys)
    requires forall i :: 0 <= i < |h| && h[i] != [] ==> !KeyLt(KeyOf(h[i][0], keys), KeyOf(x[0], keys))
    requires h != [] && h[0] != [] ==> KeyOf(h[0][0], keys) != KeyOf(x[0], keys)
    requires forall i :: 0 <= i < |h| ==> h[i] != []
    ensures KeysIncrease([x] + h, keys)
  {
    var g := [x] + h;
    var k0 := KeyOf(x[0], keys);
    forall i, j | 0 <= i < j < |g| && g[i] != [] && g[j] != [] ensures KeyLt(KeyOf(g[i][0], keys), KeyOf(g[j][0], keys)) {
      assert g[j] == h[j - 1];
      if i == 0 {
        var kj := KeyOf(h[j - 1][0], keys);
        if j == 1 {
          KeyLeNe(k0, kj);
        } else {
          KeyLeLt(k0, KeyOf(h[0][0], keys), kj);
        }
      } else {
        assert g[i] == h[i - 1];
      }
    }
  }

  lemma ReplaceHeadIncrease(x: seq<Row>, h: seq<seq<Row>>, keys: seq<string>)
    requires h != [] && x != [] && h[0] != [] && KeyOf(x[0], keys) == KeyOf(h[0][0], keys)
    requires KeysIncrease(h, keys)
    ensures KeysIncrease([x] + h[1..], keys)
  {
    var g := [x] + h[1..];
    forall i, j | 0 <= i < j < |g| && g[i] != [] && g[j] != [] ensures KeyLt(KeyOf(g[i][0], keys), KeyOf(g[j][0], keys)) {
      assert g[j] == h[j];
      if i > 0 { assert g[i] == h[i]; } else { assert h[0] != [] && h[j] != []; }
    }
  }

  /** On input sorted by key, the runs' keys strictly increase, so each key
      tuple forms exactly one run. */
  lemma {:induction false} RunKeysIncrease(rows: seq<Row>, keys: seq<string>)
    requires SortedByKey(rows, keys)
    ensures KeysIncrease(Runs(rows, keys), keys)
  {
    if rows != [] {
      SortedTail(rows, keys);
      RunKeysIncrease(rows[1..], keys);
      var rest := Runs(rows[1..], keys);
      var k0 := KeyOf(rows[0], keys);
      forall i | 0 <= i < |rest| && rest[i] != [] ensures !KeyLt(KeyOf(rest[i][0], keys), k0) {
        FlattenMember(rest, i, 0);
      }
      if rest != [] && KeyOf(rest[0][0], keys) == k0 {
        ReplaceHeadIncrease([rows[0]] + rest[0], rest, keys);
      } else {
        ConsIncrease([rows[0]], rest, keys);
      }
    }
  }

  /** A run together with its key tuple, as `groupby` yields it. */
  datatype Group = Group(key: Key, rows: seq<Row>)

  /** The grouper's `(key, group)` pairs: the groups are the maximal
      equal-key runs of the input, and each group's key is the key of every
      row in it. */
  function Grouped(rows: seq<Row>, keys: seq<string>): (gs: seq<Group>)
    ensures IsRunPartition(rows, keys, seq(|gs|, i requires 0 <= i < |gs| => gs[i].rows))
    ensures forall i, j :: 0 <= i < |gs| && 0 <= j < |gs[i].rows| ==> gs[i].key == KeyOf(gs[i].rows[j], keys)
  {
    var g := Runs(rows, keys);
    var gs := seq(|g|, i requires 0 <= i < |g| => Group(KeyOf(g[i][0], keys), g[i]));
    assert seq(|gs|, i requires 0 <= i < |gs| => gs[i].rows) == g;
    gs
  }

  /** The groups are the runs of `Runs`, each paired with its first row's key. */
  lemma GroupedRuns(rows: seq<Row>, keys: seq<string>)
    ensures var g := Runs(rows, keys);
      var gs := Grouped(rows, keys);
      |gs| == |g| && forall i :: 0 <= i < |gs| ==> gs[i] == Group(KeyOf(g[i][0], keys), g[i])
  {
  }
}
