/** The one-input node kinds of the engine: MapMe, SortMe, ReduceMe and
    AggregateMe.  Node outputs are finite, fully materialised sequences. */
module Nodes {
  import opened Values
  import opened Grouping
  import Sorting

  /** A row mapper yields zero or more rows per row, or aborts. */
  type Mapper = Row -> Result<seq<Row>>
  /** A reducer turns one group of rows into zero or more rows, or aborts. */
  type Reducer = seq<Row> -> Result<seq<Row>>
  /** An aggregator folds one row into the state, or aborts. */
  type Aggregator = (Row, Row) -> Result<Row>

  /** Apply `f` to each element in order and concatenate the outputs; the
      first element on which `f` aborts aborts the whole. */
  function ConcatMap<T>(f: T -> Result<seq<Row>>, xs: seq<T>): Result<seq<Row>> {
    if xs == [] then Ok([])
    else
      var head :- f(xs[0]);
      var tail :- ConcatMap(f, xs[1..]);
      Ok(head + tail)
  }

  predicate AllOk<T>(f: T -> Result<seq<Row>>, xs: seq<T>) {
    forall i :: 0 <= i < |xs| ==> f(xs[i]).Ok?
  }

  /** The outputs of `f` on each element, in order. */
  function Outputs<T>(f: T -> Result<seq<Row>>, xs: seq<T>): (o: seq<seq<Row>>)
    requires AllOk(f, xs)
    ensures |o| == |xs| && forall i :: 0 <= i < |xs| ==> f(xs[i]) == Ok(o[i])
  {
    if xs == [] then [] else [f(xs[0]).value] + Outputs(f, xs[1..])
  }

  /** `ConcatMap` succeeds exactly when `f` succeeds on every element, and
      then yields the in-order concatenation of the outputs. */
  lemma {:induction false} ConcatMapOk<T>(f: T -> Result<seq<Row>>, xs: seq<T>)
    ensures ConcatMap(f, xs).Ok? <==> AllOk(f, xs)
    ensures ConcatMap(f, xs).Ok? ==> ConcatMap(f, xs).value == Flatten(Outputs(f, xs))
  {
    if xs != [] {
      ConcatMapOk(f, xs[1..]);
      if f(xs[0]).Ok? && !AllOk(f, xs[1..]) {
        var i :| 0 <= i < |xs[1..]| && !f(xs[1..][i]).Ok?;
        assert xs[1..][i] == xs[i + 1];
      }
    }
  }

  /** `ConcatMap` distributes over concatenation of its input. */
  lemma {:induction false} ConcatMapAppend<T>(f: T -> Result<seq<Row>>, xs: seq<T>, ys: seq<T>)
    ensures ConcatMap(f, xs + ys) ==
      if ConcatMap(f, xs).Err? then ConcatMap(f, xs) else Prepend(ConcatMap(f, xs).value, ConcatMap(f, ys))
  {
    if xs == [] {
      assert xs + ys == ys;
      if ConcatMap(f, ys).Ok? {
        assert [] + ConcatMap(f, ys).value == ConcatMap(f, ys).value;
      }
    } else {
      assert (xs + ys)[0] == xs[0] && (xs + ys)[1..] == xs[1..] + ys;
      ConcatMapAppend(f, xs[1..], ys);
      if f(xs[0]).Ok? && ConcatMap(f, xs[1..]).Ok? && ConcatMap(f, ys).Ok? {
        var h, a, b := f(xs[0]).value, ConcatMap(f, xs[1..]).value, ConcatMap(f, ys).value;
        assert h + (a + b) == (h + a) + b;
      }
    }
  }

  /** The walk over `xs` that has emitted `out` before element `i`: its
      start, one successful or failing step, and its end. */
  lemma ConcatMapStart<T>(f: T -> Result<seq<Row>>, xs: seq<T>)
    ensures ConcatMap(f, xs) == Prepend([], ConcatMap(f, xs[0..]))
  {
    assert xs[0..] == xs;
    if ConcatMap(f, xs).Ok? {
      assert [] + ConcatMap(f, xs).value == ConcatMap(f, xs).value;
    }
  }

  lemma ConcatMapStep<T>(f: T -> Result<seq<Row>>, xs: seq<T>, i: nat, out: seq<Row>)
    requires i < |xs|
    ensures Prepend(out, ConcatMap(f, xs[i..])) ==
      if f(xs[i]).Err? then f(xs[i]) else Prepend(out + f(xs[i]).value, ConcatMap(f, xs[i + 1..]))
  {
    assert xs[i..][0] == xs[i] && xs[i..][1..] == xs[i + 1..];
    if f(xs[i]).Ok? && ConcatMap(f, xs[i + 1..]).Ok? {
      var y, t := f(xs[i]).value, ConcatMap(f, xs[i + 1..]).value;
      assert out + (y + t) == (out + y) + t;
    }
  }

  lemma ConcatMapEnd<T>(f: T -> Result<seq<Row>>, xs: seq<T>, out: seq<Row>)
    ensures Prepend(out, ConcatMap(f, xs[|xs|..])) == Ok(out)
  {
    assert xs[|xs|..] == [];
    assert out + [] == out;
  }

  // --------------------------------------------------------------------
  // MapMe: for r in records: for r in mapper(r): yield r
  // --------------------------------------------------------------------

  function MapMe(mapper: Mapper, records: seq<Row>): Result<seq<Row>> {
    ConcatMap(mapper, records)
  }

  /** MapMe yields the in-order concatenation of the mapper's outputs, and
      fails exactly when the mapper fails on some row. */
  lemma MapMeConcatenates(mapper: Mapper, records: seq<Row>)
    ensures MapMe(mapper, records).Ok? <==> AllOk(mapper, records)
    ensures MapMe(mapper, records).Ok? ==> MapMe(mapper, records).value == Flatten(Outputs(mapper, records))
  {
    ConcatMapOk(mapper, records);
  }

  // --------------------------------------------------------------------
  // SortMe: sorted(records, key=lambda x: tuple(x[k] for k in keys))
  // --------------------------------------------------------------------

  function SortMe(keys: seq<string>, records: seq<Row>): Result<seq<Row>> {
    if !AllHaveColumns(records, keys) then Err(MissingIn(records, keys))
    else Ok(Sorting.SortBy(records, KeyFn(keys), KeyLt))
  }

  /** SortMe fails exactly on a missing key column; otherwise its output is a
      permutation of the input, sorted by key tuple, and stable: for every key
      tuple the rows carrying it keep their input order. */
  lemma SortMeSpec(keys: seq<string>, records: seq<Row>)
    ensures SortMe(keys, records).Ok? <==> AllHaveColumns(records, keys)
    ensures SortMe(keys, records).Ok? ==>
      var out := SortMe(keys, records).value;
      multiset(out) == multiset(records) &&
      SortedByKey(out, keys) &&
      forall k :: Sorting.WithKey(out, KeyFn(keys), k) == Sorting.WithKey(records, KeyFn(keys), k)
  {
    if AllHaveColumns(records, keys) {
      KeyLtStrictTotal();
      Sorting.SortBySorted(records, KeyFn(keys), KeyLt);
      forall k ensures Sorting.WithKey(SortMe(keys, records).value, KeyFn(keys), k) ==
                       Sorting.WithKey(records, KeyFn(keys), k) {
        Sorting.SortByStable(records, KeyFn(keys), KeyLt, k);
      }
    }
  }

  // --------------------------------------------------------------------
  // ReduceMe: for key, group in groupby(records, ...): yield from reducer(group)
  // --------------------------------------------------------------------

  function ReduceMe(reducer: Reducer, keys: seq<string>, records: seq<Row>): Result<seq<Row>> {
    if !AllHaveColumns(records, keys) then Err(MissingIn(records, keys))
    else ConcatMap(reducer, Runs(records, keys))
  }

  /** ReduceMe yields the in-order concatenation of the reducer's outputs over
      the maximal equal-key runs. */
  lemma ReduceMeConcatenates(reducer: Reducer, keys: seq<string>, records: seq<Row>)
    requires AllHaveColumns(records, keys)
    ensures ReduceMe(reducer, keys, records).Ok? <==> AllOk(reducer, Runs(records, keys))
    ensures ReduceMe(reducer, keys, records).Ok? ==>
      ReduceMe(reducer, keys, records).value == Flatten(Outputs(reducer, Runs(records, keys)))
  {
    ConcatMapOk(reducer, Runs(records, keys));
  }

  // --------------------------------------------------------------------
  // AggregateMe: one folded state per run
  // --------------------------------------------------------------------

  /** No later position of `keys` repeats the name at position `i`. */
  predicate LastOccurrence(keys: seq<string>, i: nat)
    requires i < |keys|
  {
    forall j :: i < j < |keys| ==> keys[j] != keys[i]
  }

  /** `{k: v for k, v in zip(keys, key)}`: a later equal name overwrites an
      earlier one, so each field holds the value of its name's last position. */
  function Seed(keys: seq<string>, key: Key): (st: Row)
    requires |keys| == |key|
    ensures st.Keys == set k | k in keys
    ensures forall i :: 0 <= i < |keys| && LastOccurrence(keys, i) ==> st[keys[i]] == key[i]
  {
    if keys == [] then map[]
    else
      var n := |keys| - 1;
      var prev := Seed(keys[..n], key[..n]);
      assert keys == keys[..n] + [keys[n]];
      var st := prev[keys[n] := key[n]];
      forall i | 0 <= i < n && LastOccurrence(keys, i) ensures st[keys[i]] == key[i] {
        assert LastOccurrence(keys[..n], i);
      }
      st
  }

  /** Every name of `keys` has a last position. */
  lemma {:induction false} LastPosition(keys: seq<string>, k: string) returns (i: nat)
    requires k in keys
    ensures i < |keys| && keys[i] == k && LastOccurrence(keys, i)
  {
    var n := |keys| - 1;
    if keys[n] == k {
      i := n;
    } else {
      assert k in keys[..n] by { assert keys == keys[..n] + [keys[n]]; }
      i := LastPosition(keys[..n], k);
      assert keys[..n][i] == keys[i];
      assert LastOccurrence(keys[..n], i);
    }
  }

  /** Seeding with a row's own key tuple copies exactly the key columns of that row. */
  lemma SeedFromRow(keys: seq<string>, r: Row)
    requires HasColumns(r, keys)
    ensures Seed(keys, KeyOf(r, keys)) == map k | k in keys :: r[k]
  {
    var st := Seed(keys, KeyOf(r, keys));
    var m: Row := map k | k in keys :: r[k];
    forall k | k in keys ensures st[k] == m[k] {
      var i := LastPosition(keys, k);
    }
  }

  /** `for g in group: state = aggregator(g, state)` */
  function Fold(aggregator: Aggregator, state: Row, rows: seq<Row>): Result<Row>
    decreases |rows|
  {
    if rows == [] then Ok(state)
    else
      var next :- aggregator(rows[0], state);
      Fold(aggregator, next, rows[1..])
  }

  /** The single state one run yields. */
  function AggregateRun(aggregator: Aggregator, keys: seq<string>, run: seq<Row>): Result<seq<Row>> {
    if run == [] then Ok([])
    else
      var st :- Fold(aggregator, Seed(keys, KeyOf(run[0], keys)), run);
      Ok([st])
  }

  function AggregateRunFn(aggregator: Aggregator, keys: seq<string>): seq<Row> -> Result<seq<Row>> {
    (run: seq<Row>) => AggregateRun(aggregator, keys, run)
  }

  function Aggregated(aggregator: Aggregator, keys: seq<string>, records: seq<Row>): Result<seq<Row>> {
    if !AllHaveColumns(records, keys) then Err(MissingIn(records, keys))
    else ConcatMap(AggregateRunFn(aggregator, keys), Runs(records, keys))
  }

  /** Every run folds without an error. */
  ghost predicate RunsFold(aggregator: Aggregator, keys: seq<string>, g: seq<seq<Row>>) {
    forall i :: 0 <= i < |g| && g[i] != [] ==> Fold(aggregator, Seed(keys, KeyOf(g[i][0], keys)), g[i]).Ok?
  }

  /** Exactly one state per maximal equal-key run, seeded with the run's
      key columns and folded over the run's rows in order. */
  lemma AggregatedOnePerRun(aggregator: Aggregator, keys: seq<string>, records: seq<Row>)
    requires AllHaveColumns(records, keys)
    ensures var g := Runs(records, keys);
      var res := Aggregated(aggregator, keys, records);
      (res.Ok? <==> RunsFold(aggregator, keys, g)) &&
      (res.Ok? ==>
         |res.value| == |g| &&
         forall i :: 0 <= i < |g| ==> Fold(aggregator, Seed(keys, KeyOf(g[i][0], keys)), g[i]) == Ok(res.value[i]))
  {
    var g := Runs(records, keys);
    assert IsRunPartition(records, keys, g);
    assert forall i :: 0 <= i < |g| ==> g[i] != [];
    assert Aggregated(aggregator, keys, records) == ConcatMap(AggregateRunFn(aggregator, keys), g);
    AggregateRuns(aggregator, keys, g);
  }

  /** One state per non-empty run, in order, for any sequence of runs. */
  lemma {:induction false} AggregateRuns(aggregator: Aggregator, keys: seq<string>, g: seq<seq<Row>>)
    requires forall i :: 0 <= i < |g| ==> g[i] != []
    ensures var res := ConcatMap(AggregateRunFn(aggregator, keys), g);
      (res.Ok? <==> RunsFold(aggregator, keys, g)) &&
      (res.Ok? ==>
         |res.value| == |g| &&
         forall i :: 0 <= i < |g| ==> Fold(aggregator, Seed(keys, KeyOf(g[i][0], keys)), g[i]) == Ok(res.value[i]))
  {
    if g != [] {
      var f := AggregateRunFn(aggregator, keys);
      var t := g[1..];
      assert forall i :: 0 <= i < |t| ==> t[i] == g[i + 1];
      AggregateRuns(aggregator, keys, t);
      var head := Fold(aggregator, Seed(keys, KeyOf(g[0][0], keys)), g[0]);
      assert f(g[0]) == if head.Err? then Err(head.error) else Ok([head.value]);
      var res := ConcatMap(f, g);
      var rest := ConcatMap(f, t);
      if head.Ok? && rest.Ok? {
        assert res == Ok([head.value] + rest.value);
        forall i | 0 <= i < |g|
          ensures Fold(aggregator, Seed(keys, KeyOf(g[i][0], keys)), g[i]) == Ok(res.value[i])
        {
          if i > 0 { assert g[i] == t[i - 1] && res.value[i] == rest.value[i - 1]; }
        }
      } else if head.Ok? {
        var i :| 0 <= i < |t| && t[i] != [] && Fold(aggregator, Seed(keys, KeyOf(t[i][0], keys)), t[i]).Err?;
        assert g[i + 1] == t[i];
      }
    }
  }

  /** `Ok(prefix)` followed by the rest of a computation. */
  function Prepend(prefix: seq<Row>, rest: Result<seq<Row>>): Result<seq<Row>> {
    match rest
    case Ok(tail) => Ok(prefix + tail)
    case Err(e) => Err(e)
  }

  /** `for g in group: state = aggregator(g, state)`, stopping at the
      first failure. */
  method FoldRun(aggregator: Aggregator, seed: Row, group: seq<Row>) returns (r: Result<Row>)
    ensures r == Fold(aggregator, seed, group)
  {
    var state := seed;
    var j := 0;
    while j < |group|
      invariant 0 <= j <= |group|
      invariant Fold(aggregator, seed, group) == Fold(aggregator, state, group[j..])
    {
      assert group[j..][1..] == group[j + 1..];
      var next := aggregator(group[j], state);
      if next.Err? {
        return Err(next.error);
      }
      state := next.value;
      j := j + 1;
    }
    assert group[j..] == [];
    return Ok(state);
  }

  /** The imperative AggregateMe: walk the groups, fold each group's rows
      into a fresh state, emit the state. */
  method AggregateMe(aggregator: Aggregator, keys: seq<string>, records: seq<Row>) returns (r: Result<seq<Row>>)
    ensures r == Aggregated(aggregator, keys, records)
  {
    if !AllHaveColumns(records, keys) {
      return Err(MissingIn(records, keys));
    }
    var f := AggregateRunFn(aggregator, keys);
    var groups := Runs(records, keys);
    var out: seq<Row> := [];
    var i := 0;
    ConcatMapStart(f, groups);
    while i < |groups|
      invariant 0 <= i <= |groups|
      invariant ConcatMap(f, groups) == Prepend(out, ConcatMap(f, groups[i..]))
    {
      var group := groups[i];
      var state := FoldRun(aggregator, Seed(keys, KeyOf(group[0], keys)), group);
      ConcatMapStep(f, groups, i, out);
      if state.Err? {
        return Err(state.error);
      }
      out := out + [state.value];
      i := i + 1;
    }
    ConcatMapEnd(f, groups, out);
    return Ok(out);
  }
}
