/** The reducers of the operation library.  Each takes the rows of one group
    and yields zero or more rows. */
module Reducers {
  import opened Values
  import Sorting

  // --------------------------------------------------------------------
  // FirstReducer
  // --------------------------------------------------------------------

  /** The first row of the group, if there is one. */
  function First(records: seq<Row>): (res: Result<seq<Row>>)
    ensures res.Ok? && |res.value| <= 1
    ensures res.value == [] <==> records == []
    ensures res.value != [] ==> res.value[0] == records[0]
  {
    if records == [] then Ok([]) else Ok([records[0]])
  }

  // --------------------------------------------------------------------
  // Max: heapq.nlargest(n, records, key=lambda x: x[column])
  // --------------------------------------------------------------------

  function ColumnValue(column: string): Row -> Value {
    (r: Row) => if column in r then r[column] else NoneV
  }

  predicate ValueGt(a: Value, b: Value) { ValueLt(b, a) }

  lemma ValueGtStrictTotal()
    ensures StrictTotal(ValueGt)
  {
    ValueLtStrictTotal();
  }

  function Min(a: nat, b: nat): nat { if a < b then a else b }

  /** The `n` rows with the largest values, largest first, ties in input
      order (`sorted(..., reverse=True)[:n]`, which `nlargest` equals).  A
      non-positive `n` yields nothing without reading any row. */
  function Max(column: string, n: int, records: seq<Row>): Result<seq<Row>> {
    if n <= 0 then Ok([])
    else if !AllHaveColumns(records, [column]) then Err(MissingIn(records, [column]))
    else
      var sorted := Sorting.SortBy(records, ColumnValue(column), ValueGt);
      Ok(sorted[..Min(n, |sorted|)])
  }

  /** In a sequence sorted by `lt`, no element after position `m` sorts
      strictly before one up to it. */
  lemma PrefixDominates<T, K>(s: seq<T>, m: nat, key: T -> K, lt: (K, K) -> bool)
    requires m <= |s| && Sorting.SortedBy(s, key, lt)
    ensures forall x, y :: x in s[..m] && y in multiset(s[m..]) ==> !lt(key(y), key(x))
  {
    forall x, y | x in s[..m] && y in multiset(s[m..]) ensures !lt(key(y), key(x)) {
      var i :| 0 <= i < m && s[..m][i] == x;
      assert y in s[m..];
      var j :| 0 <= j < |s| - m && s[m..][j] == y;
      assert s[i] == x && s[m + j] == y;
    }
  }

  lemma PrefixSorted<T, K>(s: seq<T>, m: nat, key: T -> K, lt: (K, K) -> bool)
    requires m <= |s| && Sorting.SortedBy(s, key, lt)
    ensures Sorting.SortedBy(s[..m], key, lt)
  {
    forall i, j | 0 <= i < j < m ensures !lt(key(s[..m][j]), key(s[..m][i])) {
      assert s[..m][j] == s[j] && s[..m][i] == s[i];
    }
  }

  /** Max picks `min(n, |records|)` of the rows, largest first, and no row
      left out has a larger value than a row picked. */
  lemma MaxSelects(column: string, n: int, records: seq<Row>)
    requires n > 0 && AllHaveColumns(records, [column])
    ensures Max(column, n, records).Ok?
    ensures var top := Max(column, n, records).value;
      var value := ColumnValue(column);
      |top| == Min(n, |records|) &&
      multiset(top) <= multiset(records) &&
      Sorting.SortedBy(top, value, ValueGt) &&
      forall x, y :: x in top && y in multiset(records) - multiset(top) ==> !ValueLt(value(x), value(y))
  {
    var key := ColumnValue(column);
    var sorted := Sorting.SortBy(records, key, ValueGt);
    assert |multiset(sorted)| == |multiset(records)|;
    var m := Min(n, |sorted|);
    ValueGtStrictTotal();
    Sorting.SortBySorted(records, key, ValueGt);
    assert sorted == sorted[..m] + sorted[m..];
    assert multiset(records) - multiset(sorted[..m]) == multiset(sorted[m..]);
    PrefixDominates(sorted, m, key, ValueGt);
    PrefixSorted(sorted, m, key, ValueGt);
  }

  /** With `n` at least the group size, Max is a stable sort by descending
      value: the rows sharing a value keep their input order. */
  lemma MaxStable(column: string, n: int, records: seq<Row>, v: Value)
    requires n >= |records| && n > 0 && AllHaveColumns(records, [column])
    ensures Max(column, n, records).Ok?
    ensures Sorting.WithKey(Max(column, n, records).value, ColumnValue(column), v) ==
            Sorting.WithKey(records, ColumnValue(column), v)
  {
    var sorted := Sorting.SortBy(records, ColumnValue(column), ValueGt);
    assert |multiset(sorted)| == |multiset(records)|;
    ValueGtStrictTotal();
    assert sorted[..|sorted|] == sorted;
    Sorting.SortByStable(records, ColumnValue(column), ValueGt, v);
  }

  // --------------------------------------------------------------------
  // Tf
  // --------------------------------------------------------------------

  /** The words column of each row; the first row that lacks it is a
      KeyError, the first whose word is a list (unhashable) a TypeError. */
  function TfWords(records: seq<Row>, column: string): (res: Result<seq<Value>>)
    ensures res.Ok? <==> forall i :: 0 <= i < |records| ==> column in records[i] && !records[i][column].ListV?
    ensures res.Ok? ==> |res.value| == |records|
    ensures res.Ok? ==> forall i :: 0 <= i < |records| ==> column in records[i] && res.value[i] == records[i][column]
  {
    if records == [] then Ok([])
    else if column !in records[0] then Err(MissingField(column))
    else if records[0][column].ListV? then Err(TypeMismatch(column))
    else
      var rest :- TfWords(records[1..], column);
      Ok([records[0][column]] + rest)
  }

  /** The distinct words in order of first occurrence: the keys of `words_dict`. */
  function Vocabulary(ws: seq<Value>): (v: seq<Value>)
    ensures forall w :: w in v <==> w in ws
    ensures forall i, j :: 0 <= i < j < |v| ==> v[i] != v[j]
  {
    if ws == [] then []
    else
      var v := Vocabulary(ws[..|ws| - 1]);
      assert ws == ws[..|ws| - 1] + [ws[|ws| - 1]];
      if ws[|ws| - 1] in v then v else v + [ws[|ws| - 1]]
  }

  function Occurrences(ws: seq<Value>, w: Value): nat {
    if ws == [] then 0
    else Occurrences(ws[..|ws| - 1], w) + (if ws[|ws| - 1] == w then 1 else 0)
  }

  /** `sum(words_dict.values())` over the first words of `v`. */
  function TotalCount(v: seq<Value>, ws: seq<Value>): nat {
    if v == [] then 0 else TotalCount(v[..|v| - 1], ws) + Occurrences(ws, v[|v| - 1])
  }

  /** One output row: a copy of the last row with the word and its frequency. */
  function TfRow(last: Row, column: string, tfColumn: string, w: Value, freq: real): (row: Row)
    ensures row.Keys == last.Keys + {column, tfColumn}
    ensures row[tfColumn] == RealV(freq)
    ensures column != tfColumn ==> row[column] == w
    ensures forall k :: k in last && k != column && k != tfColumn ==> row[k] == last[k]
  {
    last[column := w][tfColumn := RealV(freq)]
  }

  /** The output rows for the first words of `v`. */
  function TfOut(last: Row, column: string, tfColumn: string, v: seq<Value>, ws: seq<Value>, total: nat): seq<Row>
    requires total > 0
  {
    if v == [] then []
    else
      var w := v[|v| - 1];
      TfOut(last, column, tfColumn, v[..|v| - 1], ws, total) +
        [TfRow(last, column, tfColumn, w, Occurrences(ws, w) as real / total as real)]
  }

  /** `Tf(column_words, column_tf)`: one row per distinct word, in order of
      first occurrence, holding the word's share of the group. */
  function TfRows(column: string, tfColumn: string, records: seq<Row>): Result<seq<Row>> {
    var ws :- TfWords(records, column);
    if records == [] then Ok([])
    else
      var v := Vocabulary(ws);
      VocabularyTotal(ws);
      Ok(TfOut(records[|records| - 1], column, tfColumn, v, ws, TotalCount(v, ws)))
  }

  lemma {:induction false} TotalCountPush(v: seq<Value>, ws: seq<Value>, x: Value)
    requires forall i, j :: 0 <= i < j < |v| ==> v[i] != v[j]
    ensures TotalCount(v, ws + [x]) == TotalCount(v, ws) + (if x in v then 1 else 0)
  {
    if v != [] {
      var p := v[..|v| - 1];
      assert v == p + [v[|v| - 1]];
      TotalCountPush(p, ws, x);
      assert (ws + [x])[..|ws|] == ws;
    }
  }

  lemma {:induction false} OccurrencesAbsent(ws: seq<Value>, x: Value)
    requires x !in ws
    ensures Occurrences(ws, x) == 0
  {
    if ws != [] {
      assert ws == ws[..|ws| - 1] + [ws[|ws| - 1]];
      OccurrencesAbsent(ws[..|ws| - 1], x);
    }
  }

  /** The counts of the distinct words add up to the number of words. */
  lemma {:induction false} VocabularyTotal(ws: seq<Value>)
    ensures TotalCount(Vocabulary(ws), ws) == |ws|
  {
    if ws != [] {
      var p := ws[..|ws| - 1];
      var x := ws[|ws| - 1];
      assert ws == p + [x];
      VocabularyTotal(p);
      var v := Vocabulary(p);
      TotalCountPush(v, p, x);
      if x !in v {
        OccurrencesAbsent(p, x);
        assert (v + [x])[..|v|] == v;
      }
    }
  }

  /** The sum of the frequency column over some rows. */
  ghost function TfSum(rows: seq<Row>, tfColumn: string): real {
    if rows == [] then 0.0
    else
      var r := rows[|rows| - 1];
      TfSum(rows[..|rows| - 1], tfColumn) + (if tfColumn in r && r[tfColumn].RealV? then r[tfColumn].r else 0.0)
  }

  lemma DivAdd(a: real, b: real, t: real)
    requires t > 0.0
    ensures a / t + b / t == (a + b) / t
  {
  }

  lemma {:induction false} TfOutSum(last: Row, column: string, tfColumn: string, v: seq<Value>, ws: seq<Value>, total: nat)
    requires total > 0
    ensures |TfOut(last, column, tfColumn, v, ws, total)| == |v|
    ensures TfSum(TfOut(last, column, tfColumn, v, ws, total), tfColumn) == TotalCount(v, ws) as real / total as real
  {
    if v != [] {
      var p := v[..|v| - 1];
      var w := v[|v| - 1];
      var prev := TfOut(last, column, tfColumn, p, ws, total);
      var row := TfRow(last, column, tfColumn, w, Occurrences(ws, w) as real / total as real);
      TfOutSum(last, column, tfColumn, p, ws, total);
      var out := prev + [row];
      assert out[..|out| - 1] == prev && out[|out| - 1] == row;
      DivAdd(TotalCount(p, ws) as real, Occurrences(ws, w) as real, total as real);
    }
  }

  lemma {:induction false} TfOutRows(last: Row, column: string, tfColumn: string, v: seq<Value>, ws: seq<Value>, total: nat)
    requires total > 0
    ensures var out := TfOut(last, column, tfColumn, v, ws, total);
      |out| == |v| &&
      forall i :: 0 <= i < |v| ==> out[i] == TfRow(last, column, tfColumn, v[i], Occurrences(ws, v[i]) as real / total as real)
  {
    if v != [] {
      TfOutRows(last, column, tfColumn, v[..|v| - 1], ws, total);
    }
  }

  /** On a non-empty group Tf yields one row per distinct word, in order of
      first occurrence, each a copy of the last row with the word and its
      count over the group size. */
  lemma TfFrequencies(column: string, tfColumn: string, records: seq<Row>)
    requires records != [] && TfWords(records, column).Ok?
    ensures TfRows(column, tfColumn, records).Ok?
    ensures var ws := TfWords(records, column).value;
      var v := Vocabulary(ws);
      var rows := TfRows(column, tfColumn, records).value;
      |rows| == |v| &&
      forall i :: 0 <= i < |v| ==> rows[i] == TfRow(records[|records| - 1], column, tfColumn, v[i], Occurrences(ws, v[i]) as real / |records| as real)
  {
    var ws := TfWords(records, column).value;
    var v := Vocabulary(ws);
    VocabularyTotal(ws);
    var total := TotalCount(v, ws);
    assert total as real == |records| as real;
    var last := records[|records| - 1];
    assert TfRows(column, tfColumn, records) == Ok(TfOut(last, column, tfColumn, v, ws, total));
    TfOutRows(last, column, tfColumn, v, ws, total);
  }

  /** On a non-empty group the frequencies sum to 1. */
  lemma TfSumsToOne(column: string, tfColumn: string, records: seq<Row>)
    requires records != [] && TfWords(records, column).Ok?
    ensures TfRows(column, tfColumn, records).Ok?
    ensures TfSum(TfRows(column, tfColumn, records).value, tfColumn) == 1.0
  {
    var ws := TfWords(records, column).value;
    var v := Vocabulary(ws);
    VocabularyTotal(ws);
    var total := TotalCount(v, ws);
    var last := records[|records| - 1];
    var rows := TfOut(last, column, tfColumn, v, ws, total);
    assert TfRows(column, tfColumn, records) == Ok(rows);
    TfOutSum(last, column, tfColumn, v, ws, total);
    DivSelf(total as real);
  }

  lemma DivSelf(t: real)
    requires t > 0.0
    ensures t / t == 1.0
  {
  }

  /** `Prepend` for words. */
  function PrependWords(prefix: seq<Value>, rest: Result<seq<Value>>): Result<seq<Value>> {
    if rest.Err? then rest else Ok(prefix + rest.value)
  }

  lemma TfWordsStep(records: seq<Row>, column: string, ws: seq<Value>, i: nat)
    requires i < |records|
    ensures PrependWords(ws, TfWords(records[i..], column)) ==
      if column !in records[i] then Err(MissingField(column))
      else if records[i][column].ListV? then Err(TypeMismatch(column))
      else PrependWords(ws + [records[i][column]], TfWords(records[i + 1..], column))
  {
    assert records[i..][0] == records[i] && records[i..][1..] == records[i + 1..];
    var rest := TfWords(records[i + 1..], column);
    if rest.Ok? && column in records[i] {
      var w := records[i][column];
      assert ws + ([w] + rest.value) == (ws + [w]) + rest.value;
    }
  }

  /** What the counting loop keeps after `i` rows. */
  ghost predicate Counted(records: seq<Row>, column: string, i: nat, ws: seq<Value>,
                          order: seq<Value>, counts: map<Value, nat>) {
    i <= |records| &&
    TfWords(records, column) == PrependWords(ws, TfWords(records[i..], column)) &&
    order == Vocabulary(ws) &&
    (forall w :: w in counts <==> w in order) &&
    (forall w :: w in counts ==> counts[w] == Occurrences(ws, w))
  }

  lemma OccurrencesPush(ws: seq<Value>, x: Value, w: Value)
    ensures Occurrences(ws + [x], w) == Occurrences(ws, w) + (if x == w then 1 else 0)
  {
    assert (ws + [x])[..|ws|] == ws;
  }

  lemma VocabularyPush(ws: seq<Value>, x: Value)
    ensures Vocabulary(ws + [x]) == if x in Vocabulary(ws) then Vocabulary(ws) else Vocabulary(ws) + [x]
  {
    assert (ws + [x])[..|ws|] == ws;
  }

  /** One word more: the map of counts follows the vocabulary. */
  lemma CountsPush(ws: seq<Value>, order: seq<Value>, counts: map<Value, nat>, word: Value)
    requires order == Vocabulary(ws)
    requires forall w :: w in counts <==> w in order
    requires forall w :: w in counts ==> counts[w] == Occurrences(ws, w)
    ensures Vocabulary(ws + [word]) == if word in counts then order else order + [word]
    ensures var counts' := counts[word := (if word in counts then counts[word] else 0) + 1];
      (forall w :: w in counts' <==> w in Vocabulary(ws + [word])) &&
      (forall w :: w in counts' ==> counts'[w] == Occurrences(ws + [word], w))
  {
    VocabularyPush(ws, word);
    CountsOccurrences(ws, counts, word);
  }

  /** One word more: each count follows the occurrences. */
  lemma CountsOccurrences(ws: seq<Value>, counts: map<Value, nat>, word: Value)
    requires forall w :: w in counts ==> counts[w] == Occurrences(ws, w)
    requires word !in counts ==> word !in ws
    ensures var counts' := counts[word := (if word in counts then counts[word] else 0) + 1];
      forall w :: w in counts' ==> counts'[w] == Occurrences(ws + [word], w)
  {
    if word !in counts { OccurrencesAbsent(ws, word); }
    var counts' := counts[word := (if word in counts then counts[word] else 0) + 1];
    forall w | w in counts' ensures counts'[w] == Occurrences(ws + [word], w) {
      OccurrencesPush(ws, word, w);
    }
  }

  lemma CountStep(records: seq<Row>, column: string, i: nat, ws: seq<Value>,
                  order: seq<Value>, counts: map<Value, nat>, word: Value)
    requires i < |records| && Counted(records, column, i, ws, order, counts)
    requires column in records[i] && word == records[i][column] && !word.ListV?
    ensures Vocabulary(ws + [word]) == if word in counts then order else order + [word]
    ensures var c := if word in counts then counts[word] else 0;
      Counted(records, column, i + 1, ws + [word], Vocabulary(ws + [word]), counts[word := c + 1])
  {
    TfWordsStep(records, column, ws, i);
    CountsPush(ws, order, counts, word);
  }

  /** The counting loop: the distinct words in insertion order and their counts. */
  method CountWords(column: string, records: seq<Row>)
    returns (failure: Option<Error>, order: seq<Value>, counts: map<Value, nat>, ghost ws: seq<Value>)
    ensures failure.Some? <==> TfWords(records, column).Err?
    ensures failure.Some? ==> TfWords(records, column) == Err(failure.value)
    ensures failure.None? ==> TfWords(records, column) == Ok(ws) && order == Vocabulary(ws)
    ensures failure.None? ==> forall w :: w in order ==> w in counts && counts[w] == Occurrences(ws, w)
  {
    order, counts, ws := [], map[], [];
    var i := 0;
    assert records[0..] == records;
    if TfWords(records, column).Ok? {
      assert [] + TfWords(records, column).value == TfWords(records, column).value;
    }
    while i < |records|
      invariant Counted(records, column, i, ws, order, counts)
      decreases |records| - i
    {
      var r := records[i];
      if column !in r || r[column].ListV? {
        TfWordsStep(records, column, ws, i);
        failure := Some(if column !in r then MissingField(column) else TypeMismatch(column));
        return;
      }
      var word := r[column];
      CountStep(records, column, i, ws, order, counts, word);
      var c := if word in counts then counts[word] else 0;
      if word !in counts {
        order := order + [word];
      }
      counts := counts[word := c + 1];
      ws := ws + [word];
      i := i + 1;
    }
    assert records[i..] == [] && ws + [] == ws;
    failure := None;
  }

  /** `sum(words_dict.values())` */
  method SumCounts(order: seq<Value>, counts: map<Value, nat>, ghost ws: seq<Value>) returns (total: nat)
    requires forall w :: w in order ==> w in counts && counts[w] == Occurrences(ws, w)
    ensures total == TotalCount(order, ws)
  {
    total := 0;
    var k := 0;
    while k < |order|
      invariant 0 <= k <= |order|
      invariant total == TotalCount(order[..k], ws)
    {
      assert order[..k + 1][..k] == order[..k];
      total := total + counts[order[k]];
      k := k + 1;
    }
    assert order[..k] == order;
  }

  /** The yielding loop: one row per distinct word. */
  method EmitRows(last: Row, column: string, tfColumn: string, order: seq<Value>, counts: map<Value, nat>,
                  total: nat, ghost ws: seq<Value>) returns (out: seq<Row>)
    requires total > 0
    requires forall w :: w in order ==> w in counts && counts[w] == Occurrences(ws, w)
    ensures out == TfOut(last, column, tfColumn, order, ws, total)
  {
    out := [];
    var k := 0;
    while k < |order|
      invariant 0 <= k <= |order|
      invariant out == TfOut(last, column, tfColumn, order[..k], ws, total)
    {
      assert order[..k + 1][..k] == order[..k];
      var w := order[k];
      out := out + [TfRow(last, column, tfColumn, w, counts[w] as real / total as real)];
      k := k + 1;
    }
    assert order[..k] == order;
  }

  /** `Tf.__call__`: count, total, then one row per distinct word. */
  method Tf(column: string, tfColumn: string, records: seq<Row>) returns (res: Result<seq<Row>>)
    ensures res == TfRows(column, tfColumn, records)
  {
    var failure, order, counts, ws := CountWords(column, records);
    if failure.Some? {
      res := Err(failure.value);
    } else if records == [] {
      res := Ok([]);
    } else {
      var total := SumCounts(order, counts, ws);
      VocabularyTotal(ws);
      var out := EmitRows(records[|records| - 1], column, tfColumn, order, counts, total, ws);
      res := Ok(out);
    }
  }
}
