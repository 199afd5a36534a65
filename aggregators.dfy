/** The aggregators of the operation library.  Each folds one row into the
    aggregation state; the state starts out as the run's key columns. */
module Aggregators {
  import opened Values
  import Nodes

  /** `state[column]`, with an absent column starting out as 0. */
  function Current(column: string, state: Row): Value {
    if column in state then state[column] else IntV(0)
  }

  /** `Sum(column)`: add the row's value of the column to the state's. */
  function Sum(column: string, r: Row, state: Row): (res: Result<Row>)
    ensures column !in r ==> res == Err(MissingField(column))
    ensures column in r ==> (res.Ok? <==> Add(Current(column, state), r[column], column).Ok?)
    ensures res.Ok? ==> res.value.Keys == state.Keys + {column}
    ensures res.Ok? ==> forall k :: k in state && k != column ==> res.value[k] == state[k]
    ensures res.Ok? && IsNumeric(Current(column, state)) && IsNumeric(r[column]) ==>
      IsNumeric(res.value[column]) && Num(res.value[column]) == Num(Current(column, state)) + Num(r[column])
  {
    if column !in r then Err(MissingField(column))
    else
      var v :- Add(Current(column, state), r[column], column);
      Ok(state[column := v])
  }

  /** `Count(column)`: add one to the state's value of the column. */
  function Count(column: string, r: Row, state: Row): (res: Result<Row>)
    ensures res.Ok? <==> IsNumeric(Current(column, state))
    ensures res.Ok? ==> res.value.Keys == state.Keys + {column}
    ensures res.Ok? ==> forall k :: k in state && k != column ==> res.value[k] == state[k]
    ensures res.Ok? ==> IsNumeric(res.value[column]) && Num(res.value[column]) == Num(Current(column, state)) + 1.0
  {
    var v :- Add(Current(column, state), IntV(1), column);
    Ok(state[column := v])
  }

  function SumFn(column: string): Nodes.Aggregator {
    (r: Row, state: Row) => Sum(column, r, state)
  }

  function CountFn(column: string): Nodes.Aggregator {
    (r: Row, state: Row) => Count(column, r, state)
  }

  /** The total of a numeric column over some rows. */
  ghost function ColumnTotal(rows: seq<Row>, column: string): real
    requires forall i :: 0 <= i < |rows| ==> column in rows[i] && IsNumeric(rows[i][column])
  {
    if rows == [] then 0.0 else Num(rows[0][column]) + ColumnTotal(rows[1..], column)
  }

  /** Folding Sum over a run adds up the column: the state keeps its other
      fields and gains the total (on top of any value it already had). */
  lemma {:induction false} SumFold(column: string, state: Row, rows: seq<Row>)
    requires IsNumeric(Current(column, state))
    requires forall i :: 0 <= i < |rows| ==> column in rows[i] && IsNumeric(rows[i][column])
    ensures var res := Nodes.Fold(SumFn(column), state, rows);
      res.Ok? && (rows != [] ==> res.value.Keys == state.Keys + {column}) &&
      (forall k :: k in state && k != column ==> k in res.value && res.value[k] == state[k]) &&
      IsNumeric(Current(column, res.value)) &&
      Num(Current(column, res.value)) == Num(Current(column, state)) + ColumnTotal(rows, column)
    decreases |rows|
  {
    if rows != [] {
      var next := Sum(column, rows[0], state).value;
      assert Current(column, next) == next[column];
      SumFold(column, next, rows[1..]);
    }
  }

  /** Folding Count over a run of `n` rows adds `n`; a fresh column ends at `n`. */
  lemma {:induction false} CountFold(column: string, state: Row, rows: seq<Row>)
    requires IsNumeric(Current(column, state))
    ensures var res := Nodes.Fold(CountFn(column), state, rows);
      res.Ok? && (rows != [] ==> res.value.Keys == state.Keys + {column}) &&
      (forall k :: k in state && k != column ==> k in res.value && res.value[k] == state[k]) &&
      IsNumeric(Current(column, res.value)) &&
      Num(Current(column, res.value)) == Num(Current(column, state)) + |rows| as real
    decreases |rows|
  {
    if rows != [] {
      var next := Count(column, rows[0], state).value;
      assert Current(column, next) == next[column];
      CountFold(column, next, rows[1..]);
    }
  }
}
