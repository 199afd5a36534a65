/** The joiners of the operation library: what a join does with the rows of
    one key from each side.  `deepcopy(x).update(y)` is the map union `x + y`,
    in which `y`'s values win. */
module Joiners {
  import opened Values
  import Join

  /** `new_r = deepcopy(a); new_r.update(b)` */
  function Merge(a: Row, b: Row): Row {
    a + b
  }

  /** The merged row has the columns of both; `b`'s values win. */
  lemma MergeFields(a: Row, b: Row)
    ensures Merge(a, b).Keys == a.Keys + b.Keys
    ensures forall k :: k in b ==> Merge(a, b)[k] == b[k]
    ensures forall k :: k in a && k !in b ==> Merge(a, b)[k] == a[k]
  {
  }

  /** `a` merged with every row of `bs`, in order. */
  function Pair(a: Row, bs: seq<Row>): (r: seq<Row>)
    ensures |r| == |bs|
    ensures forall j :: 0 <= j < |bs| ==> r[j] == Merge(a, bs[j])
  {
    seq(|bs|, j requires 0 <= j < |bs| => Merge(a, bs[j]))
  }

  /** `for a in as: for b in bs: yield merged(a, b)` */
  function Cross(xs: seq<Row>, ys: seq<Row>): seq<Row> {
    if xs == [] then [] else Pair(xs[0], ys) + Cross(xs[1..], ys)
  }

  /** The cross product has `|xs|·|ys|` rows. */
  lemma {:induction false} CrossLength(xs: seq<Row>, ys: seq<Row>)
    ensures |Cross(xs, ys)| == |xs| * |ys|
  {
    if xs != [] {
      CrossLength(xs[1..], ys);
      assert |xs| * |ys| == |ys| + (|xs| - 1) * |ys|;
    }
  }

  /** Every pair `(xs[i], ys[j])` is merged, at position `i·|ys| + j` (row-major order). */
  lemma {:induction false} CrossPairs(xs: seq<Row>, ys: seq<Row>, i: nat, j: nat)
    requires i < |xs| && j < |ys|
    ensures i * |ys| + j < |Cross(xs, ys)|
    ensures Cross(xs, ys)[i * |ys| + j] == Merge(xs[i], ys[j])
  {
    CrossLength(xs, ys);
    if i == 0 {
      assert Cross(xs, ys)[j] == Pair(xs[0], ys)[j];
    } else {
      CrossPairs(xs[1..], ys, i - 1, j);
      assert i * |ys| == (i - 1) * |ys| + |ys|;
      assert Cross(xs, ys)[i * |ys| + j] == Cross(xs[1..], ys)[(i - 1) * |ys| + j];
    }
  }

  /** Every row of the cross product is the merge of some pair. */
  lemma {:induction false} CrossFrom(xs: seq<Row>, ys: seq<Row>, k: nat)
    requires k < |Cross(xs, ys)|
    ensures exists i, j :: 0 <= i < |xs| && 0 <= j < |ys| && Cross(xs, ys)[k] == Merge(xs[i], ys[j])
  {
    if k < |ys| {
      assert Cross(xs, ys)[k] == Merge(xs[0], ys[k]);
    } else {
      var t := xs[1..];
      CrossFrom(t, ys, k - |ys|);
      var i, j :| 0 <= i < |t| && 0 <= j < |ys| && Cross(t, ys)[k - |ys|] == Merge(t[i], ys[j]);
      assert Cross(xs, ys) == Pair(xs[0], ys) + Cross(t, ys);
      assert Cross(xs, ys)[k] == Cross(t, ys)[k - |ys|];
      assert t[i] == xs[i + 1];
    }
  }

  /** InnerJoiner: the cross product. */
  function Inner(xs: seq<Row>, ys: seq<Row>): seq<Row> {
    Cross(xs, ys)
  }

  /** OuterJoiner: either side passed through when the other is empty, then
      the cross product. */
  function Outer(xs: seq<Row>, ys: seq<Row>): seq<Row> {
    (if xs == [] then ys else []) + (if ys == [] then xs else []) + Cross(xs, ys)
  }

  /** LeftJoiner: each `a` merged with every `b`, or `a` alone when there are none. */
  function Left(xs: seq<Row>, ys: seq<Row>): seq<Row> {
    if xs == [] then []
    else (if ys == [] then [xs[0]] else Pair(xs[0], ys)) + Left(xs[1..], ys)
  }

  /** RightJoiner: each `b` overwritten by every `a`, or `b` alone when there are none. */
  function Right(xs: seq<Row>, ys: seq<Row>): seq<Row> {
    if ys == [] then []
    else (if xs == [] then [ys[0]] else Pair(ys[0], xs)) + Right(xs, ys[1..])
  }

  function InnerFn(): Join.Joiner { (xs: seq<Row>, ys: seq<Row>) => Inner(xs, ys) }
  function OuterFn(): Join.Joiner { (xs: seq<Row>, ys: seq<Row>) => Outer(xs, ys) }
  function LeftFn(): Join.Joiner { (xs: seq<Row>, ys: seq<Row>) => Left(xs, ys) }
  function RightFn(): Join.Joiner { (xs: seq<Row>, ys: seq<Row>) => Right(xs, ys) }

  lemma {:induction false} CrossEmpty(xs: seq<Row>)
    ensures Cross(xs, []) == []
  {
    if xs != [] { CrossEmpty(xs[1..]); }
  }

  /** Inner yields `|xs|·|ys|` merged rows, and nothing when either side is empty. */
  lemma InnerSize(xs: seq<Row>, ys: seq<Row>)
    ensures |Inner(xs, ys)| == |xs| * |ys|
    ensures Inner(xs, ys) == [] <==> xs == [] || ys == []
  {
    CrossLength(xs, ys);
    if xs != [] && ys != [] {
      assert |xs| * |ys| >= |ys| by {
        assert |xs| * |ys| == |ys| + (|xs| - 1) * |ys|;
      }
    }
  }

  /** Outer passes one side through unchanged when the other is empty, and
      is the inner join when both sides have rows. */
  lemma OuterCases(xs: seq<Row>, ys: seq<Row>)
    ensures xs == [] ==> Outer(xs, ys) == ys
    ensures ys == [] ==> Outer(xs, ys) == xs
    ensures xs != [] && ys != [] ==> Outer(xs, ys) == Inner(xs, ys)
  {
    CrossEmpty(xs);
  }

  /** Left is the cross product when `ys` has rows and passes `xs` through
      when it has none. */
  lemma {:induction false} LeftIsCross(xs: seq<Row>, ys: seq<Row>)
    ensures Left(xs, ys) == if ys == [] then xs else Cross(xs, ys)
  {
    if xs != [] {
      LeftIsCross(xs[1..], ys);
      if ys == [] { assert xs == [xs[0]] + xs[1..]; }
    }
  }

  /** Right is Left with the sides swapped: `ys` rows pass through when `xs`
      is empty, and otherwise every `ys` row is overwritten by every `xs` row. */
  lemma {:induction false} RightIsSwappedLeft(xs: seq<Row>, ys: seq<Row>)
    ensures Right(xs, ys) == Left(ys, xs)
  {
    if ys != [] { RightIsSwappedLeft(xs, ys[1..]); }
  }

  /** Left yields nothing when `xs` is empty and passes `xs` through when `ys` is. */
  lemma LeftCases(xs: seq<Row>, ys: seq<Row>)
    ensures xs == [] ==> Left(xs, ys) == []
    ensures ys == [] ==> Left(xs, ys) == xs
    ensures ys != [] ==> Left(xs, ys) == Inner(xs, ys)
  {
    LeftIsCross(xs, ys);
  }

  /** In Right the fields of the `xs` row win over those of the `ys` row. */
  lemma RightOverwrites(xs: seq<Row>, ys: seq<Row>, i: nat, j: nat)
    requires i < |xs| && j < |ys|
    ensures j * |xs| + i < |Right(xs, ys)|
    ensures Right(xs, ys)[j * |xs| + i] == Merge(ys[j], xs[i])
    ensures forall k :: k in xs[i] ==> Right(xs, ys)[j * |xs| + i][k] == xs[i][k]
  {
    RightIsSwappedLeft(xs, ys);
    LeftIsCross(ys, xs);
    CrossPairs(ys, xs, j, i);
    MergeFields(ys[j], xs[i]);
  }

  /** Merging two rows that agree on the key columns keeps that key, so every
      row a joiner yields for one key carries that key. */
  lemma MergeKeepsKey(a: Row, b: Row, keys: seq<string>)
    requires HasColumns(a, keys) && HasColumns(b, keys)
    requires KeyOf(a, keys) == KeyOf(b, keys)
    ensures HasColumns(Merge(a, b), keys)
    ensures KeyOf(Merge(a, b), keys) == KeyOf(a, keys)
  {
    MergeFields(a, b);
    forall i | 0 <= i < |keys| ensures KeyOf(Merge(a, b), keys)[i] == KeyOf(a, keys)[i] {
      assert KeyOf(b, keys)[i] == b[keys[i]];
    }
  }
}
