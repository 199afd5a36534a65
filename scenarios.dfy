/** Worked runs of the engine's nodes on small inputs. */
module Scenarios {
  import opened Values
  import opened Grouping
  import Join
  import Joiners

  function WordCount(w: string, c: int): Row { map["word" := StrV(w), "count" := IntV(c)] }
  function WordOther(w: string, o: int): Row { map["word" := StrV(w), "other" := IntV(o)] }
  function WordBoth(w: string, c: int, o: int): Row {
    map["word" := StrV(w), "count" := IntV(c), "other" := IntV(o)]
  }

  const Keys: seq<string> := ["word"]

  lemma WordKey(r: Row)
    requires "word" in r
    ensures KeyOf(r, Keys) == [r["word"]]
  {
  }

  /** Two rows with one key followed by two with another form two runs. */
  lemma TwoRuns(rows: seq<Row>)
    requires |rows| == 4 && forall i :: 0 <= i < 4 ==> "word" in rows[i]
    requires rows[0]["word"] == rows[1]["word"] && rows[2]["word"] == rows[3]["word"]
    requires rows[1]["word"] != rows[2]["word"]
    ensures Grouped(rows, Keys) ==
      [Group([rows[0]["word"]], rows[..2]), Group([rows[2]["word"]], rows[2..])]
  {
    forall i | 0 <= i < 4 ensures KeyOf(rows[i], Keys) == [rows[i]["word"]] { WordKey(rows[i]); }
    var g := [rows[..2], rows[2..]];
    assert Flatten(g[1..]) == rows[2..] + [];
    assert Flatten(g) == rows;
    assert KeyOf(g[0][0], Keys)[0] != KeyOf(g[1][0], Keys)[0];
    assert IsRunPartition(rows, Keys, g);
    RunsUnique(rows, Keys, g);
  }

  /** The calls the merge walk makes on the join test's inputs: 'hello' with
      both groups, 'hi' alone from the first side, then 'my' alone from the
      second. */
  lemma JoinTestCalls(a: seq<Row>, b: seq<Row>)
    requires JoinTestInputs(a, b)
    ensures Join.Calls(Grouped(a, Keys), Grouped(b, Keys)) ==
      [Join.Call([StrV("hello")], a[..2], b[..2]),
       Join.Call([StrV("hi")], a[2..], []),
       Join.Call([StrV("my")], [], b[2..])]
  {
    var hello, hi, my := [StrV("hello")], [StrV("hi")], [StrV("my")];
    TwoRuns(a);
    TwoRuns(b);
    var ga := [Group(hello, a[..2]), Group(hi, a[2..])];
    var gb := [Group(hello, b[..2]), Group(my, b[2..])];
    LexIrreflexive(hello, ValueLt);
    assert ValueLt(StrV("hi"), StrV("my")) by {
      assert "hi"[0] == 'h' && "my"[0] == 'm';
    }
    assert KeyLt(hi, my);
    assert ga[1..][1..] == [] && gb[1..][1..] == [];
    assert Join.Calls(ga[1..][1..], gb[1..]) == [Join.Call(my, [], b[2..])];
    assert Join.Calls(ga[1..], gb[1..]) == [Join.Call(hi, a[2..], []), Join.Call(my, [], b[2..])];
  }

  /** The shape of the join test's inputs: two 'hello' rows then two 'hi'
      rows on the first side, two 'hello' rows then two 'my' rows on the second. */
  ghost predicate JoinTestInputs(a: seq<Row>, b: seq<Row>) {
    |a| == 4 && |b| == 4 &&
    (forall i :: 0 <= i < 4 ==> "word" in a[i] && "word" in b[i]) &&
    a[0]["word"] == StrV("hello") && a[1]["word"] == StrV("hello") &&
    a[2]["word"] == StrV("hi") && a[3]["word"] == StrV("hi") &&
    b[0]["word"] == StrV("hello") && b[1]["word"] == StrV("hello") &&
    b[2]["word"] == StrV("my") && b[3]["word"] == StrV("my")
  }

  lemma JoinAllThree(f: Join.Joiner, c0: Join.Call, c1: Join.Call, c2: Join.Call)
    ensures Join.JoinAll(f, [c0, c1, c2]) ==
      f(c0.left, c0.right) + f(c1.left, c1.right) + f(c2.left, c2.right)
  {
    var cs := [c0, c1, c2];
    assert cs[1..][1..][1..] == [];
    assert Join.JoinAll(f, cs[1..][1..]) == f(c2.left, c2.right) + [];
    assert Join.JoinAll(f, cs[1..]) == f(c1.left, c1.right) + f(c2.left, c2.right);
  }

  /** JoinMe with the outer joiner keyed on `word`: the 2×2 cross product for
      'hello', then the 'hi' rows of the first input and the 'my' rows of the
      second, unchanged. */
  lemma OuterJoinTest(a: seq<Row>, b: seq<Row>)
    requires JoinTestInputs(a, b)
    ensures Join.Joined(Joiners.OuterFn(), Keys, a, b) == Ok(Joiners.Cross(a[..2], b[..2]) + a[2..] + b[2..])
  {
    assert AllHaveColumns(a, Keys) && AllHaveColumns(b, Keys);
    JoinTestCalls(a, b);
    var x, y := a[..2], b[..2];
    var c0 := Join.Call([StrV("hello")], x, y);
    var c1 := Join.Call([StrV("hi")], a[2..], []);
    var c2 := Join.Call([StrV("my")], [], b[2..]);
    var f := Joiners.OuterFn();
    JoinAllThree(f, c0, c1, c2);
    Joiners.OuterCases(x, y);
    Joiners.OuterCases(a[2..], []);
    Joiners.OuterCases([], b[2..]);
  }
}
