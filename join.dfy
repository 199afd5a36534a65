/** JoinMe: a merge join of two inputs, each sorted by the key tuple.  Both
    inputs are grouped into runs and walked in step; the joiner is called on
    (left group, right group), with `[]` standing for the side that lacks the key. */
module Join {
  import opened Values
  import opened Grouping
  import Sorting

  /** A joiner turns the rows of one key from each side into output rows. */
  type Joiner = (seq<Row>, seq<Row>) -> seq<Row>

  /** One call of the joiner: the key, and the two argument lists. */
  datatype Call = Call(key: Key, left: seq<Row>, right: seq<Row>)

  /** The joiner calls the merge walk makes, in order. */
  function Calls(g1: seq<Group>, g2: seq<Group>): seq<Call>
    decreases |g1| + |g2|
  {
    if g1 == [] && g2 == [] then []
    else if g2 == [] then [Call(g1[0].key, g1[0].rows, [])] + Calls(g1[1..], g2)
    else if g1 == [] then [Call(g2[0].key, [], g2[0].rows)] + Calls(g1, g2[1..])
    else if KeyLt(g1[0].key, g2[0].key) then [Call(g1[0].key, g1[0].rows, [])] + Calls(g1[1..], g2)
    else if g1[0].key == g2[0].key then [Call(g1[0].key, g1[0].rows, g2[0].rows)] + Calls(g1[1..], g2[1..])
    else [Call(g2[0].key, [], g2[0].rows)] + Calls(g1, g2[1..])
  }

  /** The concatenated output of the joiner over the calls. */
  function JoinAll(joiner: Joiner, cs: seq<Call>): seq<Row> {
    if cs == [] then [] else joiner(cs[0].left, cs[0].right) + JoinAll(joiner, cs[1..])
  }

  /** The output of JoinMe: a missing key column on either side is an error. */
  function Joined(joiner: Joiner, keys: seq<string>, first: seq<Row>, second: seq<Row>): Result<seq<Row>> {
    if !AllHaveColumns(first, keys) then Err(MissingIn(first, keys))
    else if !AllHaveColumns(second, keys) then Err(MissingIn(second, keys))
    else Ok(JoinAll(joiner, Calls(Grouped(first, keys), Grouped(second, keys))))
  }

  /** Position `i` of a grouper: the group there, or the `(None, None)` end marker. */
  function Next(g: seq<Group>, i: nat): (c: Option<Group>)
    ensures c.Some? <==> i < |g|
  {
    if i < |g| then Some(g[i]) else None
  }

  /** One step of the walk that passes the first side's group alone. */
  lemma StepFirst(joiner: Joiner, g1: seq<Group>, g2: seq<Group>, i: nat, j: nat)
    requires i < |g1| && j <= |g2|
    requires j == |g2| || KeyLt(g1[i].key, g2[j].key)
    ensures JoinAll(joiner, Calls(g1[i..], g2[j..])) ==
      joiner(g1[i].rows, []) + JoinAll(joiner, Calls(g1[i + 1..], g2[j..]))
  {
    assert g1[i..][0] == g1[i] && g1[i..][1..] == g1[i + 1..];
    assert g2[j..] == [] || g2[j..][0] == g2[j];
    var cs := Calls(g1[i..], g2[j..]);
    assert cs[1..] == Calls(g1[i + 1..], g2[j..]);
  }

  /** One step of the walk that passes both groups of an equal key. */
  lemma StepBoth(joiner: Joiner, g1: seq<Group>, g2: seq<Group>, i: nat, j: nat)
    requires i < |g1| && j < |g2| && g1[i].key == g2[j].key
    ensures JoinAll(joiner, Calls(g1[i..], g2[j..])) ==
      joiner(g1[i].rows, g2[j].rows) + JoinAll(joiner, Calls(g1[i + 1..], g2[j + 1..]))
  {
    assert g1[i..][0] == g1[i] && g1[i..][1..] == g1[i + 1..];
    assert g2[j..][0] == g2[j] && g2[j..][1..] == g2[j + 1..];
    KeyLtStrictTotal();
    var cs := Calls(g1[i..], g2[j..]);
    assert cs[1..] == Calls(g1[i + 1..], g2[j + 1..]);
  }

  /** One step of the walk that passes the second side's group alone. */
  lemma StepSecond(joiner: Joiner, g1: seq<Group>, g2: seq<Group>, i: nat, j: nat)
    requires i <= |g1| && j < |g2|
    requires i == |g1| || (!KeyLt(g1[i].key, g2[j].key) && g1[i].key != g2[j].key)
    ensures JoinAll(joiner, Calls(g1[i..], g2[j..])) ==
      joiner([], g2[j].rows) + JoinAll(joiner, Calls(g1[i..], g2[j + 1..]))
  {
    assert g2[j..][0] == g2[j] && g2[j..][1..] == g2[j + 1..];
    assert g1[i..] == [] || g1[i..][0] == g1[i];
    var cs := Calls(g1[i..], g2[j..]);
    assert cs[1..] == Calls(g1[i..], g2[j + 1..]);
  }

  lemma AppendAssoc(a: seq<Row>, b: seq<Row>, c: seq<Row>)
    ensures a + (b + c) == (a + b) + c
  {
  }

  /** The imperative JoinMe: group both inputs, then walk the two groupers. */
  method JoinMe(joiner: Joiner, keys: seq<string>, first: seq<Row>, second: seq<Row>) returns (r: Result<seq<Row>>)
    ensures r == Joined(joiner, keys, first, second)
  {
    if !AllHaveColumns(first, keys) {
      return Err(MissingIn(first, keys));
    }
    if !AllHaveColumns(second, keys) {
      return Err(MissingIn(second, keys));
    }
    var out := Merge(joiner, Grouped(first, keys), Grouped(second, keys));
    return Ok(out);
  }

  /** The walk over two grouper cursors: one loop while both have groups,
      then one loop for what is left on either side. */
  method Merge(joiner: Joiner, g1: seq<Group>, g2: seq<Group>) returns (out: seq<Row>)
    ensures out == JoinAll(joiner, Calls(g1, g2))
  {
    var i, j;
    i, j, out := MergeBoth(joiner, g1, g2);
    var rest := Drain(joiner, g1, g2, i, j);
    out := out + rest;
  }

  /** The loop while both cursors hold a group: the smaller key goes
      alone, equal keys go together. */
  method MergeBoth(joiner: Joiner, g1: seq<Group>, g2: seq<Group>) returns (i: nat, j: nat, out: seq<Row>)
    ensures i <= |g1| && j <= |g2| && (i == |g1| || j == |g2|)
    ensures out + JoinAll(joiner, Calls(g1[i..], g2[j..])) == JoinAll(joiner, Calls(g1, g2))
  {
    ghost var all := JoinAll(joiner, Calls(g1, g2));
    i, j := 0, 0;
    var firstCur, secondCur := Next(g1, i), Next(g2, j);
    out := [];
    assert g1[0..] == g1 && g2[0..] == g2;
    while firstCur.Some? && secondCur.Some?
      invariant 0 <= i <= |g1| && 0 <= j <= |g2|
      invariant firstCur == Next(g1, i) && secondCur == Next(g2, j)
      invariant out + JoinAll(joiner, Calls(g1[i..], g2[j..])) == all
      decreases |g1| - i + |g2| - j
    {
      var f, s := firstCur.value, secondCur.value;
      if KeyLt(f.key, s.key) {
        StepFirst(joiner, g1, g2, i, j);
        AppendAssoc(out, joiner(f.rows, []), JoinAll(joiner, Calls(g1[i + 1..], g2[j..])));
        out := out + joiner(f.rows, []);
        i := i + 1;
        firstCur := Next(g1, i);
      } else if f.key == s.key {
        StepBoth(joiner, g1, g2, i, j);
        AppendAssoc(out, joiner(f.rows, s.rows), JoinAll(joiner, Calls(g1[i + 1..], g2[j + 1..])));
        out := out + joiner(f.rows, s.rows);
        i, j := i + 1, j + 1;
        firstCur, secondCur := Next(g1, i), Next(g2, j);
      } else {
        StepSecond(joiner, g1, g2, i, j);
        AppendAssoc(out, joiner([], s.rows), JoinAll(joiner, Calls(g1[i..], g2[j + 1..])));
        out := out + joiner([], s.rows);
        j := j + 1;
        secondCur := Next(g2, j);
      }
    }
  }

  /** The two loops for the groups left on one side once the other side
      is exhausted. */
  method Drain(joiner: Joiner, g1: seq<Group>, g2: seq<Group>, i: nat, j: nat) returns (out: seq<Row>)
    requires i <= |g1| && j <= |g2| && (i == |g1| || j == |g2|)
    ensures out == JoinAll(joiner, Calls(g1[i..], g2[j..]))
  {
    out := DrainFirst(joiner, g1, g2, i, j);
    var rest := DrainSecond(joiner, g1, g2, j);
    out := out + rest;
  }

  /** `while first_key is not None`, the second side being exhausted. */
  method DrainFirst(joiner: Joiner, g1: seq<Group>, g2: seq<Group>, i0: nat, j: nat) returns (out: seq<Row>)
    requires i0 <= |g1| && j <= |g2| && (i0 == |g1| || j == |g2|)
    ensures out + JoinAll(joiner, Calls(g1[|g1|..], g2[j..])) == JoinAll(joiner, Calls(g1[i0..], g2[j..]))
  {
    var i := i0;
    var firstCur := Next(g1, i);
    out := [];
    while firstCur.Some?
      invariant i0 <= i <= |g1| && firstCur == Next(g1, i) && (i == |g1| || j == |g2|)
      invariant out + JoinAll(joiner, Calls(g1[i..], g2[j..])) == JoinAll(joiner, Calls(g1[i0..], g2[j..]))
      decreases |g1| - i
    {
      var f := firstCur.value;
      StepFirst(joiner, g1, g2, i, j);
      AppendAssoc(out, joiner(f.rows, []), JoinAll(joiner, Calls(g1[i + 1..], g2[j..])));
      out := out + joiner(f.rows, []);
      i := i + 1;
      firstCur := Next(g1, i);
    }
  }

  /** `while second_key is not None`, the first side being exhausted. */
  method DrainSecond(joiner: Joiner, g1: seq<Group>, g2: seq<Group>, j0: nat) returns (out: seq<Row>)
    requires j0 <= |g2|
    ensures out == JoinAll(joiner, Calls(g1[|g1|..], g2[j0..]))
  {
    var i, j := |g1|, j0;
    var secondCur := Next(g2, j);
    out := [];
    while secondCur.Some?
      invariant j0 <= j <= |g2| && secondCur == Next(g2, j)
      invariant out + JoinAll(joiner, Calls(g1[i..], g2[j..])) == JoinAll(joiner, Calls(g1[i..], g2[j0..]))
      decreases |g2| - j
    {
      var s := secondCur.value;
      StepSecond(joiner, g1, g2, i, j);
      AppendAssoc(out, joiner([], s.rows), JoinAll(joiner, Calls(g1[i..], g2[j + 1..])));
      out := out + joiner([], s.rows);
      j := j + 1;
      secondCur := Next(g2, j);
    }
    assert g1[i..] == [] && g2[j..] == [];
    assert out + [] == out;
  }

  // --------------------------------------------------------------------
  // What the merge walk computes
  // --------------------------------------------------------------------

  function KeySet(g: seq<Group>): set<Key> {
    if g == [] then {} else {g[0].key} + KeySet(g[1..])
  }

  function CallKeys(cs: seq<Call>): set<Key> {
    if cs == [] then {} else {cs[0].key} + CallKeys(cs[1..])
  }

  /** The rows of the group with key `k`, or `[]` when there is none. */
  function Lookup(g: seq<Group>, k: Key): seq<Row> {
    if g == [] then [] else if g[0].key == k then g[0].rows else Lookup(g[1..], k)
  }

  ghost predicate GroupsIncrease(g: seq<Group>) {
    forall i, j :: 0 <= i < j < |g| ==> KeyLt(g[i].key, g[j].key)
  }

  ghost predicate CallsIncrease(cs: seq<Call>) {
    forall i, j :: 0 <= i < j < |cs| ==> KeyLt(cs[i].key, cs[j].key)
  }

  /** Every key in the set lies strictly above `k`. */
  ghost predicate Above(k: Key, ks: set<Key>) {
    forall k' :: k' in ks ==> KeyLt(k, k')
  }

  /** Each call carries exactly the two groups of its key. */
  predicate CallsMatch(cs: seq<Call>, g1: seq<Group>, g2: seq<Group>) {
    forall i :: 0 <= i < |cs| ==> cs[i].left == Lookup(g1, cs[i].key) && cs[i].right == Lookup(g2, cs[i].key)
  }

  lemma {:induction false} KeySetIndex(g: seq<Group>, k: Key)
    requires k in KeySet(g)
    ensures exists i :: 0 <= i < |g| && g[i].key == k
  {
    if g[0].key != k {
      KeySetIndex(g[1..], k);
      var i :| 0 <= i < |g[1..]| && g[1..][i].key == k;
      assert g[i + 1].key == k;
    }
  }

  lemma {:induction false} CallKeysIndex(cs: seq<Call>, i: nat)
    requires i < |cs|
    ensures cs[i].key in CallKeys(cs)
  {
    if i > 0 {
      CallKeysIndex(cs[1..], i - 1);
    }
  }

  lemma IncreaseTail(g: seq<Group>)
    requires g != [] && GroupsIncrease(g)
    ensures GroupsIncrease(g[1..])
  {
    forall i, j | 0 <= i < j < |g[1..]| ensures KeyLt(g[1..][i].key, g[1..][j].key) {
      assert g[1..][i] == g[i + 1] && g[1..][j] == g[j + 1];
    }
  }

  /** In increasing groups the head key lies below all later keys. */
  lemma HeadBelowTail(g: seq<Group>)
    requires g != [] && GroupsIncrease(g)
    ensures Above(g[0].key, KeySet(g[1..]))
  {
    forall k | k in KeySet(g[1..]) ensures KeyLt(g[0].key, k) {
      KeySetIndex(g[1..], k);
      var i :| 0 <= i < |g[1..]| && g[1..][i].key == k;
      assert g[i + 1].key == k;
    }
  }

  /** A key below the head of increasing groups lies below all their keys. */
  lemma BelowHead(k: Key, g: seq<Group>)
    requires g != [] && GroupsIncrease(g) && KeyLt(k, g[0].key)
    ensures Above(k, KeySet(g))
  {
    HeadBelowTail(g);
    KeyLtStrictTotal();
  }

  lemma {:induction false} LookupAbsent(g: seq<Group>, k: Key)
    requires k !in KeySet(g)
    ensures Lookup(g, k) == []
  {
    if g != [] {
      LookupAbsent(g[1..], k);
    }
  }

  lemma AboveAbsent(k: Key, ks: set<Key>)
    requires Above(k, ks)
    ensures k !in ks
  {
    KeyLtStrictTotal();
  }

  /** The walk calls the joiner once for each key of either side. */
  lemma {:induction false} CallKeysUnion(g1: seq<Group>, g2: seq<Group>)
    ensures CallKeys(Calls(g1, g2)) == KeySet(g1) + KeySet(g2)
    decreases |g1| + |g2|
  {
    var cs := Calls(g1, g2);
    if g1 == [] && g2 == [] {
    } else if g2 == [] || (g1 != [] && KeyLt(g1[0].key, g2[0].key)) {
      CallKeysUnion(g1[1..], g2);
      assert cs[1..] == Calls(g1[1..], g2);
    } else if g1 == [] || g1[0].key != g2[0].key {
      CallKeysUnion(g1, g2[1..]);
      assert cs[1..] == Calls(g1, g2[1..]);
    } else {
      CallKeysUnion(g1[1..], g2[1..]);
      assert cs[1..] == Calls(g1[1..], g2[1..]);
    }
  }

  lemma ConsCallsIncrease(c: Call, cs: seq<Call>)
    requires CallsIncrease(cs) && Above(c.key, CallKeys(cs))
    ensures CallsIncrease([c] + cs)
  {
    var d := [c] + cs;
    forall i, j | 0 <= i < j < |d| ensures KeyLt(d[i].key, d[j].key) {
      assert d[j] == cs[j - 1];
      CallKeysIndex(cs, j - 1);
      if i > 0 { assert d[i] == cs[i - 1]; }
    }
  }

  /** The first key of a step lies below every key of the remaining walk. */
  lemma StepAbove(k: Key, g1: seq<Group>, g2: seq<Group>)
    requires Above(k, KeySet(g1)) && Above(k, KeySet(g2))
    ensures Above(k, CallKeys(Calls(g1, g2)))
  {
    CallKeysUnion(g1, g2);
  }

  /** On increasing groups the walk visits keys in strictly increasing order,
      and every call carries exactly the groups of its key. */
  lemma {:induction false} CallsOrdered(g1: seq<Group>, g2: seq<Group>)
    requires GroupsIncrease(g1) && GroupsIncrease(g2)
    ensures CallsIncrease(Calls(g1, g2))
    ensures CallsMatch(Calls(g1, g2), g1, g2)
    decreases |g1| + |g2|
  {
    var cs := Calls(g1, g2);
    if g1 == [] && g2 == [] {
      return;
    }
    var k: Key;
    var r1, r2: seq<Group>;
    if g2 == [] || (g1 != [] && KeyLt(g1[0].key, g2[0].key)) {
      k, r1, r2 := g1[0].key, g1[1..], g2;
      HeadBelowTail(g1);
      if g2 != [] { BelowHead(k, g2); }
      AboveAbsent(k, KeySet(g2));
      LookupAbsent(g2, k);
    } else if g1 == [] || g1[0].key != g2[0].key {
      k, r1, r2 := g2[0].key, g1, g2[1..];
      HeadBelowTail(g2);
      if g1 != [] {
        KeyLeNe(g2[0].key, g1[0].key);
        BelowHead(k, g1);
      }
      AboveAbsent(k, KeySet(g1));
      LookupAbsent(g1, k);
    } else {
      k, r1, r2 := g1[0].key, g1[1..], g2[1..];
      HeadBelowTail(g1);
      HeadBelowTail(g2);
    }
    if r1 != g1 { IncreaseTail(g1); }
    if r2 != g2 { IncreaseTail(g2); }
    assert cs[1..] == Calls(r1, r2);
    assert cs[0].key == k;
    CallsOrdered(r1, r2);
    StepAbove(k, r1, r2);
    ConsCallsIncrease(cs[0], cs[1..]);
    assert [cs[0]] + cs[1..] == cs;
    forall i | 0 <= i < |cs| ensures cs[i].left == Lookup(g1, cs[i].key) && cs[i].right == Lookup(g2, cs[i].key) {
      if i > 0 {
        assert cs[i] == Calls(r1, r2)[i - 1];
        CallKeysIndex(Calls(r1, r2), i - 1);
        AboveAbsent(k, CallKeys(Calls(r1, r2)));
      }
    }
  }

  // --------------------------------------------------------------------
  // Joining sorted inputs
  // --------------------------------------------------------------------

  /** The key tuples that occur in `rows`. */
  ghost function RowKeys(rows: seq<Row>, keys: seq<string>): set<Key> {
    set r | r in rows :: KeyOf(r, keys)
  }

  function GroupRows(g: seq<Group>): seq<Row> {
    if g == [] then [] else g[0].rows + GroupRows(g[1..])
  }

  /** Every group is non-empty, its rows carry its key, and keys are distinct. */
  ghost predicate WellGrouped(g: seq<Group>, keys: seq<string>) {
    (forall i :: 0 <= i < |g| ==> g[i].rows != []) &&
    (forall i, j :: 0 <= i < |g| && 0 <= j < |g[i].rows| ==> KeyOf(g[i].rows[j], keys) == g[i].key) &&
    (forall i, j :: 0 <= i < j < |g| ==> g[i].key != g[j].key)
  }

  lemma {:induction false} KeySetHas(g: seq<Group>, i: nat)
    requires i < |g|
    ensures g[i].key in KeySet(g)
  {
    if i > 0 {
      KeySetHas(g[1..], i - 1);
    }
  }

  lemma {:induction false} GroupRowsOfRuns(gs: seq<Group>, g: seq<seq<Row>>)
    requires |gs| == |g| && forall i :: 0 <= i < |g| ==> gs[i].rows == g[i]
    ensures GroupRows(gs) == Flatten(g)
  {
    if g != [] {
      GroupRowsOfRuns(gs[1..], g[1..]);
    }
  }

  lemma {:induction false} FlattenIndex<T>(g: seq<seq<T>>, x: T)
    requires x in Flatten(g)
    ensures exists i, j :: 0 <= i < |g| && 0 <= j < |g[i]| && g[i][j] == x
  {
    if g != [] {
      if x in g[0] {
        var j :| 0 <= j < |g[0]| && g[0][j] == x;
      } else {
        FlattenIndex(g[1..], x);
        var i, j :| 0 <= i < |g[1..]| && 0 <= j < |g[1..][i]| && g[1..][i][j] == x;
        assert g[i + 1][j] == x;
      }
    }
  }

  /** On sorted input the groups are well formed, their keys increase and are
      exactly the keys that occur, and together they hold the input. */
  lemma GroupedSorted(rows: seq<Row>, keys: seq<string>)
    requires SortedByKey(rows, keys)
    ensures var gs := Grouped(rows, keys);
      WellGrouped(gs, keys) && GroupsIncrease(gs) && GroupRows(gs) == rows &&
      KeySet(gs) == RowKeys(rows, keys)
  {
    var g := Runs(rows, keys);
    var gs := Grouped(rows, keys);
    GroupedRuns(rows, keys);
    RunKeysIncrease(rows, keys);
    KeyLtStrictTotal();
    assert GroupsIncrease(gs) by {
      forall i, j | 0 <= i < j < |gs| ensures KeyLt(gs[i].key, gs[j].key) {
        assert g[i] != [] && g[j] != [];
      }
    }
    GroupRowsOfRuns(gs, g);
    forall k | k in KeySet(gs) ensures k in RowKeys(rows, keys) {
      KeySetIndex(gs, k);
      var i :| 0 <= i < |gs| && gs[i].key == k;
      FlattenMember(g, i, 0);
    }
    forall r | r in rows ensures KeyOf(r, keys) in KeySet(gs) {
      FlattenIndex(g, r);
      var i, j :| 0 <= i < |g| && 0 <= j < |g[i]| && g[i][j] == r;
      KeySetHas(gs, i);
    }
  }

  lemma {:induction false} WithKeyAll(s: seq<Row>, keys: seq<string>, k: Key)
    requires forall j :: 0 <= j < |s| ==> KeyOf(s[j], keys) == k
    ensures Sorting.WithKey(s, KeyFn(keys), k) == s
  {
    if s != [] {
      WithKeyAll(s[1..], keys, k);
    }
  }

  lemma {:induction false} WithKeyNone(s: seq<Row>, keys: seq<string>, k: Key)
    requires forall j :: 0 <= j < |s| ==> KeyOf(s[j], keys) != k
    ensures Sorting.WithKey(s, KeyFn(keys), k) == []
  {
    if s != [] {
      WithKeyNone(s[1..], keys, k);
    }
  }

  lemma WellGroupedTail(g: seq<Group>, keys: seq<string>)
    requires g != [] && WellGrouped(g, keys)
    ensures WellGrouped(g[1..], keys) && g[0].key !in KeySet(g[1..])
  {
    forall k | k in KeySet(g[1..]) ensures k != g[0].key {
      KeySetIndex(g[1..], k);
      var i :| 0 <= i < |g[1..]| && g[1..][i].key == k;
      assert g[i + 1].key == k;
    }
    var h := g[1..];
    forall i, j | 0 <= i < |h| && 0 <= j < |h[i].rows| ensures KeyOf(h[i].rows[j], keys) == h[i].key {
      assert h[i] == g[i + 1];
    }
  }

  /** The group of a key holds exactly the rows that carry it. */
  lemma {:induction false} LookupWithKey(g: seq<Group>, keys: seq<string>, k: Key)
    requires WellGrouped(g, keys)
    ensures Lookup(g, k) == Sorting.WithKey(GroupRows(g), KeyFn(keys), k)
  {
    if g != [] {
      WellGroupedTail(g, keys);
      Sorting.WithKeyAppend(g[0].rows, GroupRows(g[1..]), KeyFn(keys), k);
      LookupWithKey(g[1..], keys, k);
      if g[0].key == k {
        WithKeyAll(g[0].rows, keys, k);
        LookupAbsent(g[1..], k);
      } else {
        WithKeyNone(g[0].rows, keys, k);
      }
    }
  }

  lemma {:induction false} WithKeyPresent(rows: seq<Row>, keys: seq<string>, k: Key)
    requires k in RowKeys(rows, keys)
    ensures Sorting.WithKey(rows, KeyFn(keys), k) != []
  {
    if KeyOf(rows[0], keys) != k {
      assert k in RowKeys(rows[1..], keys);
      WithKeyPresent(rows[1..], keys, k);
    }
  }

  /** On inputs sorted by key, JoinMe calls the joiner exactly once for each
      key tuple that occurs on either side, in strictly increasing key order,
      passing all rows of each side that carry the key (empty on the side
      that lacks it, never empty on both). */
  lemma JoinedSorted(joiner: Joiner, keys: seq<string>, first: seq<Row>, second: seq<Row>)
    requires AllHaveColumns(first, keys) && AllHaveColumns(second, keys)
    requires SortedByKey(first, keys) && SortedByKey(second, keys)
    ensures var cs := Calls(Grouped(first, keys), Grouped(second, keys));
      Joined(joiner, keys, first, second) == Ok(JoinAll(joiner, cs)) &&
      CallKeys(cs) == RowKeys(first, keys) + RowKeys(second, keys) &&
      CallsIncrease(cs) &&
      forall i :: 0 <= i < |cs| ==>
        cs[i].left == Sorting.WithKey(first, KeyFn(keys), cs[i].key) &&
        cs[i].right == Sorting.WithKey(second, KeyFn(keys), cs[i].key) &&
        (cs[i].left != [] || cs[i].right != [])
  {
    var g1, g2 := Grouped(first, keys), Grouped(second, keys);
    var cs := Calls(g1, g2);
    GroupedSorted(first, keys);
    GroupedSorted(second, keys);
    CallKeysUnion(g1, g2);
    CallsOrdered(g1, g2);
    forall i | 0 <= i < |cs| ensures
        cs[i].left == Sorting.WithKey(first, KeyFn(keys), cs[i].key) &&
        cs[i].right == Sorting.WithKey(second, KeyFn(keys), cs[i].key) &&
        (cs[i].left != [] || cs[i].right != []) {
      LookupWithKey(g1, keys, cs[i].key);
      LookupWithKey(g2, keys, cs[i].key);
      CallKeysIndex(cs, i);
      if cs[i].key in RowKeys(first, keys) {
        WithKeyPresent(first, keys, cs[i].key);
      } else {
        WithKeyPresent(second, keys, cs[i].key);
      }
    }
  }
}
