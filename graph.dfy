/** The dataflow graph as data: nodes live in an arena and name their
    inputs by index.  A node's inputs always come before it, because every
    builder appends a fresh node whose inputs already exist. */
module Graph {
  import opened Values
  import opened Nodes
  import Join

  /** The parametrised node kinds.  `SaveNode` appends to the sink it names. */
  datatype Node =
    | ReadIter(name: string)
    | MapNode(mapper: Mapper, records: nat)
    | SortNode(keys: seq<string>, records: nat)
    | ReduceNode(reducer: Reducer, keys: seq<string>, records: nat)
    | AggregateNode(aggregator: Aggregator, keys: seq<string>, records: nat)
    | JoinNode(joiner: Join.Joiner, keys: seq<string>, first: nat, second: nat)
    | SaveNode(sink: nat, records: nat)

  /** `params.values()` in insertion order. */
  function Inputs(node: Node): (ins: seq<nat>)
    ensures |ins| <= 2
    ensures node.ReadIter? <==> ins == []
  {
    match node
    case ReadIter(_) => []
    case JoinNode(_, _, a, b) => [a, b]
    case MapNode(_, i) => [i]
    case SortNode(_, i) => [i]
    case ReduceNode(_, _, i) => [i]
    case AggregateNode(_, _, i) => [i]
    case SaveNode(_, i) => [i]
  }

  /** Every node's inputs precede it. */
  ghost predicate WellFormed(nodes: seq<Node>) {
    forall k, j :: 0 <= k < |nodes| && 0 <= j < |Inputs(nodes[k])| ==> Inputs(nodes[k])[j] < k
  }

  /** `n` and everything it transitively reads from. */
  ghost function Upstream(nodes: seq<Node>, n: nat): set<nat>
    requires WellFormed(nodes) && n < |nodes|
    decreases n
  {
    var ins := Inputs(nodes[n]);
    assert forall j :: 0 <= j < |ins| ==> ins[j] < n;
    {n} + (if |ins| > 0 then Upstream(nodes, ins[0]) else {})
        + (if |ins| > 1 then Upstream(nodes, ins[1]) else {})
  }

  /** The union of `Upstream` over several nodes. */
  ghost function UpstreamAll(nodes: seq<Node>, gs: seq<nat>): set<nat>
    requires WellFormed(nodes) && forall k :: 0 <= k < |gs| ==> gs[k] < |nodes|
  {
    if gs == [] then {}
    else UpstreamAll(nodes, gs[..|gs| - 1]) + Upstream(nodes, gs[|gs| - 1])
  }

  /** A set of nodes that holds the inputs of each of its members. */
  ghost predicate Closed(nodes: seq<Node>, s: set<nat>) {
    forall k :: k in s ==> k < |nodes| && forall j :: 0 <= j < |Inputs(nodes[k])| ==> Inputs(nodes[k])[j] in s
  }

  lemma {:induction false} UpstreamBelow(nodes: seq<Node>, n: nat)
    requires WellFormed(nodes) && n < |nodes|
    ensures n in Upstream(nodes, n)
    ensures forall k :: k in Upstream(nodes, n) ==> k <= n
    decreases n
  {
    var ins := Inputs(nodes[n]);
    assert forall j :: 0 <= j < |ins| ==> ins[j] < n;
    if |ins| > 0 { UpstreamBelow(nodes, ins[0]); }
    if |ins| > 1 { UpstreamBelow(nodes, ins[1]); }
  }

  /** `Upstream(n)` holds the inputs of its members... */
  lemma {:induction false} UpstreamClosed(nodes: seq<Node>, n: nat)
    requires WellFormed(nodes) && n < |nodes|
    ensures Closed(nodes, Upstream(nodes, n))
    decreases n
  {
    var ins := Inputs(nodes[n]);
    assert forall j :: 0 <= j < |ins| ==> ins[j] < n;
    UpstreamBelow(nodes, n);
    if |ins| > 0 { UpstreamClosed(nodes, ins[0]); UpstreamBelow(nodes, ins[0]); }
    if |ins| > 1 { UpstreamClosed(nodes, ins[1]); UpstreamBelow(nodes, ins[1]); }
  }

  /** ...and is the least such set containing `n`. */
  lemma {:induction false} ClosedHoldsUpstream(nodes: seq<Node>, s: set<nat>, n: nat)
    requires WellFormed(nodes) && n < |nodes| && Closed(nodes, s) && n in s
    ensures Upstream(nodes, n) <= s
    decreases n
  {
    var ins := Inputs(nodes[n]);
    assert forall j :: 0 <= j < |ins| ==> ins[j] < n;
    if |ins| > 0 { ClosedHoldsUpstream(nodes, s, ins[0]); }
    if |ins| > 1 { ClosedHoldsUpstream(nodes, s, ins[1]); }
  }

  /** The upstream set of an input lies inside the upstream set of its reader. */
  lemma InputUpstream(nodes: seq<Node>, n: nat, j: nat)
    requires WellFormed(nodes) && n < |nodes| && j < |Inputs(nodes[n])|
    ensures Inputs(nodes[n])[j] < n
    ensures Upstream(nodes, Inputs(nodes[n])[j]) <= Upstream(nodes, n)
  {
  }

  lemma {:induction false} UpstreamAllBelow(nodes: seq<Node>, gs: seq<nat>, bound: nat)
    requires WellFormed(nodes) && bound <= |nodes| && forall k :: 0 <= k < |gs| ==> gs[k] < bound
    ensures forall k :: k in UpstreamAll(nodes, gs) ==> k < bound
  {
    if gs != [] {
      UpstreamAllBelow(nodes, gs[..|gs| - 1], bound);
      UpstreamBelow(nodes, gs[|gs| - 1]);
    }
  }

  lemma {:induction false} UpstreamAllClosed(nodes: seq<Node>, gs: seq<nat>)
    requires WellFormed(nodes) && forall k :: 0 <= k < |gs| ==> gs[k] < |nodes|
    ensures Closed(nodes, UpstreamAll(nodes, gs))
  {
    if gs != [] {
      UpstreamAllClosed(nodes, gs[..|gs| - 1]);
      UpstreamClosed(nodes, gs[|gs| - 1]);
    }
  }

  // --------------------------------------------------------------------
  // What a node computes
  // --------------------------------------------------------------------

  /** `kwargs[self.name]`: a missing name is an error. */
  function ReadIterMe(kwargs: map<string, seq<Row>>, name: string): (r: Result<seq<Row>>)
    ensures r.Ok? <==> name in kwargs
    ensures r.Ok? ==> r.value == kwargs[name]
  {
    if name in kwargs then Ok(kwargs[name]) else Err(MissingInput(name))
  }

  /** A one-input node applied to its input. */
  function Apply(node: Node, x: seq<Row>): Result<seq<Row>>
    requires |Inputs(node)| == 1
  {
    match node
    case MapNode(m, _) => MapMe(m, x)
    case SortNode(keys, _) => SortMe(keys, x)
    case ReduceNode(red, keys, _) => ReduceMe(red, keys, x)
    case AggregateNode(agg, keys, _) => Aggregated(agg, keys, x)
    case SaveNode(_, _) => Ok([])
  }

  /** The output of node `n` for the inputs `kwargs` of a run: the node's
      operation applied to the outputs of its inputs, first input first. */
  ghost function Eval(nodes: seq<Node>, kwargs: map<string, seq<Row>>, n: nat): Result<seq<Row>>
    requires WellFormed(nodes) && n < |nodes|
    decreases n
  {
    var ins := Inputs(nodes[n]);
    assert forall j :: 0 <= j < |ins| ==> ins[j] < n;
    match nodes[n]
    case ReadIter(name) => ReadIterMe(kwargs, name)
    case JoinNode(joiner, keys, a, b) =>
      assert a == ins[0] && b == ins[1];
      var x :- Eval(nodes, kwargs, a);
      var y :- Eval(nodes, kwargs, b);
      Join.Joined(joiner, keys, x, y)
    case _ =>
      var x :- Eval(nodes, kwargs, ins[0]);
      Apply(nodes[n], x)
  }

  /** A failure anywhere upstream makes the node fail. */
  lemma {:induction false} UpstreamFailure(nodes: seq<Node>, kwargs: map<string, seq<Row>>, n: nat, k: nat)
    requires WellFormed(nodes) && k <= n < |nodes| && k in Upstream(nodes, n)
    requires Eval(nodes, kwargs, k).Err?
    ensures Eval(nodes, kwargs, n).Err?
    decreases n
  {
    var ins := Inputs(nodes[n]);
    assert forall j :: 0 <= j < |ins| ==> ins[j] < n;
    if k != n {
      if |ins| > 0 && k in Upstream(nodes, ins[0]) {
        UpstreamBelow(nodes, ins[0]);
        UpstreamFailure(nodes, kwargs, ins[0], k);
      } else {
        UpstreamBelow(nodes, ins[1]);
        UpstreamFailure(nodes, kwargs, ins[1], k);
      }
    }
  }
}
