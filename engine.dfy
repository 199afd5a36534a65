/** The executing engine.  An `Arena` holds every parametrised node ever
    built, the output cached on each (`ParametrizedGraph.output`) and the
    sinks that save nodes append to.  A `FireMR` is a builder: a list of
    node handles into the arena, each builder call yielding a new `FireMR`. */
module Engine {
  import opened Values
  import opened Nodes
  import opened Graph
  import Join
  import Scheduler

  /** Every save node names an existing sink. */
  ghost predicate SinksExist(nodes: seq<Node>, sinkCount: nat) {
    forall k :: 0 <= k < |nodes| && nodes[k].SaveNode? ==> nodes[k].sink < sinkCount
  }

  /** The cached outputs of the nodes in `s` are what those nodes compute. */
  ghost predicate Sound(nodes: seq<Node>, outputs: seq<Option<seq<Row>>>, kwargs: map<string, seq<Row>>, s: set<nat>) {
    WellFormed(nodes) && |outputs| == |nodes| &&
    forall k :: k in s && k < |nodes| && outputs[k].Some? ==> Eval(nodes, kwargs, k) == Ok(outputs[k].value)
  }

  /** The sinks the save nodes of `s` append to. */
  ghost function SinksOf(nodes: seq<Node>, s: set<nat>): set<nat> {
    set k | k in s && k < |nodes| && nodes[k].SaveNode? :: nodes[k].sink
  }

  /** `b` extends `a`, sink by sink. */
  ghost predicate Grown(a: seq<seq<Row>>, b: seq<seq<Row>>) {
    |a| == |b| && forall s :: 0 <= s < |a| ==> a[s] <= b[s]
  }

  /** `b` agrees with `a` outside the sinks in `touched`. */
  ghost predicate SinksFrame(a: seq<seq<Row>>, b: seq<seq<Row>>, touched: set<nat>) {
    |a| == |b| && forall s :: 0 <= s < |a| && s !in touched ==> a[s] == b[s]
  }

  /** `b` agrees with `a` outside the nodes in `touched`. */
  ghost predicate OutputsFrame(a: seq<Option<seq<Row>>>, b: seq<Option<seq<Row>>>, touched: set<nat>) {
    |a| == |b| && forall k :: 0 <= k < |a| && k !in touched ==> a[k] == b[k]
  }

  /** Every output cached in `a` is still cached in `b`. */
  ghost predicate Kept(a: seq<Option<seq<Row>>>, b: seq<Option<seq<Row>>>) {
    |a| == |b| && forall k :: 0 <= k < |a| && a[k].Some? ==> b[k].Some?
  }

  ghost predicate EndsWith(a: seq<Row>, b: seq<Row>) {
    |b| <= |a| && a[|a| - |b|..] == b
  }

  lemma SoundAfter(nodes: seq<Node>, o1: seq<Option<seq<Row>>>, o2: seq<Option<seq<Row>>>,
                   kwargs: map<string, seq<Row>>, s: set<nat>, t: set<nat>)
    requires Sound(nodes, o1, kwargs, s) && Sound(nodes, o2, kwargs, t) && OutputsFrame(o1, o2, t)
    ensures Sound(nodes, o2, kwargs, s + t)
  {
  }

  /** On a sound cache, every path node with an output computed it. */
  lemma SoundPath(nodes: seq<Node>, outputs: seq<Option<seq<Row>>>, kwargs: map<string, seq<Row>>,
                  all: set<nat>, path: seq<nat>)
    requires Sound(nodes, outputs, kwargs, all) && Closed(nodes, all)
    requires forall j :: 0 <= j < |path| ==> path[j] in all && outputs[path[j]].Some?
    ensures forall j :: 0 <= j < |path| ==> path[j] < |nodes| && Eval(nodes, kwargs, path[j]) == Ok(outputs[path[j]].value)
  {
  }

  /** What `run` returns for a path: an error for an empty path; otherwise
      the output of the last node when every node succeeds, and else the
      error of the first node of the path that fails. */
  ghost predicate PathOutcome(nodes: seq<Node>, kwargs: map<string, seq<Row>>, path: seq<nat>, r: Result<seq<Row>>)
    requires WellFormed(nodes) && forall j :: 0 <= j < |path| ==> path[j] < |nodes|
  {
    (path == [] ==> r == Err(EmptyGraph)) &&
    (path != [] ==> (r.Ok? <==> forall j :: 0 <= j < |path| ==> Eval(nodes, kwargs, path[j]).Ok?)) &&
    (path != [] && r.Ok? ==> r == Eval(nodes, kwargs, path[|path| - 1])) &&
    (path != [] && r.Err? ==>
       exists j :: 0 <= j < |path| && r == Eval(nodes, kwargs, path[j]) &&
         forall i :: 0 <= i < j ==> Eval(nodes, kwargs, path[i]).Ok?)
  }

  lemma OutcomeErr(nodes: seq<Node>, kwargs: map<string, seq<Row>>, path: seq<nat>, i: nat)
    requires WellFormed(nodes) && forall j :: 0 <= j < |path| ==> path[j] < |nodes|
    requires i < |path| && Eval(nodes, kwargs, path[i]).Err?
    requires forall j :: 0 <= j < i ==> Eval(nodes, kwargs, path[j]).Ok?
    ensures PathOutcome(nodes, kwargs, path, Eval(nodes, kwargs, path[i]))
  {
  }

  lemma OutcomeOk(nodes: seq<Node>, outputs: seq<Option<seq<Row>>>, kwargs: map<string, seq<Row>>,
                  all: set<nat>, path: seq<nat>)
    requires Sound(nodes, outputs, kwargs, all) && Closed(nodes, all) && path != []
    requires forall j :: 0 <= j < |path| ==> path[j] in all && outputs[path[j]].Some?
    ensures path[|path| - 1] < |nodes|
    ensures PathOutcome(nodes, kwargs, path, Ok(outputs[path[|path| - 1]].value))
  {
    SoundPath(nodes, outputs, kwargs, all, path);
  }

  /** The path nodes before step `i` hold sound outputs, so they succeed. */
  lemma PrefixOk(nodes: seq<Node>, outputs: seq<Option<seq<Row>>>, kwargs: map<string, seq<Row>>,
                 all: set<nat>, path: seq<nat>, i: nat)
    requires Sound(nodes, outputs, kwargs, all) && Closed(nodes, all) && i <= |path|
    requires forall j :: 0 <= j < |path| ==> path[j] in all
    requires forall j :: 0 <= j < i ==> outputs[path[j]].Some?
    ensures forall j :: 0 <= j < i ==> path[j] < |nodes| && Eval(nodes, kwargs, path[j]).Ok?
  {
    SoundPath(nodes, outputs, kwargs, all, path[..i]);
    forall j | 0 <= j < i ensures path[j] < |nodes| && Eval(nodes, kwargs, path[j]).Ok? {
      assert path[..i][j] == path[j];
    }
  }

  lemma SinksOfMono(nodes: seq<Node>, s: set<nat>, t: set<nat>)
    requires s <= t
    ensures SinksOf(nodes, s) <= SinksOf(nodes, t)
  {
  }

  class Arena {
    var nodes: seq<Node>
    var outputs: seq<Option<seq<Row>>>
    var sinks: seq<seq<Row>>

    ghost predicate Valid()
      reads this
    {
      WellFormed(nodes) && |outputs| == |nodes| && SinksExist(nodes, |sinks|)
    }

    constructor()
      ensures Valid() && nodes == [] && outputs == [] && sinks == []
    {
      nodes, outputs, sinks := [], [], [];
    }

    /** A buffer for save nodes, holding `initial` to begin with. */
    method NewSink(initial: seq<Row>) returns (s: nat)
      requires Valid()
      modifies this
      ensures Valid() && nodes == old(nodes) && outputs == old(outputs)
      ensures s == old(|sinks|) && sinks == old(sinks) + [initial]
    {
      s := |sinks|;
      sinks := sinks + [initial];
    }

    /** `ParametrizedGraph(params, graph)`: a new node without output. */
    method AddNode(node: Node) returns (n: nat)
      requires Valid()
      requires forall j :: 0 <= j < |Inputs(node)| ==> Inputs(node)[j] < |nodes|
      requires node.SaveNode? ==> node.sink < |sinks|
      modifies this
      ensures Valid() && n == old(|nodes|)
      ensures nodes == old(nodes) + [node] && outputs == old(outputs) + [None] && sinks == old(sinks)
    {
      n := |nodes|;
      nodes := nodes + [node];
      outputs := outputs + [None];
    }

    /** `SaveMe`: append the records to the sink one by one. */
    method SaveMe(s: nat, records: seq<Row>)
      requires s < |sinks|
      modifies this
      ensures nodes == old(nodes) && outputs == old(outputs)
      ensures sinks == old(sinks)[s := old(sinks[s]) + records]
    {
      var i := 0;
      while i < |records|
        invariant 0 <= i <= |records|
        invariant nodes == old(nodes) && outputs == old(outputs)
        invariant |sinks| == |old(sinks)| && sinks[s] == old(sinks[s]) + records[..i]
        invariant forall t :: 0 <= t < |sinks| && t != s ==> sinks[t] == old(sinks[t])
      {
        assert records[..i + 1] == records[..i] + [records[i]];
        sinks := sinks[s := sinks[s] + [records[i]]];
        i := i + 1;
      }
      assert records[..i] == records;
    }

    /** A one-input node other than save applied to its input. */
    method ApplyMe(node: Node, x: seq<Row>) returns (r: Result<seq<Row>>)
      requires |Inputs(node)| == 1 && !node.SaveNode?
      ensures r == Apply(node, x)
    {
      match node {
        case MapNode(m, _) => r := MapMe(m, x);
        case SortNode(keys, _) => r := SortMe(keys, x);
        case ReduceNode(red, keys, _) => r := ReduceMe(red, keys, x);
        case AggregateNode(agg, keys, _) => r := AggregateMe(agg, keys, x);
      }
    }

    /** `ParametrizedGraph.run`: a node whose cached output is non-empty
        returns it untouched; otherwise its inputs are run, first input
        first, and its own output is computed and cached.  An empty cached
        output counts as missing, so such a node is computed again. */
    method RunNode(kwargs: map<string, seq<Row>>, n: nat) returns (r: Result<seq<Row>>)
      requires Valid() && n < |nodes| && Sound(nodes, outputs, kwargs, Upstream(nodes, n))
      modifies this
      ensures Valid() && nodes == old(nodes)
      ensures r == Eval(nodes, kwargs, n)
      ensures Sound(nodes, outputs, kwargs, Upstream(nodes, n))
      ensures r.Ok? ==> outputs[n] == Some(r.value)
      ensures OutputsFrame(old(outputs), outputs, Upstream(nodes, n))
      ensures Kept(old(outputs), outputs)
      ensures Grown(old(sinks), sinks) && SinksFrame(old(sinks), sinks, SinksOf(nodes, Upstream(nodes, n)))
      ensures old(outputs[n]).Some? && old(outputs[n]).value != [] ==> outputs == old(outputs) && sinks == old(sinks)
      ensures nodes[n].SaveNode? && r.Ok? ==> EndsWith(sinks[nodes[n].sink], Eval(nodes, kwargs, nodes[n].records).value)
      decreases n, 3
    {
      UpstreamBelow(nodes, n);
      if outputs[n].Some? && outputs[n].value != [] {
        return Ok(outputs[n].value);
      }
      r := RunFresh(kwargs, n);
      if r.Ok? {
        outputs := outputs[n := Some(r.value)];
      }
    }

    /** A node computed afresh, by kind; its own cached output is untouched. */
    method RunFresh(kwargs: map<string, seq<Row>>, n: nat) returns (r: Result<seq<Row>>)
      requires Valid() && n < |nodes| && Sound(nodes, outputs, kwargs, Upstream(nodes, n))
      modifies this
      ensures Valid() && nodes == old(nodes)
      ensures r == Eval(nodes, kwargs, n)
      ensures Sound(nodes, outputs, kwargs, Upstream(nodes, n))
      ensures OutputsFrame(old(outputs), outputs, Upstream(nodes, n) - {n})
      ensures Kept(old(outputs), outputs)
      ensures Grown(old(sinks), sinks) && SinksFrame(old(sinks), sinks, SinksOf(nodes, Upstream(nodes, n)))
      ensures nodes[n].SaveNode? && r.Ok? ==> EndsWith(sinks[nodes[n].sink], Eval(nodes, kwargs, nodes[n].records).value)
      decreases n, 2
    {
      if nodes[n].ReadIter? {
        r := ReadIterMe(kwargs, nodes[n].name);
      } else if nodes[n].JoinNode? {
        r := RunJoin(kwargs, n);
      } else {
        r := RunOne(kwargs, n);
      }
    }

    /** The join case of `run`: both inputs, then the merge. */
    method RunJoin(kwargs: map<string, seq<Row>>, n: nat) returns (r: Result<seq<Row>>)
      requires Valid() && n < |nodes| && nodes[n].JoinNode? && Sound(nodes, outputs, kwargs, Upstream(nodes, n))
      modifies this
      ensures Valid() && nodes == old(nodes)
      ensures r == Eval(nodes, kwargs, n)
      ensures Sound(nodes, outputs, kwargs, Upstream(nodes, n))
      ensures OutputsFrame(old(outputs), outputs, Upstream(nodes, n) - {n})
      ensures Kept(old(outputs), outputs)
      ensures Grown(old(sinks), sinks) && SinksFrame(old(sinks), sinks, SinksOf(nodes, Upstream(nodes, n)))
      decreases n, 1
    {
      var node := nodes[n];
      var x := RunInput(kwargs, n, 0);
      if x.Err? { return x; }
      var y := RunInput(kwargs, n, 1);
      if y.Err? { return y; }
      r := Join.JoinMe(node.joiner, node.keys, x.value, y.value);
    }

    /** The one-input cases of `run`: the input, then the node's operation;
        a save node appends the input to its sink and outputs nothing. */
    method RunOne(kwargs: map<string, seq<Row>>, n: nat) returns (r: Result<seq<Row>>)
      requires Valid() && n < |nodes| && |Inputs(nodes[n])| == 1 && Sound(nodes, outputs, kwargs, Upstream(nodes, n))
      modifies this
      ensures Valid() && nodes == old(nodes)
      ensures r == Eval(nodes, kwargs, n)
      ensures Sound(nodes, outputs, kwargs, Upstream(nodes, n))
      ensures OutputsFrame(old(outputs), outputs, Upstream(nodes, n) - {n})
      ensures Kept(old(outputs), outputs)
      ensures Grown(old(sinks), sinks) && SinksFrame(old(sinks), sinks, SinksOf(nodes, Upstream(nodes, n)))
      ensures nodes[n].SaveNode? && r.Ok? ==> EndsWith(sinks[nodes[n].sink], Eval(nodes, kwargs, nodes[n].records).value)
      decreases n, 1
    {
      var node := nodes[n];
      var x := RunInput(kwargs, n, 0);
      if x.Err? { return x; }
      if node.SaveNode? {
        assert n in Upstream(nodes, n);
        SaveMe(node.sink, x.value);
        r := Ok([]);
      } else {
        r := ApplyMe(node, x.value);
      }
    }

    /** Input `j` of node `n` run on behalf of `n`: what changes lies
        upstream of `n`, and `n`'s own cached output is untouched. */
    method RunInput(kwargs: map<string, seq<Row>>, n: nat, j: nat) returns (x: Result<seq<Row>>)
      requires Valid() && n < |nodes| && j < |Inputs(nodes[n])| && Sound(nodes, outputs, kwargs, Upstream(nodes, n))
      modifies this
      ensures Valid() && nodes == old(nodes)
      ensures Inputs(nodes[n])[j] < n && x == Eval(nodes, kwargs, Inputs(nodes[n])[j])
      ensures Sound(nodes, outputs, kwargs, Upstream(nodes, n))
      ensures OutputsFrame(old(outputs), outputs, Upstream(nodes, n) - {n})
      ensures Kept(old(outputs), outputs)
      ensures Grown(old(sinks), sinks) && SinksFrame(old(sinks), sinks, SinksOf(nodes, Upstream(nodes, n)))
      decreases n, 0
    {
      ghost var up := Upstream(nodes, n);
      var i := Inputs(nodes[n])[j];
      InputUpstream(nodes, n, j);
      UpstreamBelow(nodes, i);
      SinksOfMono(nodes, Upstream(nodes, i), up);
      ghost var o0 := outputs;
      x := RunNode(kwargs, i);
      SoundAfter(nodes, o0, outputs, kwargs, up, Upstream(nodes, i));
    }

    /** `p.output = None` for every node on the path. */
    method Reset(path: seq<nat>)
      requires Valid() && forall j :: 0 <= j < |path| ==> path[j] < |nodes|
      modifies this
      ensures Valid() && nodes == old(nodes) && sinks == old(sinks) && |outputs| == |old(outputs)|
      ensures forall k :: 0 <= k < |outputs| ==> outputs[k] == if k in path then None else old(outputs[k])
    {
      var i := 0;
      while i < |path|
        invariant 0 <= i <= |path|
        invariant Valid() && nodes == old(nodes) && sinks == old(sinks) && |outputs| == |old(outputs)|
        invariant forall k :: 0 <= k < |outputs| ==> outputs[k] == if k in path[..i] then None else old(outputs[k])
      {
        assert path[..i + 1] == path[..i] + [path[i]];
        outputs := outputs[path[i] := None];
        i := i + 1;
      }
      assert path[..i] == path;
    }

    /** `for p in path: p.run(**kwargs)`, then the output of the last `p`;
        with an empty path there is no last node.  `all` is a closed set of
        nodes holding the path whose cached outputs are sound. */
    method RunPath(kwargs: map<string, seq<Row>>, path: seq<nat>, ghost all: set<nat>) returns (r: Result<seq<Row>>)
      requires Valid() && Closed(nodes, all) && Sound(nodes, outputs, kwargs, all)
      requires forall j :: 0 <= j < |path| ==> path[j] in all
      modifies this
      ensures Valid() && nodes == old(nodes) && Sound(nodes, outputs, kwargs, all)
      ensures forall j :: 0 <= j < |path| ==> path[j] < |nodes|
      ensures PathOutcome(nodes, kwargs, path, r)
      ensures Grown(old(sinks), sinks) && SinksFrame(old(sinks), sinks, SinksOf(nodes, all))
      ensures path != [] && r.Ok? && nodes[path[|path| - 1]].SaveNode? ==>
        EndsWith(sinks[nodes[path[|path| - 1]].sink], Eval(nodes, kwargs, nodes[path[|path| - 1]].records).value)
    {
      if path == [] {
        r := Err(EmptyGraph);
      } else {
        r := RunSteps(kwargs, path, all);
      }
    }

    /** The loop of `run` over a non-empty path. */
    method RunSteps(kwargs: map<string, seq<Row>>, path: seq<nat>, ghost all: set<nat>) returns (r: Result<seq<Row>>)
      requires PathInv(kwargs, path, all, 0, sinks) && path != []
      modifies this
      ensures nodes == old(nodes) && PathOutcome(nodes, kwargs, path, r)
      ensures Valid() && Sound(nodes, outputs, kwargs, all) && Grown(old(sinks), sinks) && SinksFrame(old(sinks), sinks, SinksOf(nodes, all))
      ensures r.Ok? ==> PathInv(kwargs, path, all, |path|, old(sinks))
    {
      var ns := nodes;
      var i := 0;
      while i < |path|
        invariant nodes == ns && PathInv(kwargs, path, all, i, old(sinks))
        decreases |path| - i
      {
        PrefixOk(ns, outputs, kwargs, all, path, i);
        r := RunPathStep(kwargs, path, all, i, old(sinks));
        if r.Err? {
          OutcomeErr(ns, kwargs, path, i);
          return;
        }
        i := i + 1;
      }
      OutcomeOk(ns, outputs, kwargs, all, path);
      r := Ok(outputs[path[i - 1]].value);
    }

    /** The state of the path loop after `i` steps: the cache is sound on
        `all`, the first `i` path nodes hold outputs, only the sinks of
        save nodes in `all` have grown, and a save node just run has its
        records at the end of its sink. */
    ghost predicate PathInv(kwargs: map<string, seq<Row>>, path: seq<nat>, all: set<nat>, i: nat, s0: seq<seq<Row>>)
      reads this
    {
      i <= |path| && Valid() && Closed(nodes, all) && Sound(nodes, outputs, kwargs, all) &&
      (forall j :: 0 <= j < |path| ==> path[j] in all) &&
      (forall j :: 0 <= j < i ==> outputs[path[j]].Some?) &&
      Grown(s0, sinks) && SinksFrame(s0, sinks, SinksOf(nodes, all)) &&
      (i > 0 && nodes[path[i - 1]].SaveNode? ==>
        EndsWith(sinks[nodes[path[i - 1]].sink], Eval(nodes, kwargs, nodes[path[i - 1]].records).value))
    }

    /** Step `i` of the path loop. */
    method RunPathStep(kwargs: map<string, seq<Row>>, path: seq<nat>, ghost all: set<nat>, i: nat, ghost s0: seq<seq<Row>>)
      returns (r: Result<seq<Row>>)
      requires PathInv(kwargs, path, all, i, s0) && i < |path|
      modifies this
      ensures nodes == old(nodes) && path[i] < |nodes| && r == Eval(nodes, kwargs, path[i])
      ensures r.Ok? ==> PathInv(kwargs, path, all, i + 1, s0)
      ensures r.Err? ==> Valid() && Sound(nodes, outputs, kwargs, all) && Grown(s0, sinks) && SinksFrame(s0, sinks, SinksOf(nodes, all))
    {
      ghost var o0 := outputs;
      r := RunStep(kwargs, path[i], all);
      if r.Ok? {
        forall j | 0 <= j < i + 1
          ensures outputs[path[j]].Some?
        {
          if j < i {
            assert path[j] in all;
            assert o0[path[j]].Some?;
          }
        }
      }
    }

    /** One `p.run(**kwargs)` of the path loop, inside the closed set `all`. */
    method RunStep(kwargs: map<string, seq<Row>>, n: nat, ghost all: set<nat>) returns (r: Result<seq<Row>>)
      requires Valid() && Closed(nodes, all) && Sound(nodes, outputs, kwargs, all) && n in all
      modifies this
      ensures Valid() && nodes == old(nodes) && Sound(nodes, outputs, kwargs, all)
      ensures Kept(old(outputs), outputs)
      ensures n < |nodes| && r == Eval(nodes, kwargs, n)
      ensures r.Ok? ==> outputs[n] == Some(r.value)
      ensures Grown(old(sinks), sinks) && SinksFrame(old(sinks), sinks, SinksOf(nodes, all))
      ensures nodes[n].SaveNode? && r.Ok? ==> EndsWith(sinks[nodes[n].sink], Eval(nodes, kwargs, nodes[n].records).value)
    {
      ClosedHoldsUpstream(nodes, all, n);
      SinksOfMono(nodes, Upstream(nodes, n), all);
      ghost var o0 := outputs;
      r := RunNode(kwargs, n);
      SoundAfter(nodes, o0, outputs, kwargs, all, Upstream(nodes, n));
      assert all + Upstream(nodes, n) == all;
    }
  }

  /** Handles in strictly increasing order, each naming an existing node. */
  ghost predicate Handles(graphs: seq<nat>, count: nat) {
    (forall k :: 0 <= k < |graphs| ==> graphs[k] < count) &&
    forall i, j :: 0 <= i < j < |graphs| ==> graphs[i] < graphs[j]
  }

  /** What `run` promises over the nodes upstream of a builder's graphs:
      an error for a builder without graphs; otherwise the output of its
      last graph when every upstream node succeeds, and else the error of a
      failing upstream node. */
  ghost predicate Outcome(nodes: seq<Node>, kwargs: map<string, seq<Row>>, graphs: seq<nat>, r: Result<seq<Row>>)
    requires WellFormed(nodes) && forall k :: 0 <= k < |graphs| ==> graphs[k] < |nodes|
  {
    var all := UpstreamAll(nodes, graphs);
    (graphs == [] ==> r == Err(EmptyGraph)) &&
    (graphs != [] ==> (r.Ok? <==> forall k :: k in all && k < |nodes| ==> Eval(nodes, kwargs, k).Ok?)) &&
    (graphs != [] && r.Ok? ==> r == Eval(nodes, kwargs, graphs[|graphs| - 1])) &&
    (graphs != [] && r.Err? ==> exists k :: k in all && k < |nodes| && r == Eval(nodes, kwargs, k))
  }

  /** The members of a path that lists `UpstreamAll` are nodes. */
  lemma PathWithin(nodes: seq<Node>, graphs: seq<nat>, path: seq<nat>)
    requires WellFormed(nodes) && Handles(graphs, |nodes|)
    requires Scheduler.Elems(path) == UpstreamAll(nodes, graphs)
    ensures Closed(nodes, UpstreamAll(nodes, graphs))
    ensures forall j :: 0 <= j < |path| ==> path[j] < |nodes| && path[j] in UpstreamAll(nodes, graphs)
  {
    UpstreamAllBelow(nodes, graphs, |nodes|);
    UpstreamAllClosed(nodes, graphs);
    assert forall j :: 0 <= j < |path| ==> path[j] in Scheduler.Elems(path);
  }

  /** A cache with no output on any node of `all` is sound on `all`. */
  lemma ResetSound(nodes: seq<Node>, outputs: seq<Option<seq<Row>>>, kwargs: map<string, seq<Row>>, all: set<nat>)
    requires WellFormed(nodes) && |outputs| == |nodes|
    requires forall k :: k in all && k < |outputs| ==> outputs[k] == None
    ensures Sound(nodes, outputs, kwargs, all)
  {
  }

  /** A path that lists `UpstreamAll` and ends with the last graph turns
      the outcome over the path into the outcome over the graphs. */
  lemma PathGivesOutcome(nodes: seq<Node>, kwargs: map<string, seq<Row>>, graphs: seq<nat>, path: seq<nat>, r: Result<seq<Row>>)
    requires WellFormed(nodes) && Handles(graphs, |nodes|)
    requires Scheduler.Elems(path) == UpstreamAll(nodes, graphs)
    requires path == [] <==> graphs == []
    requires graphs != [] ==> path[|path| - 1] == graphs[|graphs| - 1]
    requires forall j :: 0 <= j < |path| ==> path[j] < |nodes|
    requires PathOutcome(nodes, kwargs, path, r)
    ensures Outcome(nodes, kwargs, graphs, r)
  {
    assert forall k :: k in UpstreamAll(nodes, graphs) <==> k in path;
  }

  /** `path` lists every node upstream of `graphs` once, and ends with the
      last graph. */
  ghost predicate RunsPath(nodes: seq<Node>, graphs: seq<nat>, path: seq<nat>) {
    WellFormed(nodes) && Handles(graphs, |nodes|) &&
    Scheduler.Distinct(path) && Scheduler.Elems(path) == UpstreamAll(nodes, graphs) &&
    (path == [] <==> graphs == []) &&
    (graphs != [] ==> path[|path| - 1] == graphs[|graphs| - 1]) &&
    forall j :: 0 <= j < |path| ==> path[j] < |nodes|
  }

  /** A builder: the handles `graphs` of the nodes it has added to `arena`,
      its own nodes in the order they were added. */
  class FireMR {
    const arena: Arena
    var graphs: seq<nat>

    ghost predicate Valid()
      reads this, arena
    {
      arena.Valid() && Handles(graphs, |arena.nodes|)
    }

    /** `FireMR()`: a builder without graphs. */
    constructor(arena: Arena)
      requires arena.Valid()
      ensures Valid() && this.arena == arena && graphs == []
    {
      this.arena := arena;
      graphs := [];
    }

    /** `m.graphs = copy(self.graphs)` followed by the appended node. */
    method Extend(node: Node) returns (m: FireMR)
      requires Valid()
      requires forall j :: 0 <= j < |Inputs(node)| ==> Inputs(node)[j] < |arena.nodes|
      requires node.SaveNode? ==> node.sink < |arena.sinks|
      modifies arena
      ensures Valid() && fresh(m) && m.arena == arena && m.Valid()
      ensures m.graphs == graphs + [old(|arena.nodes|)]
      ensures arena.nodes == old(arena.nodes) + [node] && arena.outputs == old(arena.outputs) + [None]
      ensures arena.sinks == old(arena.sinks)
    {
      var n := arena.AddNode(node);
      m := new FireMR(arena);
      m.graphs := graphs + [n];
    }

    /** `read_from_iter(name)`: a node that reads `kwargs[name]` on a run. */
    method ReadFromIter(name: string) returns (m: FireMR)
      requires Valid()
      modifies arena
      ensures Valid() && fresh(m) && m.arena == arena && m.Valid()
      ensures m.graphs == graphs + [old(|arena.nodes|)]
      ensures arena.nodes == old(arena.nodes) + [ReadIter(name)] && arena.outputs == old(arena.outputs) + [None]
      ensures arena.sinks == old(arena.sinks)
    {
      m := Extend(ReadIter(name));
    }

    /** A builder step that reads the last graph: with no graph there is
        no `self.graphs[-1]`, and nothing is built. */
    method Chain(node: Node) returns (r: Result<FireMR>)
      requires Valid() && graphs != [] && Inputs(node) == [graphs[|graphs| - 1]]
      requires node.SaveNode? ==> node.sink < |arena.sinks|
      modifies arena
      ensures Valid() && r.Ok? && fresh(r.value) && r.value.arena == arena && r.value.Valid()
      ensures r.value.graphs == graphs + [old(|arena.nodes|)]
      ensures arena.nodes == old(arena.nodes) + [node] && arena.outputs == old(arena.outputs) + [None]
      ensures arena.sinks == old(arena.sinks)
    {
      var m := Extend(node);
      r := Ok(m);
    }

    /** `save(buffer)`: append the last graph's records to sink `sink`. */
    method Save(sink: nat) returns (r: Result<FireMR>)
      requires Valid() && sink < |arena.sinks|
      modifies arena
      ensures Valid()
      ensures graphs == [] ==> r == Err(EmptyGraph) && unchanged(arena)
      ensures graphs != [] ==> (
        r.Ok? && fresh(r.value) && r.value.arena == arena && r.value.Valid() &&
        r.value.graphs == graphs + [old(|arena.nodes|)] &&
        arena.nodes == old(arena.nodes) + [SaveNode(sink, graphs[|graphs| - 1])] &&
        arena.outputs == old(arena.outputs) + [None] && arena.sinks == old(arena.sinks))
    {
      if graphs == [] {
        return Err(EmptyGraph);
      }
      r := Chain(SaveNode(sink, graphs[|graphs| - 1]));
    }

    /** `write(stream)`: the same node as `save`, on an output stream. */
    method Write(sink: nat) returns (r: Result<FireMR>)
      requires Valid() && sink < |arena.sinks|
      modifies arena
      ensures Valid()
      ensures graphs == [] ==> r == Err(EmptyGraph) && unchanged(arena)
      ensures graphs != [] ==> (
        r.Ok? && fresh(r.value) && r.value.arena == arena && r.value.Valid() &&
        r.value.graphs == graphs + [old(|arena.nodes|)] &&
        arena.nodes == old(arena.nodes) + [SaveNode(sink, graphs[|graphs| - 1])] &&
        arena.outputs == old(arena.outputs) + [None] && arena.sinks == old(arena.sinks))
    {
      r := Save(sink);
    }

    /** `map(mapper)`. */
    method Map(mapper: Mapper) returns (r: Result<FireMR>)
      requires Valid()
      modifies arena
      ensures Valid()
      ensures graphs == [] ==> r == Err(EmptyGraph) && unchanged(arena)
      ensures graphs != [] ==> (
        r.Ok? && fresh(r.value) && r.value.arena == arena && r.value.Valid() &&
        r.value.graphs == graphs + [old(|arena.nodes|)] &&
        arena.nodes == old(arena.nodes) + [MapNode(mapper, graphs[|graphs| - 1])] &&
        arena.outputs == old(arena.outputs) + [None] && arena.sinks == old(arena.sinks))
    {
      if graphs == [] {
        return Err(EmptyGraph);
      }
      r := Chain(MapNode(mapper, graphs[|graphs| - 1]));
    }

    /** `sort(keys)`. */
    method Sort(keys: seq<string>) returns (r: Result<FireMR>)
      requires Valid()
      modifies arena
      ensures Valid()
      ensures graphs == [] ==> r == Err(EmptyGraph) && unchanged(arena)
      ensures graphs != [] ==> (
        r.Ok? && fresh(r.value) && r.value.arena == arena && r.value.Valid() &&
        r.value.graphs == graphs + [old(|arena.nodes|)] &&
        arena.nodes == old(arena.nodes) + [SortNode(keys, graphs[|graphs| - 1])] &&
        arena.outputs == old(arena.outputs) + [None] && arena.sinks == old(arena.sinks))
    {
      if graphs == [] {
        return Err(EmptyGraph);
      }
      r := Chain(SortNode(keys, graphs[|graphs| - 1]));
    }

    /** `aggregate(aggregator, keys)`. */
    method Aggregate(aggregator: Aggregator, keys: seq<string>) returns (r: Result<FireMR>)
      requires Valid()
      modifies arena
      ensures Valid()
      ensures graphs == [] ==> r == Err(EmptyGraph) && unchanged(arena)
      ensures graphs != [] ==> (
        r.Ok? && fresh(r.value) && r.value.arena == arena && r.value.Valid() &&
        r.value.graphs == graphs + [old(|arena.nodes|)] &&
        arena.nodes == old(arena.nodes) + [AggregateNode(aggregator, keys, graphs[|graphs| - 1])] &&
        arena.outputs == old(arena.outputs) + [None] && arena.sinks == old(arena.sinks))
    {
      if graphs == [] {
        return Err(EmptyGraph);
      }
      r := Chain(AggregateNode(aggregator, keys, graphs[|graphs| - 1]));
    }

    /** `reduce(reducer, keys)`. */
    method Reduce(reducer: Reducer, keys: seq<string>) returns (r: Result<FireMR>)
      requires Valid()
      modifies arena
      ensures Valid()
      ensures graphs == [] ==> r == Err(EmptyGraph) && unchanged(arena)
      ensures graphs != [] ==> (
        r.Ok? && fresh(r.value) && r.value.arena == arena && r.value.Valid() &&
        r.value.graphs == graphs + [old(|arena.nodes|)] &&
        arena.nodes == old(arena.nodes) + [ReduceNode(reducer, keys, graphs[|graphs| - 1])] &&
        arena.outputs == old(arena.outputs) + [None] && arena.sinks == old(arena.sinks))
    {
      if graphs == [] {
        return Err(EmptyGraph);
      }
      r := Chain(ReduceNode(reducer, keys, graphs[|graphs| - 1]));
    }

    /** `join(joiner, join_graph, keys)`: the joined builder holds this
        builder's graphs only; `other`'s last graph becomes the second input. */
    method Join(joiner: Join.Joiner, other: FireMR, keys: seq<string>) returns (r: Result<FireMR>)
      requires Valid() && other.Valid() && other.arena == arena
      modifies arena
      ensures Valid()
      ensures graphs == [] || other.graphs == [] ==> r == Err(EmptyGraph) && unchanged(arena)
      ensures graphs != [] && other.graphs != [] ==> (
        r.Ok? && fresh(r.value) && r.value.arena == arena && r.value.Valid() &&
        r.value.graphs == graphs + [old(|arena.nodes|)] &&
        arena.nodes == old(arena.nodes) + [JoinNode(joiner, keys, graphs[|graphs| - 1], other.graphs[|other.graphs| - 1])] &&
        arena.outputs == old(arena.outputs) + [None] && arena.sinks == old(arena.sinks))
    {
      if graphs == [] || other.graphs == [] {
        return Err(EmptyGraph);
      }
      var m := Extend(JoinNode(joiner, keys, graphs[|graphs| - 1], other.graphs[|other.graphs| - 1]));
      r := Ok(m);
    }

    /** `get_path()` over this builder's graphs: every node upstream of
        them exactly once, ending with the last graph. */
    method GetPath() returns (path: seq<nat>)
      requires Valid()
      ensures Scheduler.Distinct(path) && Scheduler.Elems(path) == UpstreamAll(arena.nodes, graphs)
      ensures Closed(arena.nodes, UpstreamAll(arena.nodes, graphs))
      ensures forall j :: 0 <= j < |path| ==> path[j] < |arena.nodes| && path[j] in UpstreamAll(arena.nodes, graphs)
      ensures path == [] <==> graphs == []
      ensures graphs != [] ==> path[|path| - 1] == graphs[|graphs| - 1]
    {
      path := Scheduler.GetPath(arena.nodes, graphs);
      PathWithin(arena.nodes, graphs, path);
      if graphs != [] {
        UpstreamAllBelow(arena.nodes, graphs[..|graphs| - 1], graphs[|graphs| - 1]);
      }
    }

    /** `run(**kwargs)`: forget the cached outputs of every node the path
        visits, run the path in order, and return the output of its last
        node, or the error of the first path node that fails.  Only the
        sinks of save nodes upstream of the graphs change, and only by
        growing; a builder ending in a save leaves its records at the end
        of that sink. */
    method Run(kwargs: map<string, seq<Row>>) returns (r: Result<seq<Row>>, ghost path: seq<nat>)
      requires Valid()
      modifies arena
      ensures Valid() && arena.nodes == old(arena.nodes)
      ensures Outcome(arena.nodes, kwargs, graphs, r)
      ensures RunsPath(arena.nodes, graphs, path) && PathOutcome(arena.nodes, kwargs, path, r)
      ensures Grown(old(arena.sinks), arena.sinks)
      ensures SinksFrame(old(arena.sinks), arena.sinks, SinksOf(arena.nodes, UpstreamAll(arena.nodes, graphs)))
      ensures graphs != [] && r.Ok? && arena.nodes[graphs[|graphs| - 1]].SaveNode? ==>
        var save := arena.nodes[graphs[|graphs| - 1]];
        EndsWith(arena.sinks[save.sink], Eval(arena.nodes, kwargs, save.records).value)
    {
      var p := GetPath();
      arena.Reset(p);
      assert forall k :: k in UpstreamAll(arena.nodes, graphs) ==> k in Scheduler.Elems(p);
      r, path := RunReset(kwargs);
    }

    /** The second half of `run`, once no node upstream of the graphs holds
        an output: walk the path again and run it. */
    method RunReset(kwargs: map<string, seq<Row>>) returns (r: Result<seq<Row>>, ghost path: seq<nat>)
      requires Valid()
      requires forall k :: k in UpstreamAll(arena.nodes, graphs) && k < |arena.outputs| ==> arena.outputs[k] == None
      modifies arena
      ensures Valid() && arena.nodes == old(arena.nodes)
      ensures Outcome(arena.nodes, kwargs, graphs, r)
      ensures RunsPath(arena.nodes, graphs, path) && PathOutcome(arena.nodes, kwargs, path, r)
      ensures Grown(old(arena.sinks), arena.sinks)
      ensures SinksFrame(old(arena.sinks), arena.sinks, SinksOf(arena.nodes, UpstreamAll(arena.nodes, graphs)))
      ensures graphs != [] && r.Ok? && arena.nodes[graphs[|graphs| - 1]].SaveNode? ==>
        var save := arena.nodes[graphs[|graphs| - 1]];
        EndsWith(arena.sinks[save.sink], Eval(arena.nodes, kwargs, save.records).value)
    {
      ghost var all := UpstreamAll(arena.nodes, graphs);
      ResetSound(arena.nodes, arena.outputs, kwargs, all);
      var p := GetPath();
      r := arena.RunPath(kwargs, p, all);
      PathGivesOutcome(arena.nodes, kwargs, graphs, p, r);
      path := p;
    }
  }
}
