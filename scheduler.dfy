/** `dfs_run` and `get_path`: the nodes a run visits.  The walk keeps an
    explicit stack; a node is emitted when none of its inputs is still
    unvisited.  The emitted order is not topological in general (an input
    already on the stack counts as visited), which is harmless because a
    node's run computes any input whose output is still missing. */
module Scheduler {
  import opened Graph

  ghost predicate Distinct(s: seq<nat>) {
    forall i, j :: 0 <= i < j < |s| ==> s[i] != s[j]
  }

  ghost function Elems(s: seq<nat>): set<nat> {
    set k | k in s
  }

  lemma ElemsAppend(a: seq<nat>, b: seq<nat>)
    ensures Elems(a + b) == Elems(a) + Elems(b)
  {
    assert forall k :: k in a + b <==> k in a || k in b;
  }

  lemma DistinctAppend(a: seq<nat>, b: seq<nat>)
    requires Distinct(a) && Distinct(b) && Elems(a) !! Elems(b)
    ensures Distinct(a + b) && Elems(a + b) == Elems(a) + Elems(b)
  {
    ElemsAppend(a, b);
    forall i, j | 0 <= i < j < |a + b| ensures (a + b)[i] != (a + b)[j] {
      if j >= |a| && i < |a| {
        assert (a + b)[i] in Elems(a) && (a + b)[j] == b[j - |a|] && b[j - |a|] in Elems(b);
      }
    }
  }

  lemma DistinctDropLast(q: seq<nat>)
    requires q != [] && Distinct(q)
    ensures Distinct(q[..|q| - 1])
    ensures Elems(q[..|q| - 1]) == Elems(q) - {q[|q| - 1]}
  {
    assert q == q[..|q| - 1] + [q[|q| - 1]];
    ElemsAppend(q[..|q| - 1], [q[|q| - 1]]);
  }

  /** The inputs of every node of `s` lie in `t`. */
  ghost predicate InputsWithin(nodes: seq<Node>, s: set<nat>, t: set<nat>) {
    forall k :: k in s ==> k < |nodes| && forall j :: 0 <= j < |Inputs(nodes[k])| ==> Inputs(nodes[k])[j] in t
  }

  lemma InputsWithinGrow(nodes: seq<Node>, s: set<nat>, t: set<nat>, x: nat, t': set<nat>)
    requires InputsWithin(nodes, s, t) && t <= t'
    requires x < |nodes| && forall j :: 0 <= j < |Inputs(nodes[x])| ==> Inputs(nodes[x])[j] in t'
    ensures InputsWithin(nodes, s + {x}, t')
  {
  }

  lemma InputsWithinWiden(nodes: seq<Node>, s: set<nat>, t: set<nat>, t': set<nat>)
    requires InputsWithin(nodes, s, t) && t <= t'
    ensures InputsWithin(nodes, s, t')
  {
  }

  lemma ClosedUnion(nodes: seq<Node>, s: set<nat>, p: set<nat>)
    requires Closed(nodes, s) && InputsWithin(nodes, p, s + p)
    ensures Closed(nodes, s + p)
  {
  }

  /** Push the inputs of `top` that are not yet visited, in order. */
  method PushInputs(nodes: seq<Node>, top: nat, q: seq<nat>, visited: set<nat>)
    returns (q': seq<nat>, visited': set<nat>, pushed: bool, ghost added: seq<nat>)
    requires top < |nodes|
    ensures q' == q + added && visited' == visited + Elems(added)
    ensures Distinct(added) && Elems(added) !! visited
    ensures forall k :: k in added ==> k in Inputs(nodes[top])
    ensures pushed <==> added != []
    ensures forall j :: 0 <= j < |Inputs(nodes[top])| ==> Inputs(nodes[top])[j] in visited'
  {
    var ins := Inputs(nodes[top]);
    q', visited', pushed, added := q, visited, false, [];
    var j := 0;
    while j < |ins|
      invariant 0 <= j <= |ins|
      invariant q' == q + added && visited' == visited + Elems(added)
      invariant Distinct(added) && Elems(added) !! visited
      invariant forall k :: k in added ==> k in ins
      invariant pushed <==> added != []
      invariant forall j' :: 0 <= j' < j ==> ins[j'] in visited'
    {
      if ins[j] !in visited' {
        DistinctAppend(added, [ins[j]]);
        q' := q' + [ins[j]];
        visited' := visited' + {ins[j]};
        added := added + [ins[j]];
        pushed := true;
      }
      j := j + 1;
    }
  }

  /** What the walk keeps: the stack `q` and the emitted `path` are
      disjoint, duplicate-free, new and upstream of `start`; `start` sits at
      the bottom of the stack until it is emitted last; the visited set is
      the old one plus both; every emitted node has its inputs visited. */
  ghost predicate DfsInv(nodes: seq<Node>, start: nat, visited: set<nat>, up: set<nat>,
                         q: seq<nat>, path: seq<nat>, visited': set<nat>) {
    Distinct(q) && Distinct(path) &&
    Elems(q) !! Elems(path) && Elems(q) !! visited && Elems(path) !! visited &&
    visited' == visited + Elems(q) + Elems(path) &&
    Elems(q) + Elems(path) <= up &&
    (q != [] ==> q[0] == start) &&
    (q == [] ==> path != [] && path[|path| - 1] == start) &&
    InputsWithin(nodes, Elems(path), visited')
  }

  lemma PushStep(nodes: seq<Node>, start: nat, visited: set<nat>, up: set<nat>,
                 q: seq<nat>, path: seq<nat>, visited': set<nat>, added: seq<nat>)
    requires DfsInv(nodes, start, visited, up, q, path, visited')
    requires q != [] && Distinct(added) && Elems(added) !! visited' && Elems(added) <= up
    ensures DfsInv(nodes, start, visited, up, q + added, path, visited' + Elems(added))
  {
    DistinctAppend(q, added);
    InputsWithinWiden(nodes, Elems(path), visited', visited' + Elems(added));
  }

  lemma PopStep(nodes: seq<Node>, start: nat, visited: set<nat>, up: set<nat>,
                q: seq<nat>, path: seq<nat>, visited': set<nat>, top: nat)
    requires DfsInv(nodes, start, visited, up, q, path, visited')
    requires q != [] && top == q[|q| - 1] && top < |nodes|
    requires forall j :: 0 <= j < |Inputs(nodes[top])| ==> Inputs(nodes[top])[j] in visited'
    ensures DfsInv(nodes, start, visited, up, q[..|q| - 1], path + [top], visited')
  {
    assert top in Elems(q);
    DistinctAppend(path, [top]);
    DistinctDropLast(q);
    InputsWithinGrow(nodes, Elems(path), visited', top, visited');
  }

  /** `dfs_run(start, visited)`: from a node not yet visited, over a visited
      set that holds the inputs of its members, emit each upstream node that
      was not visited, exactly once, ending with `start`. */
  method DfsRun(nodes: seq<Node>, start: nat, visited: set<nat>) returns (path: seq<nat>, visited': set<nat>)
    requires WellFormed(nodes) && start < |nodes| && start !in visited && Closed(nodes, visited)
    ensures Distinct(path) && Elems(path) == Upstream(nodes, start) - visited
    ensures visited' == visited + Elems(path) && Closed(nodes, visited')
    ensures path != [] && path[|path| - 1] == start
  {
    ghost var up := Upstream(nodes, start);
    ghost var all := visited + up;
    UpstreamClosed(nodes, start);
    UpstreamBelow(nodes, start);
    var q := [start];
    visited' := visited + {start};
    path := [];
    assert Elems(q) == {start} && Elems(path) == {};
    while q != []
      invariant DfsInv(nodes, start, visited, up, q, path, visited')
      decreases all - visited', |q|
    {
      var top := q[|q| - 1];
      assert top in Elems(q);
      var q1, v1, pushed, added := PushInputs(nodes, top, q, visited');
      if pushed {
        assert Elems(added) <= up;
        assert added[0] in Elems(added);
        PushStep(nodes, start, visited, up, q, path, visited', added);
        assert v1 <= all && added[0] in v1 - visited';
        q, visited' := q1, v1;
      } else {
        PopStep(nodes, start, visited, up, q, path, visited', top);
        path := path + [top];
        q := q[..|q| - 1];
      }
    }
    DfsDone(nodes, start, visited, up, path, visited');
  }

  /** When the stack is empty the walk has emitted exactly the new part of
      `Upstream(start)`. */
  lemma DfsDone(nodes: seq<Node>, start: nat, visited: set<nat>, up: set<nat>,
                path: seq<nat>, visited': set<nat>)
    requires WellFormed(nodes) && start < |nodes| && Closed(nodes, visited)
    requires up == Upstream(nodes, start) && DfsInv(nodes, start, visited, up, [], path, visited')
    ensures Elems(path) == up - visited && visited' == visited + Elems(path) && Closed(nodes, visited')
  {
    var empty: seq<nat> := [];
    assert Elems(empty) == {};
    ClosedUnion(nodes, visited, Elems(path));
    assert start in Elems(path);
    ClosedHoldsUpstream(nodes, visited', start);
  }

  lemma UpstreamAllStep(nodes: seq<Node>, graphs: seq<nat>, i: nat)
    requires WellFormed(nodes) && i < |graphs| && forall k :: 0 <= k < |graphs| ==> graphs[k] < |nodes|
    ensures UpstreamAll(nodes, graphs[..i + 1]) == UpstreamAll(nodes, graphs[..i]) + Upstream(nodes, graphs[i])
  {
    assert graphs[..i + 1][..i] == graphs[..i];
  }

  lemma UnionDifference(a: set<nat>, b: set<nat>)
    ensures a + (b - a) == a + b
  {
  }

  /** One iteration of `get_path`: walk from `g` unless it was already visited. */
  method VisitGraph(nodes: seq<Node>, g: nat, visited: set<nat>, path: seq<nat>)
    returns (visited': set<nat>, path': seq<nat>)
    requires WellFormed(nodes) && g < |nodes| && Closed(nodes, visited)
    requires Distinct(path) && visited == Elems(path)
    ensures Distinct(path') && visited' == Elems(path') && Closed(nodes, visited')
    ensures visited' == visited + Upstream(nodes, g)
    ensures g !in visited ==> path' != [] && path'[|path'| - 1] == g
    ensures g in visited ==> path' == path
  {
    if g !in visited {
      var p, v := DfsRun(nodes, g, visited);
      DistinctAppend(path, p);
      UnionDifference(visited, Upstream(nodes, g));
      path', visited' := path + p, v;
    } else {
      ClosedHoldsUpstream(nodes, visited, g);
      assert visited + Upstream(nodes, g) == visited;
      path', visited' := path, visited;
    }
  }

  /** After `i` graphs: the path lists the nodes upstream of them once
      each, `visited` is its set of members, and when graph `i - 1` was new
      the path ends with it. */
  ghost predicate PathSoFar(nodes: seq<Node>, graphs: seq<nat>, i: nat, path: seq<nat>, visited: set<nat>)
    requires WellFormed(nodes) && forall k :: 0 <= k < |graphs| ==> graphs[k] < |nodes|
  {
    i <= |graphs| &&
    Distinct(path) && visited == Elems(path) && visited == UpstreamAll(nodes, graphs[..i]) &&
    Closed(nodes, visited) &&
    (path == [] <==> i == 0) &&
    (i > 0 && graphs[i - 1] !in UpstreamAll(nodes, graphs[..i - 1]) ==> path != [] && path[|path| - 1] == graphs[i - 1])
  }

  /** One iteration of the `get_path` loop. */
  method GetPathStep(nodes: seq<Node>, graphs: seq<nat>, i: nat, path: seq<nat>, visited: set<nat>)
    returns (path': seq<nat>, visited': set<nat>)
    requires WellFormed(nodes) && forall k :: 0 <= k < |graphs| ==> graphs[k] < |nodes|
    requires i < |graphs| && PathSoFar(nodes, graphs, i, path, visited)
    ensures PathSoFar(nodes, graphs, i + 1, path', visited')
  {
    UpstreamAllStep(nodes, graphs, i);
    assert graphs[..i + 1][..i] == graphs[..i];
    visited', path' := VisitGraph(nodes, graphs[i], visited, path);
  }

  /** `get_path()`: one walk per graph not yet visited.  The path lists every
      node upstream of some graph exactly once; it ends with the last graph
      whenever no earlier graph reads from it. */
  method GetPath(nodes: seq<Node>, graphs: seq<nat>) returns (path: seq<nat>)
    requires WellFormed(nodes) && forall k :: 0 <= k < |graphs| ==> graphs[k] < |nodes|
    ensures Distinct(path) && Elems(path) == UpstreamAll(nodes, graphs)
    ensures path == [] <==> graphs == []
    ensures graphs != [] && graphs[|graphs| - 1] !in UpstreamAll(nodes, graphs[..|graphs| - 1]) ==>
      path[|path| - 1] == graphs[|graphs| - 1]
  {
    var visited: set<nat> := {};
    path := [];
    var i := 0;
    assert Elems(path) == {} && graphs[..0] == [];
    while i < |graphs|
      invariant PathSoFar(nodes, graphs, i, path, visited)
      decreases |graphs| - i
    {
      path, visited := GetPathStep(nodes, graphs, i, path, visited);
      i := i + 1;
    }
    assert graphs[..i] == graphs;
  }
}
