/** The blocking graph of tasks, reachability in it, and what GraphCycleComponents has to compute. */
module BlockingGraph {
  import opened Ordering

  /** A task's UUID, as its canonical text: the source sorts components by that text. */
  type TaskId = string

  datatype DependencyKind = Blocks | RelatesTo | OtherKind(name: string)

  datatype TaskDependency = TaskDependency(task: TaskId, dependsOn: TaskId, kind: DependencyKind)

  /** Directed edges, prerequisite first. */
  type Edges = set<(TaskId, TaskId)>

  /** The edges that matter: only `blocks` dependencies, prerequisite -> dependent. */
  function BlockingEdges(deps: seq<TaskDependency>): Edges {
    set d | d in deps && d.kind == Blocks :: (d.dependsOn, d.task)
  }

  ghost predicate IsPath(E: Edges, p: seq<TaskId>) {
    p != [] && forall i | 0 <= i < |p| - 1 :: (p[i], p[i + 1]) in E
  }

  ghost predicate PathFromTo(E: Edges, p: seq<TaskId>, x: TaskId, y: TaskId) {
    IsPath(E, p) && p[0] == x && p[|p| - 1] == y
  }

  /** y is reachable from x by zero or more edges. */
  ghost predicate Reach(E: Edges, x: TaskId, y: TaskId) {
    exists p :: PathFromTo(E, p, x, y)
  }

  ghost predicate Mutual(E: Edges, x: TaskId, y: TaskId) {
    Reach(E, x, y) && Reach(E, y, x)
  }

  /** x lies on a directed cycle: some edge leaves x and a path leads back. */
  ghost predicate OnCycle(E: Edges, x: TaskId) {
    exists y :: (x, y) in E && Reach(E, y, x)
  }

  /** The result the source promises: exactly the tasks on a cycle, each with the sorted
      list of its whole strongly connected component. */
  ghost predicate IsCycleMap(E: Edges, result: map<TaskId, seq<TaskId>>) {
    && (forall x :: x in result <==> OnCycle(E, x))
    && (forall x | x in result :: IsComponentOf(E, x, result[x]))
  }

  ghost predicate IsComponentOf(E: Edges, x: TaskId, component: seq<TaskId>) {
    StrictlySorted(component) && forall y :: y in component <==> Mutual(E, x, y)
  }

  /** There is only one such map, so it depends on the set of blocking edges and on nothing else. */
  lemma CycleMapIsUnique(E: Edges, a: map<TaskId, seq<TaskId>>, b: map<TaskId, seq<TaskId>>)
    requires IsCycleMap(E, a) && IsCycleMap(E, b)
    ensures a == b
  {
    forall x | x in a ensures x in b && a[x] == b[x] {
      assert OnCycle(E, x);
      assert IsComponentOf(E, x, a[x]) && IsComponentOf(E, x, b[x]);
      StrictlySortedIsUnique(a[x], b[x]);
    }
    forall x | x in b ensures x in a { assert OnCycle(E, x); }
  }

  lemma ReachSelf(E: Edges, x: TaskId)
    ensures Reach(E, x, x)
  {
    assert PathFromTo(E, [x], x, x);
  }

  lemma ReachEdge(E: Edges, x: TaskId, y: TaskId)
    requires (x, y) in E
    ensures Reach(E, x, y)
  {
    assert PathFromTo(E, [x, y], x, y);
  }

  lemma ReachTransitive(E: Edges, x: TaskId, y: TaskId, z: TaskId)
    requires Reach(E, x, y) && Reach(E, y, z)
    ensures Reach(E, x, z)
  {
    var p :| PathFromTo(E, p, x, y);
    var q :| PathFromTo(E, q, y, z);
    var r := p + q[1..];
    forall i | 0 <= i < |r| - 1 ensures (r[i], r[i + 1]) in E {
      if i < |p| - 1 {
      } else {
        assert r[i] == q[i - (|p| - 1)] && r[i + 1] == q[i - (|p| - 1) + 1];
      }
    }
    assert PathFromTo(E, r, x, z);
  }

  /** A path that starts inside S and ends outside leaves S by some edge. */
  lemma {:induction false} PathLeaves(E: Edges, p: seq<TaskId>, S: set<TaskId>) returns (a: TaskId, b: TaskId)
    requires IsPath(E, p) && p[0] in S && p[|p| - 1] !in S
    ensures a in S && b !in S && (a, b) in E
    ensures Reach(E, p[0], a) && Reach(E, b, p[|p| - 1])
  {
    if p[1] !in S {
      a, b := p[0], p[1];
      ReachSelf(E, a);
      assert PathFromTo(E, p[1..], b, p[|p| - 1]);
    } else {
      a, b := PathLeaves(E, p[1..], S);
      ReachEdge(E, p[0], p[1]);
      ReachTransitive(E, p[0], p[1], a);
    }
  }

  lemma ReachLeaves(E: Edges, x: TaskId, y: TaskId, S: set<TaskId>) returns (a: TaskId, b: TaskId)
    requires Reach(E, x, y) && x in S && y !in S
    ensures a in S && b !in S && (a, b) in E
    ensures Reach(E, x, a) && Reach(E, b, y)
  {
    var p :| PathFromTo(E, p, x, y);
    a, b := PathLeaves(E, p, S);
  }

  /** A task is on a cycle exactly when it has a self edge or a different task in its component. */
  lemma OnCycleIff(E: Edges, x: TaskId)
    ensures OnCycle(E, x) <==> (x, x) in E || exists y :: y != x && Mutual(E, x, y)
  {
    if OnCycle(E, x) {
      var y :| (x, y) in E && Reach(E, y, x);
      ReachEdge(E, x, y);
      assert y != x ==> Mutual(E, x, y);
    }
    if (x, x) in E {
      ReachSelf(E, x);
    } else if exists y :: y != x && Mutual(E, x, y) {
      var y :| y != x && Mutual(E, x, y);
      var a, b := ReachLeaves(E, x, y, {x});
      ReachTransitive(E, b, y, x);
    }
  }

  /** Mutual reachability is reflexive, symmetric and transitive: components partition the tasks. */
  lemma MutualIsEquivalence(E: Edges, x: TaskId, y: TaskId, z: TaskId)
    ensures Mutual(E, x, x)
    ensures Mutual(E, x, y) <==> Mutual(E, y, x)
    ensures Mutual(E, x, y) ==> (Mutual(E, y, z) <==> Mutual(E, x, z))
  {
    hide Reach;
    ReachSelf(E, x);
    if Mutual(E, x, y) && Mutual(E, y, z) {
      ReachTransitive(E, x, y, z);
      ReachTransitive(E, z, y, x);
    }
    if Mutual(E, x, y) && Mutual(E, x, z) {
      ReachTransitive(E, y, x, z);
      ReachTransitive(E, z, x, y);
    }
  }

  // ----- told of the dependencies themselves -----

  /** Some blocks dependency makes b wait for a. */
  predicate WaitsFor(deps: seq<TaskDependency>, b: TaskId, a: TaskId) {
    exists d | d in deps :: d.kind.Blocks? && d.task == b && d.dependsOn == a
  }

  /** A list of tasks from x to y, each waiting for the one before it. */
  ghost predicate Chain(deps: seq<TaskDependency>, w: seq<TaskId>, x: TaskId, y: TaskId) {
    && |w| > 0 && w[0] == x && w[|w| - 1] == y
    && forall i, j | 0 <= i < |w| && j == i + 1 < |w| :: WaitsFor(deps, w[j], w[i])
  }

  lemma ChainsArePaths(deps: seq<TaskDependency>, w: seq<TaskId>, x: TaskId, y: TaskId)
    ensures Chain(deps, w, x, y) <==> PathFromTo(BlockingEdges(deps), w, x, y)
  {
    forall a, b ensures WaitsFor(deps, b, a) <==> (a, b) in BlockingEdges(deps) {
      if d :| d in deps && d.kind.Blocks? && d.task == b && d.dependsOn == a { assert d.kind == Blocks; }
    }
    hide WaitsFor, BlockingEdges;
  }

  lemma ReachInChains(deps: seq<TaskDependency>, x: TaskId, y: TaskId)
    ensures Reach(BlockingEdges(deps), x, y) <==> exists w :: Chain(deps, w, x, y)
  {
    forall w ensures Chain(deps, w, x, y) <==> PathFromTo(BlockingEdges(deps), w, x, y) { ChainsArePaths(deps, w, x, y); }
    hide Chain, PathFromTo, BlockingEdges;
  }

  /** The keys of the result are the tasks a chain of two or more leads back to, and a task is listed with another when
      chains lead from each to the other, in strictly increasing order. */
  lemma CyclesInChains(deps: seq<TaskDependency>, result: map<TaskId, seq<TaskId>>, x: TaskId)
    requires IsCycleMap(BlockingEdges(deps), result)
    ensures x in result <==> exists w :: |w| > 1 && Chain(deps, w, x, x)
    ensures x in result ==> StrictlySorted(result[x])
    ensures x in result ==>
              forall y :: y in result[x] <==> (exists w :: Chain(deps, w, x, y)) && exists w :: Chain(deps, w, y, x)
  {
    var E := BlockingEdges(deps);
    forall a, b ensures Reach(E, a, b) <==> exists w :: Chain(deps, w, a, b) { ReachInChains(deps, a, b); }
    if OnCycle(E, x) {
      var y :| (x, y) in E && Reach(E, y, x);
      var p :| PathFromTo(E, p, y, x);
      assert PathFromTo(E, [x] + p, x, x);
      ChainsArePaths(deps, [x] + p, x, x);
    }
    if w :| |w| > 1 && Chain(deps, w, x, x) {
      ChainsArePaths(deps, w, x, x);
      assert PathFromTo(E, w[1..], w[1], x);
      assert OnCycle(E, x);
    }
    if x in result { assert IsComponentOf(E, x, result[x]); }
    hide Chain, Reach, BlockingEdges;
  }
}
