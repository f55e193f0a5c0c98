/** Tarjan's search over the blocking graph, with the shared maps and stack the source's recursive
    closure updates. */
module CycleFinder {
  import opened Ordering
  import opened BlockingGraph
  import opened CycleSearch

  type Adjacency = map<TaskId, seq<TaskId>>

  /** The adjacency lists and the self-edge flags describe exactly the edges E. */
  ghost predicate Represents(adj: Adjacency, selfEdge: map<TaskId, bool>, E: Edges) {
    && (forall x, y :: (x, y) in E <==> x in adj && y in adj[x])
    && (forall e | e in E :: e.1 in adj)
    && (forall x :: (x, x) in E <==> x in selfEdge && selfEdge[x])
  }

  /** Every done task on a cycle, and no other task, has its component recorded. */
  ghost predicate Recorded(E: Edges, done: set<TaskId>, result: map<TaskId, seq<TaskId>>) {
    && (forall x :: x in result <==> x in done && OnCycle(E, x))
    && (forall x | x in result :: IsComponentOf(E, x, result[x]))
  }

  /** Some stacked task numbered `low` is reachable from v. */
  ghost predicate LowReached(E: Edges, index: Numbering, stack: seq<TaskId>, v: TaskId, low: nat)
    requires forall y | y in stack :: y in index
  {
    exists y :: y in stack && index[y] == low && Reach(E, v, y)
  }

  /** No edge from position b upwards leads below b to a number under `low`. */
  ghost predicate LowBounds(E: Edges, index: Numbering, stack: seq<TaskId>, b: nat, low: nat)
    requires b <= |stack| && forall y | y in stack :: y in index
  {
    forall e | e in E && e.0 in stack[b..] && e.1 in stack[..b] :: low <= index[e.1]
  }

  type ScanLog = multiset<(TaskId, nat)>

  /** The log of scanned slots has grown from log0 by exactly one scan of every slot of every
      task numbered since index0, and by nothing else. */
  ghost predicate ScannedSince(adj: Adjacency, index0: Numbering, log0: ScanLog, index: Numbering, log: ScanLog) {
    forall x, i: nat :: log[(x, i)] ==
                   if x in index0 then log0[(x, i)]
                   else if x in index && x in adj && i < |adj[x]| then 1
                   else 0
  }

  /** The same while the call for v has scanned only its first i slots. */
  ghost predicate ScannedDuring(adj: Adjacency, index0: Numbering, log0: ScanLog, index: Numbering, log: ScanLog, v: TaskId, i: nat) {
    forall x, j: nat :: log[(x, j)] ==
                   if x == v then (if j < i then 1 else 0)
                   else if x in index0 then log0[(x, j)]
                   else if x in index && x in adj && j < |adj[x]| then 1
                   else 0
  }

  /** v's slot i was scanned, and then every slot of every task numbered since. */
  ghost predicate ScannedSlot(adj: Adjacency, index1: Numbering, log1: ScanLog, index: Numbering, log: ScanLog, v: TaskId, i: nat) {
    ScannedSince(adj, index1, log1 + multiset{(v, i)}, index, log)
  }

  lemma ScannedNothing(adj: Adjacency, index0: Numbering, log0: ScanLog, index: Numbering, v: TaskId)
    requires v !in index0 && forall x :: x in index <==> x in index0 || x == v
    requires forall x, i: nat | x !in index0 :: log0[(x, i)] == 0
    ensures ScannedDuring(adj, index0, log0, index, log0, v, 0)
  {
    forall x, j: nat ensures log0[(x, j)] ==
                   if x == v then (if j < 0 then 1 else 0)
                   else if x in index0 then log0[(x, j)]
                   else if x in index && x in adj && j < |adj[x]| then 1
                   else 0
    {
    }
  }

  lemma ScannedAll(adj: Adjacency, index0: Numbering, log0: ScanLog, index: Numbering, log: ScanLog, v: TaskId)
    requires v in index && v in adj && v !in index0
    requires ScannedDuring(adj, index0, log0, index, log, v, |adj[v]|)
    ensures ScannedSince(adj, index0, log0, index, log)
  {}

  lemma ScannedNext(adj: Adjacency, index0: Numbering, log0: ScanLog, index1: Numbering, log1: ScanLog,
                    index: Numbering, log: ScanLog, v: TaskId, i: nat)
    requires v !in index0 && v in index1
    requires forall x | x in index0 :: x in index1
    requires forall x | x in index1 :: x in index
    requires ScannedDuring(adj, index0, log0, index1, log1, v, i)
    requires ScannedSlot(adj, index1, log1, index, log, v, i)
    ensures ScannedDuring(adj, index0, log0, index, log, v, i + 1)
  {
    forall x, j: nat ensures log[(x, j)] ==
                   if x == v then (if j < i + 1 then 1 else 0)
                   else if x in index0 then log0[(x, j)]
                   else if x in index && x in adj && j < |adj[x]| then 1
                   else 0
    {
      assert (log1 + multiset{(v, i)})[(x, j)] == log1[(x, j)] + (if x == v && j == i then 1 else 0);
    }
  }

  /** Old numbers and low values are kept. */
  ghost predicate Kept(index0: Numbering, low0: Numbering, index: Numbering, low: Numbering) {
    && (forall x | x in index0 :: x in index && index[x] == index0[x])
    && (forall x | x in low0 :: x in low && low[x] == low0[x])
  }

  /** v's call has scanned the first i slots: `low` is reached from v, and bounds every edge from the
      scanned slots, and from what was stacked above v, down into the stack as v found it. */
  ghost predicate Scanning(E: Edges, adj: Adjacency, v: TaskId, i: nat, base: seq<TaskId>,
                           index: Numbering, stack: seq<TaskId>, low: nat) {
    && (forall y | y in stack :: y in index)
    && v in adj && i <= |adj[v]| && v in index && low <= index[v]
    && base + [v] <= stack
    && LowReached(E, index, stack, v, low)
    && (forall j | 0 <= j < i :: adj[v][j] in index && (adj[v][j] in base ==> low <= index[adj[v][j]]))
    && (forall e | e in E && e.0 in stack[|base| + 1..] && e.1 in base :: e.1 in index && low <= index[e.1])
  }

  /** A call for w that found the stack `stack0` left these behind. */
  ghost predicate Visited(E: Edges, w: TaskId, index0: Numbering, stack0: seq<TaskId>,
                          index: Numbering, stack: seq<TaskId>, low: nat) {
    && (forall y | y in stack0 :: y in index)
    && (forall y | y in stack :: y in index)
    && w in index
    && stack0 <= stack
    && (forall x | x in stack[|stack0|..] :: x !in index0)
    && LowBounds(E, index, stack, |stack0|, low)
    && ((stack == stack0 && low == index[w]) || (low < index[w] && LowReached(E, index, stack0, w, low)))
  }

  lemma StartScanning(E: Edges, adj: Adjacency, v: TaskId, base: seq<TaskId>, index: Numbering)
    requires v in adj && v in index && forall y | y in base :: y in index
    ensures Scanning(E, adj, v, 0, base, index, base + [v], index[v])
  {
    ReachSelf(E, v);
    assert v in base + [v];
  }

  /** The slot held a task already numbered. */
  lemma ScanSeen(E: Edges, adj: Adjacency, v: TaskId, i: nat, base: seq<TaskId>,
                 index: Numbering, stack: seq<TaskId>, low: nat)
    requires Scanning(E, adj, v, i, base, index, stack, low) && i < |adj[v]|
    requires adj[v][i] in index && (v, adj[v][i]) in E
    ensures var w := adj[v][i];
            Scanning(E, adj, v, i + 1, base, index, stack, if w in stack && index[w] < low then index[w] else low)
  {
    var w := adj[v][i];
    ReachEdge(E, v, w);
    assert forall y | y in base :: y in stack by { assert stack[..|base|] == base; }
  }

  /** The slot held a new task w, and the call for w has returned. */
  lemma ScanVisited(E: Edges, adj: Adjacency, v: TaskId, i: nat, base: seq<TaskId>,
                    index0: Numbering, stack0: seq<TaskId>, low0: nat,
                    index: Numbering, stack: seq<TaskId>, low: nat)
    requires Scanning(E, adj, v, i, base, index0, stack0, low0) && i < |adj[v]|
    requires adj[v][i] !in index0 && (v, adj[v][i]) in E
    requires forall x | x in index0 :: x in index && index[x] == index0[x]
    requires Visited(E, adj[v][i], index0, stack0, index, stack, low)
    requires index[adj[v][i]] > index0[v]
    ensures Scanning(E, adj, v, i + 1, base, index, stack, if low < low0 then low else low0)
  {
    hide Reach;
    var w, low' := adj[v][i], if low < low0 then low else low0;
    assert stack0 == stack[..|stack0|];
    assert LowReached(E, index, stack, v, low') by {
      if low < low0 {
        var y :| y in stack0 && index[y] == low && Reach(E, w, y);
        ReachEdge(E, v, w);
        ReachTransitive(E, v, w, y);
      } else {
        var y :| y in stack0 && index0[y] == low0 && Reach(E, v, y);
        assert index[y] == low0 && y in stack;
      }
    }
    hide LowReached;
    assert base == stack0[..|base|];
    assert w !in base;
    assert forall j | 0 <= j < i + 1 :: adj[v][j] in index && (adj[v][j] in base ==> low' <= index[adj[v][j]]);
    forall e | e in E && e.0 in stack[|base| + 1..] && e.1 in base ensures e.1 in index && low' <= index[e.1] {
      assert e.1 in stack0 by { assert base == stack0[..|base|]; }
      if e.0 in stack[|stack0|..] {
      } else {
        assert stack[|base| + 1..] == stack0[|base| + 1..] + stack[|stack0|..];
        assert e.0 in stack0[|base| + 1..];
      }
    }
  }

  /** With every slot scanned and nothing lower found, the stack from v up is closed. */
  lemma ScannedRoot(E: Edges, adj: Adjacency, v: TaskId, base: seq<TaskId>, index: Numbering, stack: seq<TaskId>,
                    done: set<TaskId>, active: set<TaskId>)
    requires Invariant(E, index, stack, done, active + {v})
    requires v in adj && v in index && Scanning(E, adj, v, |adj[v]|, base, index, stack, index[v])
    requires forall x | x in active :: x in base
    requires forall y :: (v, y) in E <==> y in adj[v]
    ensures Closed(E, index, stack, active + {v}, v, |base|)
  {
    hide Reach;
    var k := |base|;
    assert stack[k] == v && stack[..k] == base && stack[k..] == [v] + stack[k + 1..];
    forall x | x in active + {v} && x in stack[k..] ensures x == v { SplitAt(index, stack, k, x); }
    forall e | e in E && e.0 in stack[k..] ensures e.1 in index && e.1 !in base {
      SplitAt(index, stack, k, e.0);
      SplitAt(index, stack, k, e.1);
      if e.0 == v {
        assert e == (v, e.1) && e.1 in adj[v];
      } else {
        assert e.0 in stack[k + 1..] && e.0 !in active + {v};
      }
    }
  }

  /** With something lower found, what v's call leaves behind. */
  lemma ScannedOpen(E: Edges, adj: Adjacency, v: TaskId, base: seq<TaskId>, index: Numbering, stack: seq<TaskId>, low: nat) returns (below: TaskId)
    requires Ordered(index, stack)
    requires v in adj && v in index && Scanning(E, adj, v, |adj[v]|, base, index, stack, low) && low < index[v]
    requires forall y :: (v, y) in E <==> y in adj[v]
    ensures forall y | y in base :: y in index
    ensures LowReached(E, index, base, v, low)
    ensures LowBounds(E, index, stack, |base|, low)
    ensures below in stack && index[below] < index[v] && Reach(E, v, below)
  {
    hide Reach;
    var k := |base|;
    assert stack[k] == v && stack[..k] == base && stack[k..] == [v] + stack[k + 1..];
    var y :| y in stack && index[y] == low && Reach(E, v, y);
    SplitAt(index, stack, k, y);
    assert y in base;
    below := y;
    forall e | e in E && e.0 in stack[k..] && e.1 in stack[..k] ensures low <= index[e.1] {
      if e.0 == v { assert e == (v, e.1) && e.1 in adj[v]; }
    }
  }

  lemma KeptTransitive(index0: Numbering, low0: Numbering, index1: Numbering, low1: Numbering,
                       index: Numbering, low: Numbering, v: TaskId)
    requires Kept(index0, low0, index1, low1) && Kept(index1, low1 - {v}, index, low) && v !in low0
    ensures Kept(index0, low0, index, low)
    ensures forall x | x in index0 :: x in index1
    ensures forall x | x in index1 :: x in index
  {}

  class Finder {
    const adj: Adjacency
    const selfEdge: map<TaskId, bool>
    ghost const E: Edges

    var index: map<TaskId, nat>
    var low: map<TaskId, nat>
    var on: map<TaskId, bool>
    var stack: seq<TaskId>
    var next: nat
    var result: map<TaskId, seq<TaskId>>

    ghost var done: set<TaskId>
    ghost var scanned: ScanLog

    ghost predicate Bookkeeping()
      reads this
    {
      && Represents(adj, selfEdge, E)
      && (forall x :: (x in on && on[x]) <==> x in stack)
      && (forall x | x in index :: 1 <= index[x] <= next && x in adj)
      && low.Keys == index.Keys
      && (forall x, i: nat | x !in index :: scanned[(x, i)] == 0)
    }

    ghost predicate Valid(active: set<TaskId>)
      reads this
    {
      && Bookkeeping()
      && Invariant(E, index, stack, done, active)
      && Recorded(E, done, result)
    }

    constructor (adj: Adjacency, selfEdge: map<TaskId, bool>, ghost E: Edges)
      requires Represents(adj, selfEdge, E)
      ensures Valid({}) && this.adj == adj && this.E == E
      ensures index == map[] && stack == [] && scanned == multiset{}
    {
      this.adj, this.selfEdge, this.E := adj, selfEdge, E;
      index, low, on, stack, next, result := map[], map[], map[], [], 0, map[];
      done, scanned := {}, multiset{};
    }

    lemma ActiveIsNumbered(E: Edges, index: Numbering, stack: seq<TaskId>, done: set<TaskId>, active: set<TaskId>)
      requires Invariant(E, index, stack, done, active)
      ensures Ordered(index, stack)
      ensures forall x | x in active :: x in stack
      ensures forall x | x in stack :: x in index
    {
      hide Reach, LeadsToActive;
    }

    /** Number v, push it and mark it as on the stack. */
    method Push(v: TaskId, ghost active: set<TaskId>)
      requires Valid(active) && v in adj && v !in index
      requires forall x | x in active :: Reach(E, x, v)
      modifies this`index, this`low, this`stack, this`on, this`next
      ensures Valid(active + {v})
      ensures index == old(index)[v := next] && low == old(low)[v := next]
      ensures stack == old(stack) + [v] && next == old(next) + 1
    {
      hide Reach, Recorded, Invariant, Represents;
      assert v !in index && index.Keys == low.Keys;
      Enter(E, index, stack, done, active, v, next + 1);
      next := next + 1;
      index := index[v := next];
      low := low[v := next];
      stack := stack + [v];
      on := on[v := true];
    }

    /** The root of a component pops it, finishes it and records it. */
    method Finish(v: TaskId, ghost base: seq<TaskId>, ghost active: set<TaskId>)
      requires Valid(active + {v}) && v !in active
      requires Closed(E, index, stack, active + {v}, v, |base|) && base <= stack
      modifies this`stack, this`on, this`result, this`done
      ensures Valid(active) && stack == base
    {
      hide Reach, Recorded, Invariant, Closed;
      ghost var top := stack[|base|..];
      TopIsComponent(E, index, stack, done, active + {v}, v, |base|);
      PopTop(E, index, stack, done, active + {v}, v, |base|);
      TopIsStacked(E, index, stack, done, active + {v}, v, |base|);
      var component := Pop(v, |base|);
      Record(v, component, done);
      done := done + Members(top);
      assert Members(top) == Members(component);
      assert active + {v} - {v} == active;
    }

    lemma TopIsStacked(E: Edges, index: Numbering, stack: seq<TaskId>, done: set<TaskId>, active: set<TaskId>, v: TaskId, k: nat)
      requires Invariant(E, index, stack, done, active) && Closed(E, index, stack, active, v, k)
      ensures k < |stack| && stack[k] == v && v in stack[k..] && NoRepeats(stack)
      ensures forall x | x in stack[k..] :: x !in done
    {
      hide Reach, Connected, Explored;
      forall i, j | 0 <= i < j < |stack| ensures stack[i] != stack[j] { OrderedPositions(index, stack, i, j); }
      assert stack[k..][0] == v;
      assert stack == stack[..k] + stack[k..];
    }

    /** One step of the scan of v's list: visit the slot's task if it is new, and lower v's low value. */
    method ScanSlot(v: TaskId, i: nat, ghost base: seq<TaskId>, ghost active: set<TaskId>)
      requires Valid(active) && v in adj && i < |adj[v]| && v in index
      requires forall x | x in active :: Reach(E, x, v)
      requires Scanning(E, adj, v, i, base, index, stack, low[v])
      modifies this
      decreases adj.Keys - index.Keys, 1
      ensures Valid(active)
      ensures Kept(old(index), old(low) - {v}, index, low) && v in low && v in index && index[v] == old(index)[v]
      ensures Scanning(E, adj, v, i + 1, base, index, stack, low[v])
      ensures ScannedSlot(adj, old(index), old(scanned), index, scanned, v, i)
    {
      hide Reach, LowReached, LowBounds, Recorded, Invariant, Scanning;
      var w := adj[v][i];
      assert (v, w) in E;
      scanned := scanned + multiset{(v, i)};
      ghost var index1, stack1, low1 := index, stack, low[v];
      if w !in index {
        forall x | x in active ensures Reach(E, x, w) {
          ReachEdge(E, v, w);
          ReachTransitive(E, x, v, w);
        }
        Visit(w, active);
        ScanVisited(E, adj, v, i, base, index1, stack1, low1, index, stack, low[w]);
        if low[w] < low[v] {
          low := low[v := low[w]];
        }
      } else {
        ScanSeen(E, adj, v, i, base, index, stack, low[v]);
        if (w in on && on[w]) && index[w] < low[v] {
          low := low[v := index[w]];
        }
      }
    }

    /** One recursive call: number v, scan its list, and pop its component when v is its root. */
    method Visit(v: TaskId, ghost active: set<TaskId>)
      requires Valid(active) && v in adj && v !in index
      requires forall x | x in active :: Reach(E, x, v)
      modifies this
      decreases adj.Keys - index.Keys, 0
      ensures Valid(active)
      ensures Kept(old(index), old(low), index, low)
      ensures v in index && index[v] > old(next)
      ensures Visited(E, v, old(index), old(stack), index, stack, low[v])
      ensures ScannedSince(adj, old(index), old(scanned), index, scanned)
    {
      hide Reach, LowReached, LowBounds, Recorded, Invariant, Scanning, ScannedDuring, ScannedSlot, ScannedSince, Represents;
      ghost var index0, low0, base, log0, n := index, low, stack, scanned, next + 1;
      ActiveIsNumbered(E, index, stack, done, active);
      Push(v, active);
      StartScanning(E, adj, v, base, index);
      ReachSelf(E, v);
      ScannedNothing(adj, index0, log0, index, v);
      assert Kept(index0, low0, index, low) && v !in low0;
      assert forall x | x in index0 :: index0[x] < n;
      hide Bookkeeping, Kept;
      ScanList(v, base, index0, low0, log0, active);
      Leave(v, base, index0, low0, active);
    }

    /** The loop over v's list. */
    method ScanList(v: TaskId, ghost base: seq<TaskId>, ghost index0: Numbering, ghost low0: Numbering, ghost log0: ScanLog,
                    ghost active: set<TaskId>)
      requires Valid(active + {v}) && v in adj && v in index && v in low && v !in index0 && v !in low0
      requires forall x | x in active + {v} :: Reach(E, x, v)
      requires Kept(index0, low0, index, low)
      requires Scanning(E, adj, v, 0, base, index, stack, low[v])
      requires ScannedDuring(adj, index0, log0, index, scanned, v, 0)
      modifies this
      decreases adj.Keys - index.Keys, 2
      ensures Valid(active + {v}) && v in index && v in low && index[v] == old(index)[v]
      ensures Kept(index0, low0, index, low)
      ensures Scanning(E, adj, v, |adj[v]|, base, index, stack, low[v])
      ensures ScannedSince(adj, index0, log0, index, scanned)
    {
      hide Reach, LowReached, LowBounds, Recorded, Invariant, Scanning, ScannedDuring, ScannedSlot, ScannedSince, Represents, Kept,
        Bookkeeping;
      ghost var start, n := index, index[v];
      for i := 0 to |adj[v]|
        invariant Valid(active + {v})
        invariant Kept(index0, low0, index, low) && start.Keys <= index.Keys
        invariant v in index && v in low && index[v] == n
        invariant Scanning(E, adj, v, i, base, index, stack, low[v])
        invariant ScannedDuring(adj, index0, log0, index, scanned, v, i)
      {
        ghost var index1, low1, log1 := index, low, scanned;
        ScanSlot(v, i, base, active + {v});
        KeptTransitive(index0, low0, index1, low1, index, low, v);
        ScannedNext(adj, index0, log0, index1, log1, index, scanned, v, i);
      }
      ScannedAll(adj, index0, log0, index, scanned, v);
    }

    /** The end of the call for v. */
    method Leave(v: TaskId, ghost base: seq<TaskId>, ghost index0: Numbering, ghost low0: Numbering, ghost active: set<TaskId>)
      requires Valid(active + {v}) && v !in active && v in index && v in adj
      requires forall x | x in active :: x in base
      requires Kept(index0, low0, index, low) && forall x | x in index0 :: index0[x] < index[v]
      requires Scanning(E, adj, v, |adj[v]|, base, index, stack, low[v])
      modifies this`stack, this`on, this`result, this`done
      ensures Valid(active)
      ensures Visited(E, v, index0, base, index, stack, low[v])
    {
      hide Reach, LowReached, Recorded, Invariant;
      ActiveIsNumbered(E, index, stack, done, active + {v});
      assert forall y :: (v, y) in E <==> y in adj[v];
      if low[v] == index[v] {
        ScannedRoot(E, adj, v, base, index, stack, done, active);
        Finish(v, base, active);
        assert stack[|base|..] == [];
      } else {
        ghost var below := ScannedOpen(E, adj, v, base, index, stack, low[v]);
        LeaveOpen(E, index, stack, done, active + {v}, v, below);
        assert active + {v} - {v} == active;
        forall x | x in stack[|base|..] ensures x !in index0 { SplitAt(index, stack, |base|, x); }
      }
    }

    /** The inner loop of a finishing call: pop down to and including v. */
    method Pop(v: TaskId, ghost k: nat) returns (component: seq<TaskId>)
      requires k < |stack| && stack[k] == v && NoRepeats(stack)
      requires forall x :: (x in on && on[x]) <==> x in stack
      modifies this`stack, this`on
      ensures stack == old(stack[..k])
      ensures forall x :: (x in on && on[x]) <==> x in stack
      ensures NoRepeats(component) && forall x :: x in component <==> x in old(stack[k..])
    {
      component := [];
      ghost var whole := stack;
      while true
        invariant k < |stack| <= |whole| && stack == whole[..|stack|]
        invariant |component| == |whole| - |stack|
        invariant forall i | 0 <= i < |component| :: component[i] == whole[|whole| - 1 - i]
        invariant forall x :: (x in on && on[x]) <==> x in stack
        decreases |stack|
      {
        var w := stack[|stack| - 1];
        ghost var was := stack;
        stack := stack[..|stack| - 1];
        assert was == stack + [w];
        assert w !in stack;
        on := on[w := false];
        component := component + [w];
        if w == v {
          break;
        }
      }
      forall x ensures x in component <==> x in whole[k..] {
        if i :| 0 <= i < |component| && component[i] == x {
          assert whole[k..][|whole| - 1 - i - k] == x;
        }
        if j :| 0 <= j < |whole| - k && whole[k..][j] == x {
          assert component[|whole| - 1 - (j + k)] == x;
        }
      }
    }

    /** Sort a finished component and record it under each member when it is a cycle. */
    method Record(v: TaskId, component: seq<TaskId>, ghost before: set<TaskId>)
      requires Represents(adj, selfEdge, E) && Recorded(E, before, result)
      requires NoRepeats(component) && v in component && v !in before
      requires forall x :: x in component <==> Mutual(E, v, x)
      requires forall x | x in component :: x !in before
      modifies this`result
      ensures Recorded(E, before + Members(component), result)
    {
      hide Reach, OnCycle, IsComponentOf;
      SingletonOrCycle(v, component);
      if |component| > 1 || (v in selfEdge && selfEdge[v]) {
        SortKeepsMembers(component);
        var sorted := Sort(component);
        forall x | x in component ensures OnCycle(E, x) && IsComponentOf(E, x, sorted) {
          ComponentShared(v, component, x);
        }
        ghost var was := result;
        StoreUnderEach(sorted);
        RecordedAfter(before, component, sorted, was, result);
      } else {
        assert component == [v];
      }
    }

    method StoreUnderEach(sorted: seq<TaskId>)
      modifies this`result
      ensures forall x :: x in result <==> x in old(result) || x in sorted
      ensures forall x | x in result :: result[x] == if x in sorted then sorted else old(result)[x]
    {
      for i := 0 to |sorted|
        invariant forall x :: x in result <==> x in old(result) || x in sorted[..i]
        invariant forall x | x in result :: result[x] == if x in sorted[..i] then sorted else old(result)[x]
      {
        assert sorted[..i + 1] == sorted[..i] + [sorted[i]];
        result := result[sorted[i] := sorted];
      }
      assert sorted[..|sorted|] == sorted;
    }

    lemma RecordedAfter(before: set<TaskId>, component: seq<TaskId>, sorted: seq<TaskId>,
                        was: map<TaskId, seq<TaskId>>, now: map<TaskId, seq<TaskId>>)
      requires Recorded(E, before, was)
      requires forall x | x in component :: x !in before && OnCycle(E, x) && IsComponentOf(E, x, sorted)
      requires forall x :: x in sorted <==> x in component
      requires forall x :: x in now <==> x in was || x in sorted
      requires forall x | x in now :: now[x] == if x in sorted then sorted else was[x]
      ensures Recorded(E, before + Members(component), now)
    {
      hide OnCycle, IsComponentOf;
    }

    lemma SingletonOrCycle(v: TaskId, component: seq<TaskId>)
      requires Represents(adj, selfEdge, E)
      requires NoRepeats(component) && v in component
      requires forall x :: x in component <==> Mutual(E, v, x)
      ensures (|component| > 1 || (v in selfEdge && selfEdge[v])) <==> OnCycle(E, v)
    {
      hide Reach;
      OnCycleIff(E, v);
      if |component| > 1 {
        var y := if component[0] == v then component[1] else component[0];
        assert y in component && y != v;
      } else {
        assert component == [v];
      }
    }

    /** What is recorded for v holds for every member of v's component. */
    lemma ComponentShared(v: TaskId, component: seq<TaskId>, x: TaskId)
      requires NoRepeats(component) && x in component && v in component
      requires forall y :: y in component <==> Mutual(E, v, y)
      requires OnCycle(E, v)
      ensures OnCycle(E, x) && IsComponentOf(E, x, Sort(component))
    {
      hide Reach;
      OnCycleIff(E, v);
      OnCycleIff(E, x);
      assert x != v ==> Mutual(E, x, v);
      SortIsStrict(component);
      SortKeepsMembers(component);
      hide Mutual, OnCycle;
      forall y ensures Mutual(E, v, y) <==> Mutual(E, x, y) { MutualIsEquivalence(E, v, x, y); }
    }
  }

  /** The dependents listed after x, in the order of the dependency list. */
  ghost function Dependents(deps: seq<TaskDependency>, x: TaskId): seq<TaskId> {
    if deps == [] then []
    else
      var last := deps[|deps| - 1];
      var init := Dependents(deps[..|deps| - 1], x);
      if last.kind == Blocks && last.dependsOn == x then init + [last.task] else init
  }

  /** Both ends of every edge. */
  ghost function Endpoints(E: Edges): set<TaskId> {
    (set e | e in E :: e.0) + (set e | e in E :: e.1)
  }

  /** Build the adjacency lists: one slot for each blocking dependency, a list for every endpoint. */
  method BuildAdjacency(deps: seq<TaskDependency>) returns (adj: Adjacency, selfEdge: map<TaskId, bool>)
    ensures Represents(adj, selfEdge, BlockingEdges(deps))
    ensures adj.Keys == Endpoints(BlockingEdges(deps))
    ensures forall x | x in adj :: adj[x] == Dependents(deps, x)
  {
    hide Endpoints, Represents, Dependents, BlockingEdges;
    adj, selfEdge := map[], map[];
    NothingBuilt();
    assert deps[..0] == [];
    for i := 0 to |deps|
      invariant adj.Keys == Endpoints(BlockingEdges(deps[..i]))
      invariant Represents(adj, selfEdge, BlockingEdges(deps[..i]))
      invariant forall x | x in adj :: adj[x] == Dependents(deps[..i], x)
      invariant forall x | x !in adj :: Dependents(deps[..i], x) == []
    {
      var d := deps[i];
      assert deps[..i + 1] == deps[..i] + [d];
      forall x ensures Dependents(deps[..i + 1], x)
                    == Dependents(deps[..i], x) + if d.kind == Blocks && d.dependsOn == x then [d.task] else []
      {
        AddedDependent(deps[..i], d, x);
      }
      ghost var adj0, self0 := adj, selfEdge;
      if d.kind == Blocks {
        adj := adj[d.dependsOn := (if d.dependsOn in adj then adj[d.dependsOn] else []) + [d.task]];
        if d.task !in adj {
          adj := adj[d.task := []];
        }
        if d.task == d.dependsOn {
          selfEdge := selfEdge[d.task := true];
        }
      }
      StillRepresents(deps[..i], d, adj0, self0, adj, selfEdge);
      AddedEndpoints(deps[..i], d);
      assert adj.Keys == adj0.Keys + if d.kind == Blocks then {d.dependsOn, d.task} else {};
    }
    assert deps[..|deps|] == deps;
  }

  lemma StillRepresents(deps: seq<TaskDependency>, d: TaskDependency, adj0: Adjacency, self0: map<TaskId, bool>,
                        adj: Adjacency, selfEdge: map<TaskId, bool>)
    requires Represents(adj0, self0, BlockingEdges(deps))
    requires d.kind != Blocks ==> adj == adj0 && selfEdge == self0
    requires d.kind == Blocks ==> adj.Keys == adj0.Keys + {d.dependsOn, d.task}
    requires d.kind == Blocks ==>
               adj[d.dependsOn] == (if d.dependsOn in adj0 then adj0[d.dependsOn] else []) + [d.task]
    requires d.kind == Blocks ==>
               forall x | x in adj && x != d.dependsOn :: adj[x] == if x in adj0 then adj0[x] else []
    requires d.kind == Blocks ==> selfEdge == if d.task == d.dependsOn then self0[d.task := true] else self0
    ensures Represents(adj, selfEdge, BlockingEdges(deps + [d]))
  {
    AddedEdge(deps, d);
    hide BlockingEdges;
    var E, E' := BlockingEdges(deps), BlockingEdges(deps + [d]);
    forall x, y ensures (x, y) in E' <==> x in adj && y in adj[x] {
      assert (x, y) in E' <==> (x, y) in E || (d.kind == Blocks && x == d.dependsOn && y == d.task);
    }
  }

  lemma NothingBuilt()
    ensures Represents(map[], map[], BlockingEdges([])) && Endpoints(BlockingEdges([])) == {}
    ensures forall x :: Dependents([], x) == []
  {}

  lemma AddedDependent(deps: seq<TaskDependency>, d: TaskDependency, x: TaskId)
    ensures Dependents(deps + [d], x) == Dependents(deps, x) + if d.kind == Blocks && d.dependsOn == x then [d.task] else []
  {
    assert (deps + [d])[..|deps|] == deps;
  }

  lemma AddedEndpoints(deps: seq<TaskDependency>, d: TaskDependency)
    ensures Endpoints(BlockingEdges(deps + [d]))
         == Endpoints(BlockingEdges(deps)) + if d.kind == Blocks then {d.dependsOn, d.task} else {}
  {
    AddedEdge(deps, d);
    hide BlockingEdges;
    var E, E' := BlockingEdges(deps), BlockingEdges(deps + [d]);
    if d.kind == Blocks {
      assert (d.dependsOn, d.task) in E';
      assert E' == E + {(d.dependsOn, d.task)};
    } else {
      assert E' == E;
    }
  }

  lemma AddedEdge(deps: seq<TaskDependency>, d: TaskDependency)
    ensures forall e :: e in BlockingEdges(deps + [d]) <==>
                        e in BlockingEdges(deps) || (d.kind == Blocks && e == (d.dependsOn, d.task))
  {
    forall e ensures e in BlockingEdges(deps + [d]) <==>
                     e in BlockingEdges(deps) || (d.kind == Blocks && e == (d.dependsOn, d.task))
    {
      assert forall c :: c in deps + [d] <==> c in deps || c == d;
    }
  }

  lemma NothingActive(E: Edges, index: Numbering, stack: seq<TaskId>, done: set<TaskId>)
    requires Invariant(E, index, stack, done, {})
    ensures stack == [] && forall x :: x in index <==> x in done
  {
    assert forall x | x in stack :: LeadsToActive(E, index, stack, {}, x);
    HasMember(stack);
  }

  lemma HasMember(stack: seq<TaskId>)
    ensures stack == [] || stack[0] in stack
  {}

  lemma ScannedTransitive(adj: Adjacency, index0: Numbering, log0: ScanLog, index1: Numbering, log1: ScanLog, index: Numbering, log: ScanLog)
    requires forall x | x in index0 :: x in index1
    requires forall x | x in index1 :: x in index
    requires ScannedSince(adj, index0, log0, index1, log1) && ScannedSince(adj, index1, log1, index, log)
    ensures ScannedSince(adj, index0, log0, index, log)
  {}

  /** With every task numbered and no call active, the record is the promised map. */
  lemma AllRecorded(deps: seq<TaskDependency>, adj: Adjacency, selfEdge: map<TaskId, bool>,
                    done: set<TaskId>, result: map<TaskId, seq<TaskId>>)
    requires Represents(adj, selfEdge, BlockingEdges(deps))
    requires forall x | x in adj :: x in done
    requires Recorded(BlockingEdges(deps), done, result)
    ensures IsCycleMap(BlockingEdges(deps), result)
  {
    hide Reach, IsComponentOf;
  }

  /** The whole computation. Whatever order the outer loop takes the tasks in, the result is the one cycle
      map of the blocking edges, and every slot of every list is scanned exactly once. */
  method GraphCycleComponents(deps: seq<TaskDependency>)
    returns (result: map<TaskId, seq<TaskId>>, ghost adj: Adjacency, ghost log: ScanLog)
    ensures IsCycleMap(BlockingEdges(deps), result)
    ensures forall x | x in adj :: adj[x] == Dependents(deps, x)
    ensures forall e | e in BlockingEdges(deps) :: e.0 in adj && e.1 in adj
    ensures forall x, i: nat :: log[(x, i)] == if x in adj && i < |adj[x]| then 1 else 0
  {
    hide Reach, Recorded, Invariant;
    var lists, selfEdge := BuildAdjacency(deps);
    adj := lists;
    var finder := new Finder(lists, selfEdge, BlockingEdges(deps));
    var rest := lists.Keys;
    while rest != {}
      invariant rest <= lists.Keys
      invariant finder.Valid({}) && finder.adj == lists && finder.E == BlockingEdges(deps)
      invariant forall x | x in lists :: x in rest || x in finder.index
      invariant ScannedSince(lists, map[], multiset{}, finder.index, finder.scanned)
      decreases rest
    {
      var v :| v in rest;
      rest := rest - {v};
      if v !in finder.index {
        ghost var index1, log1 := finder.index, finder.scanned;
        finder.Visit(v, {});
        ScannedTransitive(lists, map[], multiset{}, index1, log1, finder.index, finder.scanned);
      }
    }
    NothingActive(finder.E, finder.index, finder.stack, finder.done);
    AllRecorded(deps, lists, selfEdge, finder.done, finder.result);
    result, log := finder.result, finder.scanned;
  }

  /** The result depends only on which blocking edges there are: not on their order, their
      repetitions, or the other dependencies in the list. */
  lemma ResultIgnoresEdgeOrder(a: seq<TaskDependency>, b: seq<TaskDependency>,
                               ra: map<TaskId, seq<TaskId>>, rb: map<TaskId, seq<TaskId>>)
    requires forall x, y :: TaskDependency(x, y, Blocks) in a <==> TaskDependency(x, y, Blocks) in b
    requires IsCycleMap(BlockingEdges(a), ra) && IsCycleMap(BlockingEdges(b), rb)
    ensures ra == rb
  {
    forall e ensures e in BlockingEdges(a) <==> e in BlockingEdges(b) {
      assert e in BlockingEdges(a) <==> TaskDependency(e.1, e.0, Blocks) in a;
      assert e in BlockingEdges(b) <==> TaskDependency(e.1, e.0, Blocks) in b;
    }
    assert BlockingEdges(a) == BlockingEdges(b);
    CycleMapIsUnique(BlockingEdges(a), ra, rb);
  }
}
