/** What one depth-first search in Tarjan's algorithm keeps true between its steps, as facts
    about values: the numbering, the stack, the finished tasks, and the tasks whose call is
    still active ("active" below). */
module CycleSearch {
  import opened BlockingGraph

  type Numbering = map<TaskId, nat>

  /** The numbering grows along the stack, so the stack repeats nothing. */
  ghost predicate Ordered(index: Numbering, stack: seq<TaskId>) {
    && (forall x | x in stack :: x in index)
    && (forall i, j | 0 <= i < j < |stack| :: index[stack[i]] < index[stack[j]])
  }

  /** Numbered tasks are either on the stack or done, never both. */
  ghost predicate Partitioned(index: Numbering, stack: seq<TaskId>, done: set<TaskId>) {
    && (forall x :: x in index <==> x in stack || x in done)
    && (forall x | x in stack :: x !in done)
  }

  /** Done tasks only lead to done tasks; a finished call leaves no successor unnumbered. */
  ghost predicate Explored(E: Edges, index: Numbering, done: set<TaskId>, active: set<TaskId>) {
    && (forall e | e in E && e.0 in index && e.0 !in active :: e.1 in index)
    && (forall e | e in E && e.0 in done :: e.1 in done)
  }

  /** x leads back to an active task numbered no later than itself. */
  ghost predicate LeadsToActive(E: Edges, index: Numbering, stack: seq<TaskId>, active: set<TaskId>, x: TaskId)
    requires forall y | y in stack :: y in index
    requires x in index
  {
    exists y :: y in active && y in stack && index[y] <= index[x] && Reach(E, x, y)
  }

  ghost predicate Connected(E: Edges, index: Numbering, stack: seq<TaskId>, active: set<TaskId>)
    requires forall y | y in stack :: y in index
  {
    && (forall x | x in active :: x in stack)
    && (forall x {:trigger LeadsToActive(E, index, stack, active, x)} | x in stack :: LeadsToActive(E, index, stack, active, x))
    && (forall x, y | x in active && y in stack && index[x] <= index[y] :: Reach(E, x, y))
  }

  ghost predicate Invariant(E: Edges, index: Numbering, stack: seq<TaskId>, done: set<TaskId>, active: set<TaskId>) {
    && Ordered(index, stack)
    && Partitioned(index, stack, done)
    && Explored(E, index, done, active)
    && Connected(E, index, stack, active)
  }

  lemma OrderedPositions(index: Numbering, stack: seq<TaskId>, i: nat, j: nat)
    requires Ordered(index, stack) && i < |stack| && j < |stack|
    ensures index[stack[i]] <= index[stack[j]] ==> i <= j
    ensures stack[i] == stack[j] ==> i == j
  {}

  /** Entering v: number it next, push it, make it active. */
  lemma Enter(E: Edges, index: Numbering, stack: seq<TaskId>, done: set<TaskId>, active: set<TaskId>, v: TaskId, n: nat)
    requires Invariant(E, index, stack, done, active)
    requires v !in index
    requires forall x | x in index :: index[x] < n
    requires forall x | x in active :: Reach(E, x, v)
    ensures Invariant(E, index[v := n], stack + [v], done, active + {v})
  {
    hide Reach;
    EnterPlaces(index, stack, done, v, n);
    EnterConnected(E, index, stack, done, active, v, n);
    hide Ordered, Partitioned, Connected;
    assert Explored(E, index[v := n], done, active + {v});
  }

  lemma EnterPlaces(index: Numbering, stack: seq<TaskId>, done: set<TaskId>, v: TaskId, n: nat)
    requires Ordered(index, stack) && Partitioned(index, stack, done)
    requires v !in index && forall x | x in index :: index[x] < n
    ensures Ordered(index[v := n], stack + [v]) && Partitioned(index[v := n], stack + [v], done)
  {
    assert forall x :: x in stack + [v] <==> x in stack || x == v;
  }

  lemma EnterConnected(E: Edges, index: Numbering, stack: seq<TaskId>, done: set<TaskId>, active: set<TaskId>, v: TaskId, n: nat)
    requires forall y | y in stack :: y in index
    requires Connected(E, index, stack, active)
    requires v !in index && forall x | x in index :: index[x] < n
    requires forall x | x in active :: Reach(E, x, v)
    ensures forall x | x in stack + [v] :: x in index[v := n]
    ensures Connected(E, index[v := n], stack + [v], active + {v})
  {
    hide Reach, LeadsToActive;
    EnterLeadsAll(E, index, stack, active, v, n);
    EnterReaches(E, index, stack, active, v, n);
  }

  lemma EnterLeadsAll(E: Edges, index: Numbering, stack: seq<TaskId>, active: set<TaskId>, v: TaskId, n: nat)
    requires forall y | y in stack :: y in index
    requires Connected(E, index, stack, active) && v !in index
    ensures forall x | x in stack + [v] :: x in index[v := n]
    ensures forall x {:trigger LeadsToActive(E, index[v := n], stack + [v], active + {v}, x)} | x in stack + [v] ::
              LeadsToActive(E, index[v := n], stack + [v], active + {v}, x)
  {
    hide Reach;
    assert forall x :: x in stack + [v] <==> x in stack || x == v;
    forall x | x in stack + [v] ensures LeadsToActive(E, index[v := n], stack + [v], active + {v}, x) {
      if x == v {
        ReachSelf(E, v);
        assert v in active + {v} && v in stack + [v];
      } else {
        hide LeadsToActive;
        EnterLeads(E, index, stack, active, v, n, x);
      }
    }
  }

  lemma EnterReaches(E: Edges, index: Numbering, stack: seq<TaskId>, active: set<TaskId>, v: TaskId, n: nat)
    requires forall y | y in stack :: y in index
    requires Connected(E, index, stack, active)
    requires v !in index && forall x | x in index :: index[x] < n
    requires forall x | x in active :: Reach(E, x, v)
    ensures forall x | x in stack + [v] :: x in index[v := n]
    ensures forall x, y | x in active + {v} && y in stack + [v] && index[v := n][x] <= index[v := n][y] :: Reach(E, x, y)
  {
    hide Reach, LeadsToActive;
    ReachSelf(E, v);
    assert forall x :: x in stack + [v] <==> x in stack || x == v;
  }

  lemma EnterLeads(E: Edges, index: Numbering, stack: seq<TaskId>, active: set<TaskId>, v: TaskId, n: nat, x: TaskId)
    requires forall y | y in stack :: y in index
    requires v !in index && x in stack && LeadsToActive(E, index, stack, active, x)
    ensures forall y | y in stack + [v] :: y in index[v := n]
    ensures LeadsToActive(E, index[v := n], stack + [v], active + {v}, x)
  {
    hide Reach;
    var y :| y in active && y in stack && index[y] <= index[x] && Reach(E, x, y);
    assert y in active + {v} && y in stack + [v];
  }

  /** A stacked task that led to v also leads to whatever active task v leads to. */
  lemma LeadsPast(E: Edges, index: Numbering, stack: seq<TaskId>, active: set<TaskId>, v: TaskId, x: TaskId)
    requires forall y | y in stack :: y in index
    requires v in stack && x in stack
    requires LeadsToActive(E, index, stack, active, x)
    requires LeadsToActive(E, index, stack, active - {v}, v)
    ensures LeadsToActive(E, index, stack, active - {v}, x)
  {
    hide Reach;
    var z :| z in active && z in stack && index[z] <= index[x] && Reach(E, x, z);
    if z == v {
      var y :| y in active - {v} && y in stack && index[y] <= index[v] && Reach(E, v, y);
      ReachTransitive(E, x, v, y);
    } else {
      assert z in active - {v};
    }
  }

  lemma LeadsBelow(E: Edges, index: Numbering, stack: seq<TaskId>, active: set<TaskId>, v: TaskId, below: TaskId)
    requires forall y | y in stack :: y in index
    requires v in stack && below in stack && index[below] < index[v] && Reach(E, v, below)
    requires LeadsToActive(E, index, stack, active, below)
    ensures LeadsToActive(E, index, stack, active - {v}, v)
  {
    hide Reach;
    var y :| y in active && y in stack && index[y] <= index[below] && Reach(E, below, y);
    ReachTransitive(E, v, below, y);
    assert y in active - {v};
  }

  /** Leaving v on the stack: some task below v is still reachable from v. */
  lemma LeaveOpen(E: Edges, index: Numbering, stack: seq<TaskId>, done: set<TaskId>, active: set<TaskId>,
                  v: TaskId, below: TaskId)
    requires Invariant(E, index, stack, done, active)
    requires v in active
    requires forall e | e in E && e.0 == v :: e.1 in index
    requires below in stack && index[below] < index[v] && Reach(E, v, below)
    ensures Invariant(E, index, stack, done, active - {v})
  {
    hide Reach, LeadsToActive;
    LeadsBelow(E, index, stack, active, v, below);
    forall x | x in stack ensures LeadsToActive(E, index, stack, active - {v}, x) {
      LeadsPast(E, index, stack, active, v, x);
    }
  }

  /** The top of the stack from position k, when v stands there, no edge leads from it to the rest
      of the stack, and v is the only active task in it. */
  ghost predicate Closed(E: Edges, index: Numbering, stack: seq<TaskId>, active: set<TaskId>, v: TaskId, k: nat) {
    && k < |stack| && stack[k] == v && v in active
    && (forall x | x in active && x in stack[k..] :: x == v)
    && (forall e | e in E && e.0 in stack[k..] :: e.1 in index && e.1 !in stack[..k])
  }

  ghost function Members(xs: seq<TaskId>): set<TaskId> {
    set x | x in xs
  }

  /** An edge out of the closed top leads only to done tasks. */
  lemma ClosedExits(E: Edges, index: Numbering, stack: seq<TaskId>, done: set<TaskId>, active: set<TaskId>, v: TaskId, k: nat, e: (TaskId, TaskId))
    requires Invariant(E, index, stack, done, active)
    requires Closed(E, index, stack, active, v, k)
    requires e in E && e.0 in stack[k..] && e.1 !in stack[k..]
    ensures e.1 in done
  {
    hide Reach;
    assert stack == stack[..k] + stack[k..];
  }

  lemma DoneIsClosed(E: Edges, index: Numbering, stack: seq<TaskId>, done: set<TaskId>, active: set<TaskId>, x: TaskId, y: TaskId)
    requires Explored(E, index, done, active)
    requires x in done && Reach(E, x, y)
    ensures y in done
  {
    hide Reach;
    if y !in done {
      var a, b := ReachLeaves(E, x, y, done);
      assert false;
    }
  }

  /** From a member of the closed top a path that ends on the stack stays in the top. */
  lemma StaysInTop(E: Edges, index: Numbering, stack: seq<TaskId>, done: set<TaskId>, active: set<TaskId>,
                   v: TaskId, k: nat, x: TaskId, y: TaskId)
    requires Invariant(E, index, stack, done, active)
    requires Closed(E, index, stack, active, v, k)
    requires x in stack[k..] && Reach(E, x, y) && y !in done
    ensures y in stack[k..]
  {
    hide Reach;
    if y !in stack[k..] {
      var a, b := ReachLeaves(E, x, y, Members(stack[k..]));
      ClosedExits(E, index, stack, done, active, v, k, (a, b));
      DoneIsClosed(E, index, stack, done, active, b, y);
      assert false;
    }
  }

  /** The closed top is exactly v's strongly connected component. */
  lemma TopIsComponent(E: Edges, index: Numbering, stack: seq<TaskId>, done: set<TaskId>, active: set<TaskId>, v: TaskId, k: nat)
    requires Invariant(E, index, stack, done, active)
    requires Closed(E, index, stack, active, v, k)
    ensures forall z :: z in stack[k..] <==> Mutual(E, v, z)
  {
    hide Reach;
    assert forall i | 0 <= i < |stack| - k :: stack[k..][i] == stack[k + i];
    ReachSelf(E, v);
    assert v in stack[k..] by { assert stack[k..][0] == v; }
    forall z ensures z in stack[k..] <==> Mutual(E, v, z) {
      if z in stack[k..] {
        var j :| 0 <= j < |stack| - k && stack[k..][j] == z;
        assert z == stack[k + j] && index[v] <= index[z];
        assert Reach(E, v, z);
        assert LeadsToActive(E, index, stack, active, z);
        var y :| y in active && y in stack && index[y] <= index[z] && Reach(E, z, y);
        StaysInTop(E, index, stack, done, active, v, k, z, y);
        assert y == v;
      } else if Mutual(E, v, z) {
        if z in done {
          DoneIsClosed(E, index, stack, done, active, z, v);
          assert false;
        } else {
          StaysInTop(E, index, stack, done, active, v, k, v, z);
          assert false;
        }
      }
    }
  }

  /** Positions below k hold exactly the stacked tasks that are not in the top. */
  lemma SplitAt(index: Numbering, stack: seq<TaskId>, k: nat, x: TaskId)
    requires Ordered(index, stack) && k < |stack|
    ensures x in stack <==> x in stack[..k] || x in stack[k..]
    ensures !(x in stack[..k] && x in stack[k..])
    ensures x in stack[..k] ==> index[x] < index[stack[k]]
    ensures x in stack[k..] ==> index[stack[k]] <= index[x]
  {
    InSlice(stack, k, x);
    if x in stack[..k] {
      var i :| 0 <= i < k && stack[i] == x;
    }
    if x in stack[k..] {
      var j :| k <= j < |stack| && stack[j] == x;
    }
  }

  lemma InSlice(stack: seq<TaskId>, k: nat, x: TaskId)
    requires k < |stack|
    ensures x in stack <==> x in stack[..k] || x in stack[k..]
    ensures x in stack[..k] <==> exists i :: 0 <= i < k && stack[i] == x
    ensures x in stack[k..] <==> exists j :: k <= j < |stack| && stack[j] == x
  {
    assert stack == stack[..k] + stack[k..];
    if i :| 0 <= i < k && stack[i] == x { assert stack[..k][i] == x; }
    if j :| k <= j < |stack| && stack[j] == x { assert stack[k..][j - k] == x; }
  }

  lemma PopConnected(E: Edges, index: Numbering, stack: seq<TaskId>, active: set<TaskId>, v: TaskId, k: nat)
    requires Ordered(index, stack) && Connected(E, index, stack, active)
    requires Closed(E, index, stack, active, v, k)
    ensures forall x | x in stack[..k] :: x in index
    ensures Connected(E, index, stack[..k], active - {v})
  {
    hide Reach;
    var base := stack[..k];
    forall x | x in base ensures LeadsToActive(E, index, base, active - {v}, x) {
      SplitAt(index, stack, k, x);
      assert LeadsToActive(E, index, stack, active, x);
      var y :| y in active && y in stack && index[y] <= index[x] && Reach(E, x, y);
      SplitAt(index, stack, k, y);
      assert y in active - {v} && y in base;
    }
    hide LeadsToActive;
    forall x | x in active - {v} ensures x in base { SplitAt(index, stack, k, x); }
    forall x | x in base ensures x in stack { SplitAt(index, stack, k, x); }
  }

  /** Popping the closed top finishes its members. */
  lemma PopTop(E: Edges, index: Numbering, stack: seq<TaskId>, done: set<TaskId>, active: set<TaskId>, v: TaskId, k: nat)
    requires Invariant(E, index, stack, done, active)
    requires Closed(E, index, stack, active, v, k)
    ensures Invariant(E, index, stack[..k], done + Members(stack[k..]), active - {v})
  {
    hide Reach, LeadsToActive;
    var base, top, done' := stack[..k], stack[k..], done + Members(stack[k..]);
    PopConnected(E, index, stack, active, v, k);
    hide Connected;
    assert forall x :: x in Members(top) <==> x in top;
    assert v in top by { assert top[0] == v; }
    assert Ordered(index, base);
    forall x ensures x in stack <==> x in base || x in top
             ensures !(x in base && x in top)
    {
      SplitAt(index, stack, k, x);
    }
    assert Partitioned(index, base, done');
    forall e | e in E && e.0 in done' ensures e.1 in done' {
      if e.0 !in done && e.1 !in top {
        ClosedExits(E, index, stack, done, active, v, k, e);
      }
    }
    assert Explored(E, index, done', active - {v});
  }
}
