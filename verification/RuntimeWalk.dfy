/** The route walk step by step, as a function of what has been inspected so far: the specification the router's methods
    refine. Every step is determined, so every route and every preview is. */
module RuntimeWalk {
  import opened Options
  import opened RuntimeCatalog
  import opened RuntimePreview
  import opened RuntimeGroups

  predicate Blocked(r: Reason) { r == QuotaBlocked || r == ThresholdBlocked || r == NotIndependent }

  predicate Unknown(r: Reason) { r == PoolEvidenceUnknown || r == PoolEvidenceUnavailable || r == ControllerUnavailable }

  /** What inspecting a profile finds: its assessment, except that the review filter turns an available profile
      that is no independent reviewer into one that is skipped. */
  ghost function Judged(x: Inputs, filter: bool, ref: Ref): Reason
    requires x.Valid()
  {
    if Assess(x, ref) == Available && filter && !IndependentReviewer(x, ref) then NotIndependent else Assess(x, ref)
  }

  function EdgesFrom(x: Inputs, ref: Ref): seq<Ref> { ListAt(x.Policy().quotaEdges, ref) }

  // ----- one step -----

  /** What a route has done so far. */
  datatype Machine = Machine(visited: set<Ref>, attempts: int, trace: seq<Trace>)

  const START := Machine({}, 0, [])

  datatype Stop = Running | Picked(ref: Ref) | Halted(reason: Reason)

  datatype Turn = Turn(m: Machine, children: seq<seq<Ref>>, stop: Stop)

  ghost function LookAt(x: Inputs, filter: bool, m: Machine, ref: Ref): (Machine, Reason)
    requires x.Valid()
  {
    if ref in m.visited then (m, AlreadyVisited)
    else
      var seen, judged := m.visited + {ref}, Judged(x, filter, ref);
      if judged == NotIndependent then (Machine(seen, m.attempts, m.trace + [Trace(ref, judged)]), judged)
      else if m.attempts >= x.Policy().maxAttempts then (m.(visited := seen), AttemptLimit)
      else (Machine(seen, m.attempts + 1, m.trace + [Trace(ref, judged)]), judged)
  }

  ghost function TurnOne(x: Inputs, filter: bool, m: Machine, ref: Ref): Turn
    requires x.Valid()
  {
    var (n, r) := LookAt(x, filter, m, ref);
    if r == Available then Turn(n, [], Picked(ref))
    else if r == AttemptLimit then Turn(n, [], Halted(AttemptLimit))
    else if Unknown(r) then Turn(n, [], Halted(SiblingEvidenceUnknown))
    else Turn(n, if Blocked(r) then GroupsOf(x, EdgesFrom(x, ref)) else [], Running)
  }

  /** A group's profiles in order, until one stops the walk. */
  ghost function TurnAll(x: Inputs, filter: bool, m: Machine, group: seq<Ref>): Turn
    requires x.Valid()
  {
    if group == [] then Turn(m, [], Running)
    else
      var before := TurnAll(x, filter, m, group[..|group| - 1]);
      if !before.stop.Running? then before
      else
        var last := TurnOne(x, filter, before.m, group[|group| - 1]);
        Turn(last.m, before.children + last.children, last.stop)
  }

  lemma TurnNone(x: Inputs, filter: bool, m: Machine)
    requires x.Valid()
    ensures TurnAll(x, filter, m, []) == Turn(m, [], Running)
  {}

  lemma TurnNext(x: Inputs, filter: bool, m: Machine, group: seq<Ref>, k: nat)
    requires x.Valid() && k < |group| && TurnAll(x, filter, m, group[..k]).stop.Running?
    ensures var before := TurnAll(x, filter, m, group[..k]);
            var next := TurnOne(x, filter, before.m, group[k]);
            TurnAll(x, filter, m, group[..k + 1]) == Turn(next.m, before.children + next.children, next.stop)
  {
    hide TurnOne;
    assert group[..k + 1][..k] == group[..k];
  }

  /** A stop inside a group is the group's. */
  lemma {:induction false} StopStays(x: Inputs, filter: bool, m: Machine, group: seq<Ref>, k: nat)
    requires x.Valid() && k <= |group| && !TurnAll(x, filter, m, group[..k]).stop.Running?
    ensures TurnAll(x, filter, m, group) == TurnAll(x, filter, m, group[..k])
  {
    hide TurnOne;
    if k < |group| {
      var front := group[..|group| - 1];
      assert front[..k] == group[..k];
      StopStays(x, filter, m, front, k);
    } else {
      assert group[..k] == group;
    }
  }

  // ----- a walk -----

  /** At most n groups of the worklist; None when that is not enough. */
  ghost function WalkN(x: Inputs, filter: bool, edgesLast: bool, m: Machine, pending: seq<seq<Ref>>, n: nat): Option<(Machine, Stop)>
    requires x.Valid()
    decreases n
  {
    if pending == [] then Some((m, Running))
    else if n == 0 then None
    else
      var t := TurnAll(x, filter, m, pending[0]);
      if !t.stop.Running? then Some((t.m, t.stop))
      else WalkN(x, filter, edgesLast, t.m, if edgesLast then pending[1..] + t.children else t.children + pending[1..], n - 1)
  }

  ghost predicate Walks(x: Inputs, filter: bool, edgesLast: bool, m: Machine, pending: seq<seq<Ref>>, w: (Machine, Stop))
    requires x.Valid()
  {
    exists n: nat :: WalkN(x, filter, edgesLast, m, pending, n) == Some(w)
  }

  lemma {:induction false} LongerWalk(x: Inputs, filter: bool, edgesLast: bool, m: Machine, pending: seq<seq<Ref>>, n: nat, k: nat)
    requires x.Valid() && n <= k && WalkN(x, filter, edgesLast, m, pending, n).Some?
    ensures WalkN(x, filter, edgesLast, m, pending, k) == WalkN(x, filter, edgesLast, m, pending, n)
    decreases n
  {
    hide TurnAll;
    if pending != [] {
      var t := TurnAll(x, filter, m, pending[0]);
      if t.stop.Running? {
        LongerWalk(x, filter, edgesLast, t.m, if edgesLast then pending[1..] + t.children else t.children + pending[1..], n - 1, k - 1);
      }
    }
  }

  /** A walk has one result. */
  lemma WalkIsDetermined(x: Inputs, filter: bool, edgesLast: bool, m: Machine, pending: seq<seq<Ref>>, v: (Machine, Stop), w: (Machine, Stop))
    requires x.Valid() && Walks(x, filter, edgesLast, m, pending, v) && Walks(x, filter, edgesLast, m, pending, w)
    ensures v == w
  {
    hide WalkN;
    var i: nat :| WalkN(x, filter, edgesLast, m, pending, i) == Some(v);
    var j: nat :| WalkN(x, filter, edgesLast, m, pending, j) == Some(w);
    if i <= j {
      LongerWalk(x, filter, edgesLast, m, pending, i, j);
    } else {
      LongerWalk(x, filter, edgesLast, m, pending, j, i);
    }
  }

  lemma WalkEnds(x: Inputs, filter: bool, edgesLast: bool, m: Machine)
    requires x.Valid()
    ensures Walks(x, filter, edgesLast, m, [], (m, Running))
  {
    assert WalkN(x, filter, edgesLast, m, [], 0) == Some((m, Running));
  }

  /** The first group decides: it stops the walk, or the walk is the one of what is then pending. */
  lemma WalkGoesOn(x: Inputs, filter: bool, edgesLast: bool, m: Machine, pending: seq<seq<Ref>>, w: (Machine, Stop))
    requires x.Valid() && pending != []
    requires var t := TurnAll(x, filter, m, pending[0]);
             if !t.stop.Running? then w == (t.m, t.stop)
             else Walks(x, filter, edgesLast, t.m, if edgesLast then pending[1..] + t.children else t.children + pending[1..], w)
    ensures Walks(x, filter, edgesLast, m, pending, w)
  {
    hide TurnAll;
    var t := TurnAll(x, filter, m, pending[0]);
    if t.stop.Running? {
      var next := if edgesLast then pending[1..] + t.children else t.children + pending[1..];
      var n: nat :| WalkN(x, filter, edgesLast, t.m, next, n) == Some(w);
      assert WalkN(x, filter, edgesLast, m, pending, n + 1) == Some(w);
    } else {
      assert WalkN(x, filter, edgesLast, m, pending, 1) == Some(w);
    }
  }

  // ----- a route -----

  /** How a stop shows in what is selected and in the reason. */
  predicate Shows(stop: Stop, selected: Ref, before: Reason, reason: Reason) {
    match stop
    case Running => selected == "" && reason == before
    case Picked(ref) => selected == ref && reason == before
    case Halted(why) => selected == "" && reason == why
  }

  datatype Ran = Ran(m: Machine, selected: Ref, terminal: bool, reason: Reason)

  /** A walk's result as a route's. */
  ghost predicate RanWalk(x: Inputs, filter: bool, edgesLast: bool, m: Machine, pending: seq<seq<Ref>>, before: Reason, r: Ran)
    requires x.Valid()
  {
    !r.terminal && exists stop :: Walks(x, filter, edgesLast, m, pending, (r.m, stop)) && Shows(stop, r.selected, before, r.reason)
  }

  ghost predicate RanFromSource(x: Inputs, filter: bool, before: Reason, r: Ran)
    requires x.Valid()
  {
    var source := x.request.sourceProfile;
    if source !in x.binding.permittedProfiles then r == Ran(START, "", true, SourceNotPermitted)
    else
      var (m, reason) := LookAt(x, false, START, source);
      if reason != QuotaBlocked && reason != ThresholdBlocked then r == Ran(m, "", true, SourceHasNoQuotaTrigger)
      else RanWalk(x, filter, false, m, GroupsOf(x, EdgesFrom(x, source)), before, r)
  }

  /** Primaries left over from the first group, the other primary groups, and only then the first one's edges. */
  ghost function AfterFirst(x: Inputs, groups: seq<seq<Ref>>): seq<seq<Ref>>
    requires groups != [] && groups[0] != []
  {
    (if |groups[0]| > 1 then [groups[0][1..]] else []) + groups[1..] + GroupsOf(x, EdgesFrom(x, groups[0][0]))
  }

  ghost predicate RanFromPrimaries(x: Inputs, filter: bool, before: Reason, r: Ran)
    requires x.Valid()
  {
    var groups := GroupsOf(x, x.Policy().primaryProfiles);
    && groups != [] && groups[0] != []
    && var (m, reason) := LookAt(x, filter, START, groups[0][0]);
       if reason == Available then r == Ran(m, groups[0][0], false, before)
       else if Blocked(reason) then RanWalk(x, filter, true, m, AfterFirst(x, groups), before, r)
       else r == Ran(m, "", true, PrimaryHasNoQuotaTrigger)
  }

  /** One route, told from the inputs, the filter and the reason it starts with. */
  ghost predicate IsRoute(x: Inputs, filter: bool, before: Reason, r: Ran)
    requires x.Valid()
  {
    if x.request.purpose == "quota_reserve" then RanFromSource(x, filter, before, r) else RanFromPrimaries(x, filter, before, r)
  }

  lemma RouteIsDetermined(x: Inputs, filter: bool, before: Reason, q: Ran, r: Ran)
    requires x.Valid() && IsRoute(x, filter, before, q) && IsRoute(x, filter, before, r)
    ensures q == r
  {
    hide LookAt, RanWalk, GroupsOf, AfterFirst, EdgesFrom, Blocked;
    if x.request.purpose == "quota_reserve" {
      var source := x.request.sourceProfile;
      var (m, reason) := LookAt(x, false, START, source);
      if source in x.binding.permittedProfiles && (reason == QuotaBlocked || reason == ThresholdBlocked) {
        RanWalkIsDetermined(x, filter, false, m, GroupsOf(x, EdgesFrom(x, source)), before, q, r);
      }
    } else {
      var groups := GroupsOf(x, x.Policy().primaryProfiles);
      var (m, reason) := LookAt(x, filter, START, groups[0][0]);
      if reason != Available && Blocked(reason) {
        RanWalkIsDetermined(x, filter, true, m, AfterFirst(x, groups), before, q, r);
      }
    }
  }

  lemma RanWalkIsDetermined(x: Inputs, filter: bool, edgesLast: bool, m: Machine, pending: seq<seq<Ref>>, before: Reason, q: Ran, r: Ran)
    requires x.Valid() && RanWalk(x, filter, edgesLast, m, pending, before, q) && RanWalk(x, filter, edgesLast, m, pending, before, r)
    ensures q == r
  {
    hide Walks;
    var s :| Walks(x, filter, edgesLast, m, pending, (q.m, s)) && Shows(s, q.selected, before, q.reason);
    var t :| Walks(x, filter, edgesLast, m, pending, (r.m, t)) && Shows(t, r.selected, before, r.reason);
    WalkIsDetermined(x, filter, edgesLast, m, pending, (q.m, s), (r.m, t));
  }
}
