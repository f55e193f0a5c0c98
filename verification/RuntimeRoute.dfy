/** The route walk over primaries and quota edges: what its trace means, and the walk itself. */
module RuntimeRoute {
  import opened RuntimeCatalog
  import opened RuntimePreview
  import opened RuntimeGroups
  import opened RuntimeWalk

  /** Entries that spend an attempt. */
  function Tries(trace: seq<Trace>): nat {
    if trace == [] then 0
    else Tries(trace[..|trace| - 1]) + if trace[|trace| - 1].reason == NotIndependent then 0 else 1
  }

  /** The most attempts a route may make. */
  function Limit(x: Inputs): nat {
    if x.Policy().maxAttempts < 0 then 0 else x.Policy().maxAttempts
  }

  ghost predicate Distinct(trace: seq<Trace>) {
    forall i, j | 0 <= i < j < |trace| :: trace[i].profile != trace[j].profile
  }

  ghost function Ids(trace: seq<Trace>): set<Ref> {
    set t | t in trace :: t.profile
  }

  /** A blocked entry leads to the targets of its quota edges. */
  ghost predicate LeadsTo(x: Inputs, t: Trace, ref: Ref) {
    Blocked(t.reason) && ref in EdgesFrom(x, t.profile)
  }

  /** Some entry of the trace leads to ref. */
  ghost predicate LedTo(x: Inputs, trace: seq<Trace>, ref: Ref) {
    exists i :: 0 <= i < |trace| && LeadsTo(x, trace[i], ref)
  }

  /** Every entry is a root or was led to by an earlier entry. */
  ghost predicate Justified(x: Inputs, roots: set<Ref>, trace: seq<Trace>) {
    forall j | 0 <= j < |trace| :: trace[j].profile in roots || LedTo(x, trace[..j], trace[j].profile)
  }

  ghost predicate Honest(x: Inputs, filter: bool, trace: seq<Trace>)
    requires x.Valid()
  {
    forall t | t in trace :: t.reason == Judged(x, filter, t.profile)
  }

  /** Nothing in the trace ended the walk. */
  ghost predicate Rejected(trace: seq<Trace>) {
    forall t | t in trace :: t.reason != Available && !Unknown(t.reason)
  }

  /** Anything that is no primary comes only after every primary. */
  ghost predicate PrimariesFirst(primaries: set<Ref>, trace: seq<Trace>) {
    forall j | 0 <= j < |trace| && trace[j].profile !in primaries :: primaries <= Ids(trace[..j])
  }

  /** What every step of a route keeps. */
  ghost predicate Sound(x: Inputs, filter: bool, roots: set<Ref>, primaries: set<Ref>, trace: seq<Trace>, attempts: int)
    requires x.Valid()
  {
    && Distinct(trace) && attempts == Tries(trace) <= Limit(x)
    && Honest(x, filter, trace) && Justified(x, roots, trace) && PrimariesFirst(primaries, trace)
  }

  /** The selected profile is the only available entry and the last; nothing before it was unknown. */
  ghost predicate Won(trace: seq<Trace>, selected: Ref) {
    && trace != [] && trace[|trace| - 1] == Trace(selected, Available)
    && Rejected(trace[..|trace| - 1])
  }

  /** Everything in `refs` is a root or led to. */
  ghost predicate Sourced(x: Inputs, roots: set<Ref>, trace: seq<Trace>, refs: set<Ref>) {
    forall r | r in refs :: r in roots || LedTo(x, trace, r)
  }

  /** Everything in `start`, and everything led to, has been inspected or is still in `todo`. */
  ghost predicate Covered(x: Inputs, start: set<Ref>, trace: seq<Trace>, todo: set<Ref>) {
    && (forall r | r in start :: r in Ids(trace) || r in todo)
    && (forall r | LedTo(x, trace, r) :: r in Ids(trace) || r in todo)
  }

  lemma IdsAppend(trace: seq<Trace>, t: Trace)
    ensures Ids(trace + [t]) == Ids(trace) + {t.profile}
  {}

  lemma TriesAppend(trace: seq<Trace>, t: Trace)
    ensures Tries(trace + [t]) == Tries(trace) + if t.reason == NotIndependent then 0 else 1
  {}

  lemma LedToAppend(x: Inputs, trace: seq<Trace>, t: Trace, r: Ref)
    ensures LedTo(x, trace + [t], r) <==> LedTo(x, trace, r) || LeadsTo(x, t, r)
  {
    hide LeadsTo;
    var more := trace + [t];
    if LedTo(x, trace, r) {
      var i :| 0 <= i < |trace| && LeadsTo(x, trace[i], r);
      assert LeadsTo(x, more[i], r);
    }
    if LeadsTo(x, t, r) { assert LeadsTo(x, more[|trace|], r); }
    if LedTo(x, more, r) {
      var i :| 0 <= i < |more| && LeadsTo(x, more[i], r);
      if i < |trace| { assert more[i] == trace[i]; }
    }
  }

  /** One more entry keeps a route sound. */
  lemma SoundAppend(x: Inputs, filter: bool, roots: set<Ref>, primaries: set<Ref>, trace: seq<Trace>, attempts: int, ref: Ref)
    requires x.Valid() && Sound(x, filter, roots, primaries, trace, attempts)
    requires ref !in Ids(trace)
    requires Judged(x, filter, ref) != NotIndependent ==> attempts < Limit(x)
    requires ref in roots || LedTo(x, trace, ref)
    requires ref in primaries || primaries <= Ids(trace)
    ensures var t := Trace(ref, Judged(x, filter, ref));
            Sound(x, filter, roots, primaries, trace + [t], attempts + if t.reason == NotIndependent then 0 else 1)
  {
    hide Judged, LedTo, Tries;
    var t := Trace(ref, Judged(x, filter, ref));
    var more := trace + [t];
    TriesAppend(trace, t);
    forall i | 0 <= i < |trace| ensures trace[i].profile != ref { assert trace[i] in trace; }
    assert Distinct(more);
    assert Honest(x, filter, more);
    assert forall j | 0 <= j < |trace| :: more[..j] == trace[..j] && more[j] == trace[j];
    assert more[..|trace|] == trace;
    assert Justified(x, roots, more);
    hide Ids;
    assert PrimariesFirst(primaries, more);
  }

  /** Inspecting ref takes it from `todo` and, when it is blocked, adds its edges. */
  lemma CoveredAppend(x: Inputs, start: set<Ref>, trace: seq<Trace>, todo: set<Ref>, t: Trace, todo': set<Ref>)
    requires Covered(x, start, trace, todo)
    requires forall r | r in todo :: r == t.profile || r in todo'
    requires Blocked(t.reason) ==> forall r | r in EdgesFrom(x, t.profile) :: r in todo'
    ensures Covered(x, start, trace + [t], todo')
  {}

  lemma SourcedAppend(x: Inputs, roots: set<Ref>, trace: seq<Trace>, refs: set<Ref>, t: Trace, refs': set<Ref>)
    requires Sourced(x, roots, trace, refs)
    requires forall r | r in refs' :: r in refs || (Blocked(t.reason) && r in EdgesFrom(x, t.profile))
    ensures Sourced(x, roots, trace + [t], refs')
  {
    hide LedTo;
    forall r ensures LedTo(x, trace + [t], r) <==> LedTo(x, trace, r) || LeadsTo(x, t, r) { LedToAppend(x, trace, t, r); }
  }

  // ----- what a finished route says about the quota-edge graph -----

  /** A quota edge out of a blocked profile. */
  ghost predicate BlockedEdge(x: Inputs, filter: bool, a: Ref, b: Ref)
    requires x.Valid()
  {
    Blocked(Judged(x, filter, a)) && b in EdgesFrom(x, a)
  }

  /** A path from a root along quota edges out of blocked profiles. */
  ghost predicate BlockedPath(x: Inputs, filter: bool, roots: set<Ref>, p: seq<Ref>)
    requires x.Valid()
    decreases |p|
  {
    p != [] &&
    var last := p[|p| - 1];
    if |p| == 1 then last in roots
    else BlockedPath(x, filter, roots, p[..|p| - 1]) && BlockedEdge(x, filter, p[|p| - 2], last)
  }

  /** Every traced profile is reached from a root by quota edges through blocked profiles only. */
  lemma {:induction false} TracedIsReached(x: Inputs, filter: bool, roots: set<Ref>, trace: seq<Trace>, j: nat) returns (p: seq<Ref>)
    requires x.Valid() && j < |trace| && Honest(x, filter, trace) && Justified(x, roots, trace)
    ensures BlockedPath(x, filter, roots, p) && p[|p| - 1] == trace[j].profile
    decreases j
  {
    hide Judged;
    if trace[j].profile in roots {
      p := [trace[j].profile];
    } else {
      assert LedTo(x, trace[..j], trace[j].profile);
      var i :| 0 <= i < j && LeadsTo(x, trace[..j][i], trace[j].profile);
      assert trace[i] == trace[..j][i] && trace[i] in trace;
      var q := TracedIsReached(x, filter, roots, trace, i);
      p := q + [trace[j].profile];
      assert p[..|p| - 1] == q;
    }
  }

  /** A route that ran out of candidates has traced everything reachable, so it missed no candidate. */
  lemma {:induction false} ReachedIsTraced(x: Inputs, filter: bool, roots: set<Ref>, trace: seq<Trace>, p: seq<Ref>)
    requires x.Valid() && Honest(x, filter, trace) && Covered(x, roots, trace, {})
    requires BlockedPath(x, filter, roots, p)
    ensures p[|p| - 1] in Ids(trace)
    decreases |p|
  {
    hide Judged;
    if |p| > 1 {
      var n := |p| - 1;
      ReachedIsTraced(x, filter, roots, trace, p[..n]);
      var t :| t in trace && t.profile == p[n - 1];
      var i :| 0 <= i < |trace| && trace[i] == t;
      assert LeadsTo(x, trace[i], p[n]);
      assert LedTo(x, trace, p[n]);
    }
  }

  // ----- the walk -----

  ghost function Elems(refs: seq<Ref>): set<Ref> {
    set r | r in refs
  }

  lemma RefsConcat(a: seq<seq<Ref>>, b: seq<seq<Ref>>)
    ensures Refs(a + b) == Refs(a) + Refs(b)
  {}

  lemma RefsHead(groups: seq<seq<Ref>>)
    requires groups != []
    ensures Refs(groups) == Elems(groups[0]) + Refs(groups[1..])
  {}

  lemma ElemsHead(refs: seq<Ref>)
    requires refs != []
    ensures Elems(refs) == {refs[0]} + Elems(refs[1..])
  {}

  datatype Ending = Found | OutOfAttempts | UnknownEvidence | Exhausted

  /** How a walk ended, told from its trace and result. */
  ghost predicate Ended(x: Inputs, start: set<Ref>, trace: seq<Trace>, selected: Ref, before: Reason, reason: Reason, end: Ending) {
    match end
    case Found => Won(trace, selected) && reason == before
    case OutOfAttempts => selected == "" && reason == AttemptLimit && Rejected(trace) && Tries(trace) == Limit(x)
    case UnknownEvidence => selected == "" && reason == SiblingEvidenceUnknown && trace != []
      && Unknown(trace[|trace| - 1].reason) && Rejected(trace[..|trace| - 1])
    case Exhausted => selected == "" && reason == before && Rejected(trace) && Covered(x, start, trace, {})
  }

  /** The first `front` groups still pending hold every primary not yet inspected, and nothing else. */
  ghost predicate Fronted(primaries: set<Ref>, seen: set<Ref>, pending: seq<seq<Ref>>, front: nat) {
    && front <= |pending|
    && Refs(pending[..front]) <= primaries
    && forall p | p in primaries :: p in seen || p in Refs(pending[..front])
  }

  /** An entry that ends nothing opens exactly the groups its edges give, if it is blocked, and else none. */
  lemma Continues(x: Inputs, roots: set<Ref>, start: set<Ref>, trace: seq<Trace>, todo: set<Ref>, t: Trace, more: seq<seq<Ref>>)
    requires Rejected(trace) && t.reason != Available && !Unknown(t.reason)
    requires Covered(x, start, trace, todo + {t.profile})
    requires if Blocked(t.reason) then forall r :: r in Refs(more) <==> r in EdgesFrom(x, t.profile) else more == []
    ensures Rejected(trace + [t])
    ensures Sourced(x, roots, trace + [t], Refs(more)) && Covered(x, start, trace + [t], todo + Refs(more))
    ensures forall r | r in Refs(more) :: r in EdgesFrom(x, t.profile)
  {
    hide LedTo, Covered, Rejected, Refs, ListAt;
    NoRefs();
    CoveredAppend(x, start, trace, todo + {t.profile}, t, todo + Refs(more));
    SourcedAppend(x, roots, trace, {}, t, Refs(more));
    RejectedAppend(trace, t);
  }

  class Router {
    const x: Inputs
    var visited: set<Ref>
    var attempts: int
    var trace: seq<Trace>
    var reason: Reason

    constructor (x: Inputs, reason: Reason)
      ensures this.x == x && visited == {} && attempts == 0 && trace == [] && this.reason == reason
    {
      this.x, this.reason := x, reason;
      visited, attempts, trace := {}, 0, [];
    }

    /** What this route has done so far. */
    ghost function Now(): Machine
      reads this
    {
      Machine(visited, attempts, trace)
    }

    /** route starts over with an empty trace, an empty visited set and no attempts. */
    method Restart()
      modifies this`visited, this`attempts, this`trace
      ensures visited == {} && attempts == 0 && trace == []
    {
      visited, attempts, trace := {}, 0, [];
    }

    method Inspect(ref: Ref, filter: bool) returns (r: Reason)
      requires x.Valid() && (filter ==> x.provenance.Some?)
      modifies this`visited, this`attempts, this`trace
      ensures (Now(), r) == LookAt(x, filter, old(Now()), ref)
      ensures visited == old(visited) + {ref}
      ensures ref in old(visited) ==> r == AlreadyVisited && attempts == old(attempts) && trace == old(trace)
      ensures ref !in old(visited) ==>
                var judged := Judged(x, filter, ref);
                if judged != NotIndependent && old(attempts) >= x.Policy().maxAttempts
                then r == AttemptLimit && attempts == old(attempts) && trace == old(trace)
                else r == judged && trace == old(trace) + [Trace(ref, judged)]
                     && attempts == old(attempts) + if judged == NotIndependent then 0 else 1
      ensures r == AlreadyVisited ==> ref in old(visited)
      ensures r == AttemptLimit ==>
                attempts >= x.Policy().maxAttempts && attempts == old(attempts) && trace == old(trace)
    {
      if ref in visited {
        assert visited == visited + {ref};
        return AlreadyVisited;
      }
      visited := visited + {ref};
      var assessed := AssessProfile(x, ref);
      AssessReasons(x, ref);
      if assessed == Available && filter && !Independent(x.EvidenceAt(ref), x.provenance.value.authors) {
        trace := trace + [Trace(ref, NotIndependent)];
        return NotIndependent;
      }
      if attempts >= x.Policy().maxAttempts {
        return AttemptLimit;
      }
      attempts := attempts + 1;
      trace := trace + [Trace(ref, assessed)];
      return assessed;
    }

    /** Between two inspections: a sound route that nothing has ended, and visited is what it traced. */
    ghost predicate Walking(filter: bool, roots: set<Ref>, primaries: set<Ref>)
      reads this
    {
      && x.Valid() && (filter ==> x.provenance.Some?)
      && Sound(x, filter, roots, primaries, trace, attempts)
      && Rejected(trace) && visited == Ids(trace)
    }

    /** Inspect the next candidate of a group and collect the groups its edges lead to. */
    method Try(ref: Ref, filter: bool, ghost roots: set<Ref>, ghost primaries: set<Ref>, ghost start: set<Ref>, ghost todo: set<Ref>)
      returns (more: seq<seq<Ref>>, stop: bool, selected: Ref, ghost end: Ending)
      requires Walking(filter, roots, primaries)
      requires ref in roots || LedTo(x, trace, ref)
      requires ref in primaries || primaries <= visited
      requires Covered(x, start, trace, todo + {ref})
      modifies this
      ensures old(trace) <= trace && visited == old(visited) + {ref}
      ensures Sound(x, filter, roots, primaries, trace, attempts)
      ensures stop ==> Ended(x, start, trace, selected, old(reason), reason, end) && end != Exhausted
      ensures !stop ==> Walking(filter, roots, primaries) && reason == old(reason)
      ensures !stop ==> ref in visited && (visited == old(visited) ==> more == [])
      ensures !stop ==> Sourced(x, roots, trace, Refs(more)) && Covered(x, start, trace, todo + Refs(more))
      ensures !stop ==> forall r | r in Refs(more) :: r in EdgesFrom(x, ref)
      ensures var turn := TurnOne(x, filter, old(Now()), ref);
              && turn.m == Now() && (stop <==> !turn.stop.Running?) && (!stop ==> more == turn.children)
              && Shows(turn.stop, selected, old(reason), reason)
    {
      hide Judged, LookAt, LedTo, Tries, Ids, Covered, IsGrouping, Sound, Rejected, Ended, Refs, ListAt, EdgesFrom;
      more, stop, selected, end := [], false, "", Exhausted;
      ghost var trace0, attempts0 := trace, attempts;
      var r := Inspect(ref, filter);
      if r == AlreadyVisited {
        AlreadyCovered(x, start, trace, todo, ref);
        NoRefs();
        assert todo + {} == todo;
        return;
      }
      if r == AttemptLimit {
        reason := AttemptLimit;
        AttemptsSpent(x, filter, roots, primaries, trace, attempts);
        EndsOutOfAttempts(x, start, trace, old(reason));
        return [], true, "", OutOfAttempts;
      }
      assert ref !in Ids(trace0);
      SoundAppend(x, filter, roots, primaries, trace0, attempts0, ref);
      IdsAppend(trace0, Trace(ref, r));
      if r == Available {
        EndsAt(x, start, trace0, ref, r, reason);
        return [], true, ref, Found;
      }
      if Unknown(r) {
        reason := SiblingEvidenceUnknown;
        EndsAt(x, start, trace0, ref, r, old(reason));
        return [], true, "", UnknownEvidence;
      }
      if Blocked(r) {
        ghost var runs;
        more, runs := Groups(x, EdgesFrom(x, ref));
        GroupingKeepsRefs(x, EdgesFrom(x, ref), runs, more);
      }
      Continues(x, roots, start, trace0, todo, Trace(ref, r), more);
    }

    /** Inspect a whole group, unless something in it ends the walk. */
    method TryGroup(group: seq<Ref>, filter: bool, ghost roots: set<Ref>, ghost primaries: set<Ref>,
                    ghost start: set<Ref>, ghost rest: set<Ref>)
      returns (children: seq<seq<Ref>>, stop: bool, selected: Ref, ghost end: Ending)
      requires Walking(filter, roots, primaries)
      requires Elems(group) <= primaries || primaries <= visited
      requires Sourced(x, roots, trace, Elems(group)) && Covered(x, start, trace, rest + Elems(group))
      modifies this
      ensures old(trace) <= trace && old(visited) <= visited <= old(visited) + Elems(group)
      ensures Sound(x, filter, roots, primaries, trace, attempts)
      ensures stop ==> Ended(x, start, trace, selected, old(reason), reason, end) && end != Exhausted
      ensures !stop ==> Walking(filter, roots, primaries) && reason == old(reason)
      ensures !stop ==> Elems(group) <= visited && (visited == old(visited) ==> children == [])
      ensures !stop ==> Sourced(x, roots, trace, Refs(children)) && Covered(x, start, trace, rest + Refs(children))
      ensures !stop ==> forall r | r in Refs(children) :: Targeted(x, r)
      ensures var turn := TurnAll(x, filter, old(Now()), group);
              && turn.m == Now() && (stop <==> !turn.stop.Running?) && (!stop ==> children == turn.children)
              && Shows(turn.stop, selected, old(reason), reason)
    {
      hide LedTo, Covered, Sourced, Sound, Rejected, Ended, Refs, ListAt, Ids, TurnOne, TurnAll;
      children := [];
      ghost var m0 := Now();
      TurnNone(x, filter, m0);
      assert group[..0] == [];
      ghost var trace0, visited0 := trace, visited;
      NoRefs();
      SourcedNothing(x, roots, trace);
      assert group[0..] == group && rest + {} + Elems(group) == rest + Elems(group);
      for k := 0 to |group|
        invariant Walking(filter, roots, primaries) && reason == old(reason)
        invariant trace0 <= trace && visited0 <= visited <= visited0 + Elems(group)
        invariant forall j | 0 <= j < k :: group[j] in visited
        invariant visited == visited0 ==> children == []
        invariant Sourced(x, roots, trace, Refs(children))
        invariant Covered(x, start, trace, rest + Refs(children) + Elems(group[k..]))
        invariant forall r | r in Refs(children) :: Targeted(x, r)
        invariant TurnAll(x, filter, m0, group[..k]) == Turn(Now(), children, Running)
      {
        var ref := group[k];
        TurnNext(x, filter, m0, group, k);
        ghost var trace1, todo := trace, rest + Refs(children) + Elems(group[k + 1..]);
        ElemsHead(group[k..]);
        assert group[k..][1..] == group[k + 1..];
        assert rest + Refs(children) + Elems(group[k..]) == todo + {ref};
        SourcedAt(x, roots, trace0, trace, Elems(group), ref);
        var more;
        more, stop, selected, end := Try(ref, filter, roots, primaries, start, todo);
        if stop {
          StopStays(x, filter, m0, group, k + 1);
          return;
        }
        SourcedGrows(x, roots, trace1, trace, Refs(children));
        SourcedUnion(x, roots, trace, Refs(children), Refs(more));
        RefsConcat(children, more);
        assert todo + Refs(more) == rest + Refs(children + more) + Elems(group[k + 1..]);
        forall r | r in Refs(more) ensures Targeted(x, r) { assert r in EdgesFrom(x, ref); }
        children := children + more;
      }
      assert rest + Refs(children) + Elems(group[|group|..]) == rest + Refs(children);
      assert group[..|group|] == group;
      stop, selected, end := false, "", Exhausted;
    }

    /** walk: the worklist of groups, with new edges behind it or in front of it. It ends on every graph: each round
        inspects something new or shortens the list. */
    method Walk(groups: seq<seq<Ref>>, edgesLast: bool, filter: bool, ghost roots: set<Ref>, ghost primaries: set<Ref>,
                ghost start: set<Ref>, ghost universe: set<Ref>, ghost front0: nat)
      returns (selected: Ref, ghost end: Ending)
      requires Walking(filter, roots, primaries)
      requires Sourced(x, roots, trace, Refs(groups)) && Covered(x, start, trace, Refs(groups))
      requires Refs(groups) <= universe && visited <= universe && forall r | Targeted(x, r) :: r in universe
      requires Fronted(primaries, visited, groups, front0) && (!edgesLast ==> primaries == {})
      modifies this
      ensures old(trace) <= trace
      ensures Sound(x, filter, roots, primaries, trace, attempts)
      ensures Ended(x, start, trace, selected, old(reason), reason, end)
      ensures exists s :: Walks(x, filter, edgesLast, old(Now()), groups, (Now(), s)) && Shows(s, selected, old(reason), reason)
    {
      hide LedTo, Covered, Sourced, Sound, Rejected, Refs, Targeted, Ids, Elems, Ended, TurnAll, Walks;
      ghost var m0 := Now();
      var pending := groups;
      ghost var front, trace0 := front0, trace;
      while |pending| > 0
        invariant Walking(filter, roots, primaries) && reason == old(reason)
        invariant trace0 <= trace
        invariant Sourced(x, roots, trace, Refs(pending)) && Covered(x, start, trace, Refs(pending))
        invariant Refs(pending) <= universe && visited <= universe
        invariant Fronted(primaries, visited, pending, front) && (!edgesLast ==> primaries == {})
        invariant forall w | Walks(x, filter, edgesLast, Now(), pending, w) :: Walks(x, filter, edgesLast, m0, groups, w)
        decreases universe - visited, |pending|
      {
        var group := pending[0];
        ghost var m1, pending1 := Now(), pending;
        RefsHead(pending);
        FrontHead(primaries, visited, pending, front);
        ghost var trace1, visited1, size1 := trace, visited, |pending|;
        assert [group] + pending[1..] == pending;
        pending := pending[1..];
        SourcedParts(x, roots, trace, Elems(group), Refs(pending));
        assert Elems(group) + Refs(pending) == Refs(pending) + Elems(group);
        var children, stop;
        children, stop, selected, end := TryGroup(group, filter, roots, primaries, start, Refs(pending));
        if stop {
          ghost var turn := TurnAll(x, filter, m1, group);
          WalkGoesOn(x, filter, edgesLast, m1, pending1, (turn.m, turn.stop));
          return;
        }
        SourcedGrows(x, roots, trace1, trace, Refs(pending));
        SourcedUnion(x, roots, trace, Refs(pending), Refs(children));
        FrontNext(primaries, visited1, visited, group, pending, children, front);
        front := if front > 0 then front - 1 else 0;
        RefsConcat(pending, children);
        RefsConcat(children, pending);
        assert Refs(children) + Refs(pending) == Refs(pending) + Refs(children);
        if edgesLast {
          pending := pending + children;
        } else {
          pending := children + pending;
          front := 0;
          assert Fronted(primaries, visited, pending, 0) by { NoRefs(); }
        }
        forall w | Walks(x, filter, edgesLast, Now(), pending, w) ensures Walks(x, filter, edgesLast, m0, groups, w) {
          WalkGoesOn(x, filter, edgesLast, m1, pending1, w);
        }
        assert visited == visited1 ==> |pending| < size1 by {
          assert visited == visited1 ==> children == [];
        }
      }
      NoRefs();
      EndsExhausted(x, start, trace, reason);
      WalkEnds(x, filter, edgesLast, Now());
      selected, end := "", Exhausted;
    }

    /** route: one primary/edge walk from a clean start. `terminal` means the reason is final. */
    method Route(filter: bool) returns (selected: Ref, terminal: bool, ghost end: Ending)
      requires x.Valid() && (filter ==> x.provenance.Some?)
      requires x.request.purpose != "quota_reserve" ==> x.Policy().primaryProfiles != []
      modifies this
      ensures Distinct(trace) && Tries(trace) <= Limit(x)
      ensures terminal ==> selected == "" && reason in {SourceNotPermitted, SourceHasNoQuotaTrigger, PrimaryHasNoQuotaTrigger}
      ensures !terminal ==> Sound(x, filter, Roots(x), Primaries(x), trace, attempts)
      ensures !terminal ==> Ended(x, Roots(x), trace, selected, old(reason), reason, end)
      ensures IsRoute(x, filter, old(reason), Ran(Now(), selected, terminal, reason))
    {
      hide Judged, LookAt, RanWalk, AfterFirst, GroupsOf, LedTo, Covered, Sourced, Rejected, Refs, Targeted, Ids, Elems, Ended, IsGrouping, Fronted, Universe, Sound, Distinct, Tries, ListAt;
      selected, terminal, end := "", false, Exhausted;
      Restart();
      SoundAtStart(x, filter, Roots(x), Primaries(x));
      TargetsInUniverse(x);
      if x.request.purpose == "quota_reserve" {
        if x.request.sourceProfile !in x.binding.permittedProfiles {
          reason := SourceNotPermitted;
          terminal := true;
          return;
        }
        selected, terminal, end := RouteFromSource(filter);
      } else {
        selected, terminal, end := RouteFromPrimaries(filter);
      }
    }

    method RouteFromSource(filter: bool) returns (selected: Ref, terminal: bool, ghost end: Ending)
      requires x.Valid() && (filter ==> x.provenance.Some?)
      requires x.request.purpose == "quota_reserve"
      requires visited == {} && attempts == 0 && trace == []
      modifies this
      ensures Distinct(trace) && Tries(trace) <= Limit(x)
      ensures terminal ==> selected == "" && reason == SourceHasNoQuotaTrigger
      ensures !terminal ==> Sound(x, filter, Roots(x), Primaries(x), trace, attempts)
      ensures !terminal ==> Ended(x, Roots(x), trace, selected, old(reason), reason, end)
      ensures x.request.sourceProfile in x.binding.permittedProfiles ==>
                RanFromSource(x, filter, old(reason), Ran(Now(), selected, terminal, reason))
    {
      hide LookAt, Walks, LedTo, Covered, Sourced, Rejected, Refs, Targeted, Ids, Elems, Ended, IsGrouping, Fronted, Universe, Sound, Distinct, Tries, ListAt;
      var source := x.request.sourceProfile;
      SoundAtStart(x, filter, Roots(x), {});
      var r := Inspect(source, false);
      InspectedOnce(x, trace, attempts);
      if r != QuotaBlocked && r != ThresholdBlocked {
        reason := SourceHasNoQuotaTrigger;
        return "", true, Exhausted;
      }
      SoundAppend(x, filter, Roots(x), {}, [], 0, source);
      assert [] + [Trace(source, r)] == trace;
      IdsAppend([], Trace(source, r));
      var groups;
      ghost var runs;
      groups, runs := Groups(x, EdgesFrom(x, source));
      GroupingKeepsRefs(x, EdgesFrom(x, source), runs, groups);
      CoveredAppend(x, Roots(x), [], Roots(x), Trace(source, r), Refs(groups));
      SourcedNothing(x, Roots(x), []);
      SourcedAppend(x, Roots(x), [], {}, Trace(source, r), Refs(groups));
      RejectedAppend([], Trace(source, r));
      EdgesInUniverse(x, source, Refs(groups));
      TargetsInUniverse(x);
      NothingFronted(visited, groups);
      selected, end := Walk(groups, false, filter, Roots(x), {}, Roots(x), Universe(x), 0);
      SoundBounds(x, filter, Roots(x), {}, trace, attempts);
      terminal := false;
    }

    method RouteFromPrimaries(filter: bool) returns (selected: Ref, terminal: bool, ghost end: Ending)
      requires x.Valid() && (filter ==> x.provenance.Some?)
      requires x.request.purpose != "quota_reserve" && x.Policy().primaryProfiles != []
      requires visited == {} && attempts == 0 && trace == []
      modifies this
      ensures Distinct(trace) && Tries(trace) <= Limit(x)
      ensures terminal ==> selected == "" && reason == PrimaryHasNoQuotaTrigger
      ensures !terminal ==> Sound(x, filter, Roots(x), Primaries(x), trace, attempts)
      ensures !terminal ==> Ended(x, Roots(x), trace, selected, old(reason), reason, end)
      ensures RanFromPrimaries(x, filter, old(reason), Ran(Now(), selected, terminal, reason))
    {
      hide Judged, LookAt, Walks, GroupsOf, LedTo, Covered, Sourced, Rejected, Refs, Targeted, Ids, Elems, Ended, IsGrouping, Fronted, Universe, Sound, Distinct, Tries, ListAt;
      ghost var roots := Roots(x);
      SoundAtStart(x, filter, roots, roots);
      var groups, edges;
      ghost var runs, edgeRuns;
      groups, runs := Groups(x, x.Policy().primaryProfiles);
      FirstPrimary(x, runs, groups);
      var first := groups[0][0];
      var r := Inspect(first, filter);
      InspectedOnce(x, trace, attempts);
      if r == Available {
        SoundAppend(x, filter, roots, roots, [], 0, first);
        assert [] + [Trace(first, r)] == trace;
        EndsAt(x, roots, [], first, r, reason);
        return first, false, Found;
      }
      if !Blocked(r) {
        reason := PrimaryHasNoQuotaTrigger;
        return "", true, Exhausted;
      }
      edges, edgeRuns := Groups(x, EdgesFrom(x, first));
      GroupingKeepsRefs(x, EdgesFrom(x, first), edgeRuns, edges);
      var pending := if |groups[0]| > 1 then [groups[0][1..]] else [];
      pending := pending + groups[1..] + edges;
      ghost var front := |pending| - |edges|;
      assert trace == [Trace(first, r)] by { assert [] + [Trace(first, r)] == [Trace(first, r)]; }
      ReadyToWalk(x, filter, groups, edges, pending, front, r);
      TargetsInUniverse(x);
      selected, end := Walk(pending, true, filter, roots, roots, roots, Universe(x), front);
      SoundBounds(x, filter, roots, roots, trace, attempts);
      terminal := false;
    }
  }

  lemma SourcedRoots(x: Inputs, roots: set<Ref>, trace: seq<Trace>)
    ensures Sourced(x, roots, trace, roots)
  {}

  lemma EdgesInUniverse(x: Inputs, from: Ref, refs: set<Ref>)
    requires forall r | r in refs :: r in Roots(x) || r in EdgesFrom(x, from)
    ensures refs <= Universe(x) && Roots(x) <= Universe(x)
  {}

  lemma InspectedOnce(x: Inputs, trace: seq<Trace>, attempts: int)
    requires trace == [] || (|trace| == 1 && (trace[0].reason == NotIndependent || 0 < x.Policy().maxAttempts))
    ensures Distinct(trace) && Tries(trace) <= Limit(x)
  {}

  lemma SoundBounds(x: Inputs, filter: bool, roots: set<Ref>, primaries: set<Ref>, trace: seq<Trace>, attempts: int)
    requires x.Valid() && Sound(x, filter, roots, primaries, trace, attempts)
    ensures Distinct(trace) && Tries(trace) <= Limit(x)
  {}

  /** Behind a blocked first primary, everything the walk needs. */
  lemma ReadyToWalk(x: Inputs, filter: bool, groups: seq<seq<Ref>>, edges: seq<seq<Ref>>, pending: seq<seq<Ref>>, front: nat, r: Reason)
    requires x.Valid() && x.request.purpose != "quota_reserve"
    requires groups != [] && groups[0] != [] && Refs(groups) == Elems(x.Policy().primaryProfiles)
    requires r == Judged(x, filter, groups[0][0]) && Blocked(r)
    requires r != NotIndependent ==> 0 < Limit(x)
    requires forall e :: e in Refs(edges) <==> e in EdgesFrom(x, groups[0][0])
    requires pending == (if |groups[0]| > 1 then [groups[0][1..]] else []) + groups[1..] + edges
    requires front == |pending| - |edges|
    ensures var trace, roots := [Trace(groups[0][0], r)], Roots(x);
            && Sound(x, filter, roots, roots, trace, if r == NotIndependent then 0 else 1)
            && Rejected(trace) && Ids(trace) == {groups[0][0]}
            && Sourced(x, roots, trace, Refs(pending)) && Covered(x, roots, trace, Refs(pending))
            && Refs(pending) <= Universe(x) && Ids(trace) <= Universe(x)
            && Fronted(roots, Ids(trace), pending, front)
  {
    hide Judged, LedTo, Covered, Sourced, Rejected, Refs, Elems, Fronted, Universe, Sound, EdgesFrom, Ids, ListAt;
    var first, roots := groups[0][0], Roots(x);
    var t := Trace(first, r);
    assert first in roots by { RefsHead(groups); ElemsHead(groups[0]); }
    SoundAtStart(x, filter, roots, roots);
    SoundAppend(x, filter, roots, roots, [], 0, first);
    assert [] + [t] == [t];
    IdsAppend([], t);
    PendingAfterFirst(x, groups, edges, pending, front);
    CoveredAppend(x, roots, [], roots, t, Refs(pending));
    SourcedRoots(x, roots, []);
    SourcedAppend(x, roots, [], roots, t, Refs(pending));
    RejectedAppend([], t);
    EdgesInUniverse(x, first, Refs(pending));
  }

  lemma NothingFronted(seen: set<Ref>, groups: seq<seq<Ref>>)
    ensures Fronted({}, seen, groups, 0)
  {}

  lemma FirstPrimary(x: Inputs, runs: seq<seq<Ref>>, groups: seq<seq<Ref>>)
    requires x.Policy().primaryProfiles != [] && IsGrouping(x, x.Policy().primaryProfiles, runs, groups)
    ensures groups != [] && groups[0] != []
    ensures Refs(groups) == Elems(x.Policy().primaryProfiles) && groups[0][0] in Refs(groups)
  {
    GroupingKeepsRefs(x, x.Policy().primaryProfiles, runs, groups);
    hide IsGrouping;
    assert x.Policy().primaryProfiles[0] in Refs(groups);
    assert groups[0] in groups;
    assert groups[0][0] in groups[0];
  }

  /** Where a route may start. */
  ghost function Roots(x: Inputs): set<Ref> {
    if x.request.purpose == "quota_reserve" then {x.request.sourceProfile} else Elems(x.Policy().primaryProfiles)
  }

  /** The profiles that come before any reserve edge: on a new launch, the primaries. */
  ghost function Primaries(x: Inputs): set<Ref> {
    if x.request.purpose == "quota_reserve" then {} else Elems(x.Policy().primaryProfiles)
  }

  /** Everything a route can meet. */
  ghost function Universe(x: Inputs): set<Ref> {
    Roots(x) + set from, r | from in x.Policy().quotaEdges && r in x.Policy().quotaEdges[from] :: r
  }

  lemma TargetsInUniverse(x: Inputs)
    ensures forall r | Targeted(x, r) :: r in Universe(x)
  {}

  lemma SoundAtStart(x: Inputs, filter: bool, roots: set<Ref>, primaries: set<Ref>)
    requires x.Valid()
    ensures Sound(x, filter, roots, primaries, [], 0) && Ids([]) == {} && Rejected([])
    ensures Covered(x, roots, [], roots)
  {}

  /** What is pending behind the first primary: the rest of its group, the other primary groups, then its edges. */
  lemma PendingAfterFirst(x: Inputs, groups: seq<seq<Ref>>, edges: seq<seq<Ref>>, pending: seq<seq<Ref>>, front: nat)
    requires groups != [] && groups[0] != [] && Refs(groups) == Elems(x.Policy().primaryProfiles)
    requires pending == (if |groups[0]| > 1 then [groups[0][1..]] else []) + groups[1..] + edges
    requires front == |pending| - |edges|
    ensures Refs(pending) + {groups[0][0]} == Refs(groups) + Refs(edges) + {groups[0][0]}
    ensures Refs(edges) <= Refs(pending) <= Refs(groups) + Refs(edges)
    ensures Fronted(Refs(groups), {groups[0][0]}, pending, front)
  {
    var tail := if |groups[0]| > 1 then [groups[0][1..]] else [];
    RefsHead(groups);
    ElemsHead(groups[0]);
    RefsConcat(tail, groups[1..]);
    RefsConcat(tail + groups[1..], edges);
    assert pending[..front] == tail + groups[1..];
    NoRefs();
    if |groups[0]| > 1 {
      RefsHead(tail);
      assert tail[1..] == [];
    } else {
      assert Elems(groups[0][1..]) == {};
    }
  }

  /** Some quota edge leads to r. */
  ghost predicate Targeted(x: Inputs, r: Ref) {
    exists from :: r in EdgesFrom(x, from)
  }

  lemma SourcedNothing(x: Inputs, roots: set<Ref>, trace: seq<Trace>)
    ensures Sourced(x, roots, trace, {})
  {}

  lemma SourcedGrows(x: Inputs, roots: set<Ref>, trace: seq<Trace>, longer: seq<Trace>, refs: set<Ref>)
    requires trace <= longer && Sourced(x, roots, trace, refs)
    ensures Sourced(x, roots, longer, refs)
  {}

  lemma SourcedAt(x: Inputs, roots: set<Ref>, trace: seq<Trace>, longer: seq<Trace>, refs: set<Ref>, r: Ref)
    requires trace <= longer && Sourced(x, roots, trace, refs) && r in refs
    ensures r in roots || LedTo(x, longer, r)
  {}

  lemma SourcedUnion(x: Inputs, roots: set<Ref>, trace: seq<Trace>, a: set<Ref>, b: set<Ref>)
    requires Sourced(x, roots, trace, a) && Sourced(x, roots, trace, b)
    ensures Sourced(x, roots, trace, a + b)
  {}

  lemma SourcedParts(x: Inputs, roots: set<Ref>, trace: seq<Trace>, a: set<Ref>, b: set<Ref>)
    requires Sourced(x, roots, trace, a + b)
    ensures Sourced(x, roots, trace, a) && Sourced(x, roots, trace, b)
  {}

  lemma EndsExhausted(x: Inputs, start: set<Ref>, trace: seq<Trace>, before: Reason)
    requires Rejected(trace) && Covered(x, start, trace, {})
    ensures Ended(x, start, trace, "", before, before, Exhausted)
  {}

  /** The first pending group is all primaries, or every primary has been inspected. */
  lemma FrontHead(primaries: set<Ref>, seen: set<Ref>, pending: seq<seq<Ref>>, front: nat)
    requires Fronted(primaries, seen, pending, front) && pending != []
    ensures Elems(pending[0]) <= primaries || primaries <= seen
  {}

  lemma FrontNext(primaries: set<Ref>, seen: set<Ref>, seen': set<Ref>, group: seq<Ref>, rest: seq<seq<Ref>>,
                  children: seq<seq<Ref>>, front: nat)
    requires Fronted(primaries, seen, [group] + rest, front) && seen <= seen' && Elems(group) <= seen'
    ensures Fronted(primaries, seen', rest + children, if front > 0 then front - 1 else 0)
  {
    var pending := [group] + rest;
    if front > 0 {
      RefsHead(pending[..front]);
      assert pending[..front][1..] == rest[..front - 1];
      assert (rest + children)[..front - 1] == rest[..front - 1];
    } else {
      NoRefs();
    }
  }

  lemma NoRefs()
    ensures Refs([]) == {}
  {}

  lemma RejectedAppend(trace: seq<Trace>, t: Trace)
    requires Rejected(trace) && t.reason != Available && !Unknown(t.reason)
    ensures Rejected(trace + [t])
  {}

  lemma EndsAt(x: Inputs, start: set<Ref>, trace: seq<Trace>, ref: Ref, r: Reason, before: Reason)
    requires Rejected(trace)
    ensures r == Available ==> Ended(x, start, trace + [Trace(ref, r)], ref, before, before, Found)
    ensures Unknown(r) ==> Ended(x, start, trace + [Trace(ref, r)], "", before, SiblingEvidenceUnknown, UnknownEvidence)
  {}

  lemma EndsOutOfAttempts(x: Inputs, start: set<Ref>, trace: seq<Trace>, before: Reason)
    requires Rejected(trace) && Tries(trace) == Limit(x)
    ensures Ended(x, start, trace, "", before, AttemptLimit, OutOfAttempts)
  {}

  lemma AlreadyCovered(x: Inputs, start: set<Ref>, trace: seq<Trace>, todo: set<Ref>, ref: Ref)
    requires Covered(x, start, trace, todo + {ref}) && ref in Ids(trace)
    ensures Covered(x, start, trace, todo)
  {}

  lemma AttemptsSpent(x: Inputs, filter: bool, roots: set<Ref>, primaries: set<Ref>, trace: seq<Trace>, attempts: int)
    requires x.Valid() && Sound(x, filter, roots, primaries, trace, attempts) && attempts >= x.Policy().maxAttempts
    ensures Tries(trace) == Limit(x)
  {}

  lemma AssessReasons(x: Inputs, ref: Ref)
    requires x.Valid()
    ensures Assess(x, ref) !in {NotIndependent, AttemptLimit, AlreadyVisited}
  {
    if ref in x.catalog.profiles {
      var profile := x.catalog.profiles[ref];
      var refs := ListAt(AccountAt(x.catalog, profile.accountRef).quotaPoolsByMode, profile.executionMode);
      VerdictReasons(x, x.EvidenceAt(ref), refs, false, false);
    }
  }

  lemma {:induction false} VerdictReasons(x: Inputs, observation: Evidence, refs: seq<Ref>, quota: bool, threshold: bool)
    requires x.Valid()
    ensures PoolsVerdict(x, observation, refs, quota, threshold) !in {NotIndependent, AttemptLimit, AlreadyVisited}
    decreases refs
  {
    if refs != [] {
      VerdictReasons(x, observation, refs[1..], quota, threshold);
      VerdictReasons(x, observation, refs[1..], true, threshold);
      VerdictReasons(x, observation, refs[1..], quota, true);
    }
  }
}
