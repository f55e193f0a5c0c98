/** What the trace of a preview says, told in the fields of its inputs. */
module TraceLaws {
  import opened Options
  import opened RuntimeCatalog
  import opened RuntimePreview
  import opened RuntimeGroups
  import opened RuntimeWalk
  import opened RuntimeRoute
  import opened RuntimeDecision
  import opened AssessmentLaws
  import opened PreviewLaws
  import opened WalkOrder

  const BLOCKING := {QuotaBlocked, ThresholdBlocked, NotIndependent}
  const UNKNOWN := {PoolEvidenceUnknown, PoolEvidenceUnavailable, ControllerUnavailable}
  const FINAL := {SourceNotPermitted, SourceHasNoQuotaTrigger, PrimaryHasNoQuotaTrigger}

  predicate EdgeIn(x: Inputs, from: Ref, to: Ref) {
    from in x.binding.policy.quotaEdges && to in x.binding.policy.quotaEdges[from]
  }

  /** The source of a quota reserve, or a primary of a new launch. */
  predicate Root(x: Inputs, ref: Ref) {
    if x.request.purpose == "quota_reserve" then ref == x.request.sourceProfile else ref in x.binding.policy.primaryProfiles
  }

  /** An earlier blocked entry has a quota edge to it. */
  ghost predicate LedThere(x: Inputs, trace: seq<Trace>, j: nat)
    requires j < |trace|
  {
    exists i :: 0 <= i < j && trace[i].reason in BLOCKING && EdgeIn(x, trace[i].profile, trace[j].profile)
  }

  lemma WalkedInWords(x: Inputs, filter: bool, trace: seq<Trace>)
    requires x.Valid() && Walked(x, filter, trace)
    ensures forall i | 0 <= i < |trace| :: Recorded(x, filter, trace[i].profile, trace[i].reason)
    ensures forall j | 0 <= j < |trace| :: Root(x, trace[j].profile) || LedThere(x, trace, j)
    ensures forall i | 0 <= i < |trace| - 1 :: trace[i].reason != Available && trace[i].reason !in UNKNOWN
  {
    hide Judged, Recorded, PrimariesFirst, LedThere, LedTo, Roots, Root;
    var n := |trace| - 1;
    forall i | 0 <= i <= n
      ensures Recorded(x, filter, trace[i].profile, trace[i].reason)
      ensures Root(x, trace[i].profile) || LedThere(x, trace, i)
    {
      assert trace[i] in trace;
      JudgedIsRecorded(x, filter, trace[i].profile, trace[i].reason);
      RootOrLed(x, trace, i);
    }
    if trace != [] { assert forall i | 0 <= i < n :: trace[..n][i] == trace[i] && trace[i] in trace[..n]; }
  }

  /** Each profile is looked at once; each entry's reason is the one of the table, or of the filter; each profile is a root
      or led to by an earlier blocked entry; only the last entry is available or unknown, and unknown evidence is what the
      preview then reports. */
  lemma TraceInWords(x: Inputs, p: Preview, filter: bool)
    requires x.Valid() && RouteBehind(x, p, filter) && Starts(x) && p.reason !in FINAL
    ensures forall i, j | 0 <= i < j < |p.trace| :: p.trace[i].profile != p.trace[j].profile
    ensures forall i | 0 <= i < |p.trace| :: Recorded(x, filter, p.trace[i].profile, p.trace[i].reason)
    ensures forall j | 0 <= j < |p.trace| :: Root(x, p.trace[j].profile) || LedThere(x, p.trace, j)
    ensures forall i | 0 <= i < |p.trace| - 1 :: p.trace[i].reason != Available && p.trace[i].reason !in UNKNOWN
    ensures p.reason == SiblingEvidenceUnknown <==> p.trace != [] && p.trace[|p.trace| - 1].reason in UNKNOWN
    ensures p.selected != "" ==> p.trace != [] && p.trace[|p.trace| - 1] == Trace(p.selected, Available)
  {
    StartsIffRouted(x);
    hide Walked, Recorded, InVain, Tries, Limit, LedThere, Root, Starts, Routed, Rejected;
    WalkedInWords(x, filter, p.trace);
  }

  lemma RootOrLed(x: Inputs, trace: seq<Trace>, j: nat)
    requires j < |trace| && (trace[j].profile in Roots(x) || LedTo(x, trace[..j], trace[j].profile))
    ensures Root(x, trace[j].profile) || LedThere(x, trace, j)
  {
    if LedTo(x, trace[..j], trace[j].profile) {
      var i :| 0 <= i < j && LeadsTo(x, trace[..j][i], trace[j].profile);
      assert EdgeIn(x, trace[i].profile, trace[j].profile);
    }
  }

  /** A quota- or threshold-blocked entry rests on a fresh fact for every pool it draws on, and no route goes on from a
      profile it could not get evidence for. */
  lemma BlockedOnFreshEvidence(x: Inputs, p: Preview, filter: bool, i: nat)
    requires x.Valid() && RouteBehind(x, p, filter) && Starts(x) && p.reason !in FINAL
    requires i < |p.trace| && p.trace[i].reason in {QuotaBlocked, ThresholdBlocked}
    ensures var ref := p.trace[i].profile;
            && Permitted(x, ref) && Reporting(x, ref)
            && forall pool | pool in PoolsOf(x, x.catalog.profiles[ref]) ::
                 || In(x, x.evidence[ref], pool, "available") || In(x, x.evidence[ref], pool, "exhausted")
                 || AtThreshold(x, x.evidence[ref], pool)
    ensures var ref := p.trace[i].profile;
            if p.trace[i].reason == QuotaBlocked
            then exists pool :: pool in PoolsOf(x, x.catalog.profiles[ref]) && In(x, x.evidence[ref], pool, "exhausted")
            else exists pool :: pool in PoolsOf(x, x.catalog.profiles[ref]) && AtThreshold(x, x.evidence[ref], pool)
  {
    TraceInWords(x, p, filter);
    hide RouteBehind, Starts, In, AtThreshold, StopsAt, PoolsOf;
    assert AssessmentTable(x, p.trace[i].profile, p.trace[i].reason);
  }

  /** No reserve before every primary was looked at. */
  lemma PrimariesBeforeEdges(x: Inputs, p: Preview, filter: bool, j: nat, primary: Ref)
    requires x.Valid() && RouteBehind(x, p, filter) && Starts(x) && p.reason !in FINAL
    requires x.request.purpose == "new_launch" && j < |p.trace|
    requires p.trace[j].profile !in x.binding.policy.primaryProfiles && primary in x.binding.policy.primaryProfiles
    ensures exists i :: 0 <= i < j && p.trace[i].profile == primary
  {
    StartsIffRouted(x);
    hide Judged, InVain, Tries, Limit, Honest, Justified;
    assert primary in Ids(p.trace[..j]);
    var t :| t in p.trace[..j] && t.profile == primary;
    var i :| 0 <= i < j && p.trace[..j][i] == t;
    assert p.trace[i] == t;
  }

  /** A preview that ran out of candidates has looked at every root and at the target of every edge out of a blocked entry,
      and found nothing available and nothing unknown. */
  lemma NothingLeftOut(x: Inputs, p: Preview, filter: bool, ref: Ref)
    requires x.Valid() && RouteBehind(x, p, filter) && Starts(x) && "" !in x.catalog.profiles
    requires p.reason == NoAvailableRoute
    requires Root(x, ref) || exists i :: 0 <= i < |p.trace| && p.trace[i].reason in BLOCKING && EdgeIn(x, p.trace[i].profile, ref)
    ensures exists i :: 0 <= i < |p.trace| && p.trace[i].profile == ref
    ensures forall i | 0 <= i < |p.trace| :: p.trace[i].reason != Available && p.trace[i].reason !in UNKNOWN
  {
    StartsIffRouted(x);
    hide InVain, Walked, Distinct, Tries, Starts, Routed, Root, Won, StopsAtUnknown;
    InVainLeavesNothing(x, filter, p.trace, ref);
  }

  lemma InVainLeavesNothing(x: Inputs, filter: bool, trace: seq<Trace>, ref: Ref)
    requires x.Valid() && InVain(x, filter, trace, NoAvailableRoute)
    requires Root(x, ref) || exists i :: 0 <= i < |trace| && trace[i].reason in BLOCKING && EdgeIn(x, trace[i].profile, ref)
    ensures exists i :: 0 <= i < |trace| && trace[i].profile == ref
    ensures forall i | 0 <= i < |trace| :: trace[i].reason != Available && trace[i].reason !in UNKNOWN
  {
    hide Honest, Tries, LedTo;
    assert forall i | 0 <= i < |trace| :: trace[i] in trace;
    if !Root(x, ref) {
      var i :| 0 <= i < |trace| && trace[i].reason in BLOCKING && EdgeIn(x, trace[i].profile, ref);
      LeadsThere(x, trace, i, ref);
    }
    assert ref in Ids(trace);
    var t :| t in trace && t.profile == ref;
  }

  lemma LeadsThere(x: Inputs, trace: seq<Trace>, i: nat, ref: Ref)
    requires i < |trace| && trace[i].reason in BLOCKING && EdgeIn(x, trace[i].profile, ref)
    ensures LedTo(x, trace, ref)
  {
    assert LeadsTo(x, trace[i], ref);
  }

  // ----- attempts -----

  /** The entries that spend an attempt. */
  ghost function Spent(trace: seq<Trace>): set<nat> {
    set i: nat | i < |trace| && trace[i].reason != NotIndependent
  }

  lemma {:induction false} TriesAreSpent(trace: seq<Trace>)
    ensures Tries(trace) == |Spent(trace)|
  {
    if trace != [] {
      var n := |trace| - 1;
      TriesAreSpent(trace[..n]);
      var before := Spent(trace[..n]);
      assert Spent(trace) == if trace[n].reason == NotIndependent then before else before + {n};
    }
  }

  /** At most as many entries as the policy allows attempts, those skipped by the filter not counted; where the limit is
      the reason, exactly as many. */
  lemma AttemptsInWords(x: Inputs, p: Preview, filter: bool)
    requires x.Valid() && RouteBehind(x, p, filter)
    ensures var limit := if x.binding.policy.maxAttempts < 0 then 0 else x.binding.policy.maxAttempts;
            && |Spent(p.trace)| <= limit
            && (p.reason == AttemptLimit && Starts(x) && "" !in x.catalog.profiles ==>
                  || |Spent(p.trace)| == limit
                  || forall ref | Root(x, ref) :: exists i :: 0 <= i < |p.trace| && p.trace[i].profile == ref)
  {
    StartsIffRouted(x);
    TriesAreSpent(p.trace);
    hide Judged, Honest, Justified, PrimariesFirst, Tries, LedTo, Distinct, Spent, Starts, Routed;
    if p.reason == AttemptLimit && Starts(x) && "" !in x.catalog.profiles && |Spent(p.trace)| != Limit(x) {
      forall ref | Root(x, ref) ensures exists i :: 0 <= i < |p.trace| && p.trace[i].profile == ref {
        assert ref in Ids(p.trace);
        var t :| t in p.trace && t.profile == ref;
      }
    }
  }

  // ----- the order -----

  /** A dive ends the route this way. */
  ghost predicate Dove(x: Inputs, filter: bool, m: Machine, groups: seq<seq<Ref>>, before: Reason, r: Ran)
    requires x.Valid()
  {
    exists k: nat, stop :: Dive(x, filter, m, groups, k) == Some((r.m, stop)) && Shows(stop, r.selected, before, r.reason)
  }

  ghost predicate Layered(x: Inputs, filter: bool, m: Machine, groups: seq<seq<Ref>>, before: Reason, r: Ran)
    requires x.Valid()
  {
    exists k: nat, stop :: Layers(x, filter, m, groups, k) == Some((r.m, stop)) && Shows(stop, r.selected, before, r.reason)
  }

  /** Behind the source a route dives: a group, then all its edges lead to, then the next group. */
  lemma SourceRouteDives(x: Inputs, filter: bool, before: Reason, r: Ran)
    requires x.Valid() && IsRoute(x, filter, before, r) && x.request.purpose == "quota_reserve" && !r.terminal
    ensures var source := x.request.sourceProfile;
            exists reason ::
              && Recorded(x, false, source, reason) && reason in {QuotaBlocked, ThresholdBlocked}
              && Dove(x, filter, Machine({source}, 1, [Trace(source, reason)]), GroupsOf(x, ListAt(x.binding.policy.quotaEdges, source)), before, r)
  {
    hide GroupsOf, Walks, Recorded, Dive, Judged;
    var source := x.request.sourceProfile;
    var (m, reason) := LookAt(x, false, START, source);
    JudgedIsRecorded(x, false, source, reason);
    assert m == Machine({source}, 1, [Trace(source, reason)]);
    var groups := GroupsOf(x, EdgesFrom(x, source));
    var stop :| Walks(x, filter, false, m, groups, (r.m, stop)) && Shows(stop, r.selected, before, r.reason);
    FrontIsDepthFirst(x, filter, m, groups, (r.m, stop));
  }

  /** The first look of a route. */
  lemma LooksFirst(x: Inputs, filter: bool, ref: Ref)
    requires x.Valid()
    ensures var (m, reason) := LookAt(x, filter, START, ref);
            reason != AttemptLimit ==>
              reason == Judged(x, filter, ref) && m == Machine({ref}, if reason == NotIndependent then 0 else 1, [Trace(ref, reason)])
  {
    hide Judged;
  }

  /** What is pending behind the first primary: the rest of its group, the other primaries, and then its edges. */
  ghost function Behind(x: Inputs, groups: seq<seq<Ref>>): seq<seq<Ref>>
    requires groups != [] && groups[0] != []
  {
    (if |groups[0]| > 1 then [groups[0][1..]] else []) + groups[1..] + GroupsOf(x, ListAt(x.binding.policy.quotaEdges, groups[0][0]))
  }

  /** Behind a blocked first primary a route goes layer by layer; an available one is selected at once. */
  lemma PrimaryRouteIsLayered(x: Inputs, filter: bool, before: Reason, r: Ran)
    requires x.Valid() && IsRoute(x, filter, before, r) && x.request.purpose != "quota_reserve" && !r.terminal
    ensures var groups := GroupsOf(x, x.binding.policy.primaryProfiles);
            && groups != [] && groups[0] != []
            && (Recorded(x, filter, groups[0][0], Available) ==>
                  r == Ran(Machine({groups[0][0]}, 1, [Trace(groups[0][0], Available)]), groups[0][0], false, before))
            && (!Recorded(x, filter, groups[0][0], Available) ==>
                  exists reason | reason in BLOCKING :: Recorded(x, filter, groups[0][0], reason) &&
                    Layered(x, filter, Machine({groups[0][0]}, if reason == NotIndependent then 0 else 1, [Trace(groups[0][0], reason)]),
                            Behind(x, groups), before, r))
  {
    hide GroupsOf, Walks, Recorded, Layers, Judged, LookAt;
    var groups := GroupsOf(x, x.binding.policy.primaryProfiles);
    var first := groups[0][0];
    var (m, reason) := LookAt(x, filter, START, first);
    LooksFirst(x, filter, first);
    JudgedIsRecorded(x, filter, first, reason);
    JudgedIsRecorded(x, filter, first, Available);
    if reason != Available {
      assert m == Machine({first}, if reason == NotIndependent then 0 else 1, [Trace(first, reason)]);
      var stop :| Walks(x, filter, true, m, AfterFirst(x, groups), (r.m, stop)) && Shows(stop, r.selected, before, r.reason);
      BehindIsLayerByLayer(x, filter, m, AfterFirst(x, groups), (r.m, stop));
      assert Behind(x, groups) == AfterFirst(x, groups);
    }
  }
}
