/** PreviewRuntime: the checks before a route, the filtered route, and the relaxation of strict review. */
module RuntimeDecision {
  import opened Options
  import opened RuntimeCatalog
  import opened RuntimePreview
  import opened RuntimeWalk
  import opened RuntimeRoute

  predicate WellFormedRequest(r: Request) {
    (r.purpose == "new_launch" && r.sourceProfile == "") || (r.purpose == "quota_reserve" && r.sourceProfile != "")
  }

  /** The provenance covers exactly the artifact under review, completely. */
  predicate ExactProvenance(x: Inputs) {
    x.provenance.Some? &&
    var p := x.provenance.value;
    p.complete && p.authors != [] && p.artifact == x.request.artifact && p.revision == x.request.artifactRevision
  }

  /** No author is the reviewing agent, and every author is identified. */
  predicate ReviewerIsNoAuthor(x: Inputs) {
    x.provenance.Some? &&
    forall a | a in x.provenance.value.authors :: a.agent != "" && a.agent != x.binding.identity.agent
  }

  /** The request gets as far as a route. */
  ghost predicate Routed(x: Inputs) {
    && x.enabled && x.binding.enabled && WellFormedRequest(x.request)
    && (x.IsReview() ==> ExactProvenance(x) && ReviewerIsNoAuthor(x))
  }

  /** Why a request is refused before any route, the first reason in the source's order. */
  ghost function RefusalOf(x: Inputs): Option<Reason> {
    if !x.enabled || !x.binding.enabled then Some(Disabled)
    else if !WellFormedRequest(x.request) then Some(RequestStateInvalid)
    else if x.IsReview() && !ExactProvenance(x) then Some(ProvenanceUnavailable)
    else if x.IsReview() && !ReviewerIsNoAuthor(x) then Some(ReviewerIsAuthor)
    else None
  }

  /** The preview a finished route gives. */
  function Shown(x: Inputs, r: Ran, independentPick: bool, qaMode: string, qaCompromise: bool): Preview {
    if r.selected == "" then Preview("", "", "", r.reason, r.m.trace, qaMode, qaCompromise)
    else
      var account := ProfileAt(x.catalog, r.selected).accountRef;
      Preview(r.selected, account, StringAt(x.Policy().preferredAccounts, AccountAt(x.catalog, account).provider),
              if independentPick then IndependentReviewerSelected else ProfileSelected, r.m.trace, qaMode, qaCompromise)
  }

  /** The filtered route found no independent reviewer, for want of candidates or of attempts. */
  predicate NoReviewer(x: Inputs, first: Ran) {
    && !first.terminal && first.selected == "" && x.Filters()
    && (first.reason == NoAvailableRoute || first.reason == AttemptLimit)
  }

  /** What follows from the first route: its own result, a refusal to relax, or the result of an unfiltered route. */
  ghost predicate Follows(x: Inputs, first: Ran, p: Preview)
    requires x.Valid()
  {
    var mode := x.Policy().qa.mode;
    if !NoReviewer(x, first) || (mode != "strict" && mode != "prefer") then
      p == Shown(x, first, x.Filters(), if x.IsReview() then mode else "", false)
    else if mode == "strict" && !MayRelax(x) then
      p == Preview("", "", "", StrictReviewUnavailable, first.m.trace, mode, false)
    else
      exists second :: IsRoute(x, false, first.reason, second) && p == Shown(x, second, false, "prefer", mode == "strict")
  }

  /** The one preview the inputs determine. */
  ghost predicate IsPreview(x: Inputs, p: Preview)
    requires x.Valid()
  {
    match RefusalOf(x)
    case Some(r) =>
      p == Preview("", "", "", r, [],
                   if x.IsReview() && r != Disabled && r != RequestStateInvalid then x.Policy().qa.mode else "", false)
    case None => exists first :: IsRoute(x, x.Filters(), NoAvailableRoute, first) && Follows(x, first, p)
  }

  /** The decision is a function of the inputs. */
  lemma PreviewIsDetermined(x: Inputs, p: Preview, q: Preview)
    requires x.Valid() && IsPreview(x, p) && IsPreview(x, q)
    ensures p == q
  {
    hide IsRoute, MayRelax, Shown, NoReviewer;
    if RefusalOf(x).None? {
      var first :| IsRoute(x, x.Filters(), NoAvailableRoute, first) && Follows(x, first, p);
      var other :| IsRoute(x, x.Filters(), NoAvailableRoute, other) && Follows(x, other, q);
      RouteIsDetermined(x, x.Filters(), NoAvailableRoute, first, other);
      if NoReviewer(x, first) && p != q {
        var second :| IsRoute(x, false, first.reason, second)
                      && p == Shown(x, second, false, "prefer", x.Policy().qa.mode == "strict");
        var third :| IsRoute(x, false, first.reason, third)
                     && q == Shown(x, third, false, "prefer", x.Policy().qa.mode == "strict");
        RouteIsDetermined(x, false, first.reason, second, third);
      }
    }
  }

  /** What a preview says about the route behind it, `filter` telling whether its last route was filtered. */
  ghost predicate RouteBehind(x: Inputs, p: Preview, filter: bool)
    requires x.Valid()
  {
    && Distinct(p.trace) && Tries(p.trace) <= Limit(x)
    && (Routed(x) && !AtTheStart(p.reason) ==> Walked(x, filter, p.trace) && StopsAtUnknown(p.trace, p.reason))
    && (p.selected != "" ==> Won(p.trace, p.selected) && Walked(x, filter, p.trace))
    && ((p.reason == NoAvailableRoute || p.reason == AttemptLimit) && Routed(x) && "" !in x.catalog.profiles ==>
          InVain(x, filter, p.trace, p.reason))
  }

  /** A refusal that the first candidate decides. */
  predicate AtTheStart(reason: Reason) {
    reason == SourceNotPermitted || reason == SourceHasNoQuotaTrigger || reason == PrimaryHasNoQuotaTrigger
  }

  /** A trace the walk can leave: true reasons, every profile led to, primaries first, and nothing after an entry that
      ends a walk. */
  ghost predicate Walked(x: Inputs, filter: bool, trace: seq<Trace>)
    requires x.Valid()
  {
    && Honest(x, filter, trace) && Justified(x, Roots(x), trace) && PrimariesFirst(Primaries(x), trace)
    && (trace != [] ==> Rejected(trace[..|trace| - 1]))
  }

  /** Evidence that could not be had ends a walk with its own reason, and only that does. */
  ghost predicate StopsAtUnknown(trace: seq<Trace>, reason: Reason) {
    reason == SiblingEvidenceUnknown <==> trace != [] && Unknown(trace[|trace| - 1].reason)
  }

  /** Everything inspected was rejected, and nothing more could be: the attempts are spent, or everything led to was
      inspected. */
  ghost predicate InVain(x: Inputs, filter: bool, trace: seq<Trace>, reason: Reason)
    requires x.Valid()
  {
    && Rejected(trace) && Honest(x, filter, trace)
    && (Covered(x, Roots(x), trace, {}) || (reason == AttemptLimit && Tries(trace) == Limit(x)))
  }

  /** What review promises about a selected profile. */
  ghost predicate ReviewKept(x: Inputs, p: Preview)
    requires x.Valid()
  {
    && (p.selected != "" ==> Usable(x, p.selected))
    && (p.selected != "" && x.IsReview() ==> ExactProvenance(x) && ReviewerIsNoAuthor(x))
    && (p.reason == IndependentReviewerSelected ==> p.selected != "" && IndependentReviewer(x, p.selected))
    && (p.qaCompromise ==> x.IsReview() && x.Policy().qa.mode == "strict" && MayRelax(x))
    && (p.selected != "" && x.IsReview() && x.Policy().qa.mode == "strict" ==>
          if p.qaCompromise then !IndependentReviewer(x, p.selected) else IndependentReviewer(x, p.selected))
  }

  /** The checks made before any route, in their order; None lets the request through. */
  method Refusal(x: Inputs) returns (refusal: Option<Reason>)
    ensures refusal == RefusalOf(x)
    ensures refusal.None? <==> Routed(x)
    ensures refusal.Some? ==> refusal.value in {Disabled, RequestStateInvalid, ProvenanceUnavailable, ReviewerIsAuthor}
    ensures refusal == Some(ReviewerIsAuthor) ==>
              exists a :: x.provenance.Some? && a in x.provenance.value.authors
                          && (a.agent == "" || a.agent == x.binding.identity.agent)
  {
    if !x.enabled || !x.binding.enabled {
      return Some(Disabled);
    }
    if x.request.purpose != "new_launch" && x.request.purpose != "quota_reserve" {
      return Some(RequestStateInvalid);
    }
    if (x.request.purpose == "new_launch" && x.request.sourceProfile != "")
       || (x.request.purpose == "quota_reserve" && x.request.sourceProfile == "") {
      return Some(RequestStateInvalid);
    }
    if x.IsReview() {
      if x.provenance.None? || !x.provenance.value.complete || x.provenance.value.authors == []
         || x.provenance.value.artifact != x.request.artifact || x.provenance.value.revision != x.request.artifactRevision {
        return Some(ProvenanceUnavailable);
      }
      var authors := x.provenance.value.authors;
      for i := 0 to |authors|
        invariant forall j | 0 <= j < i :: authors[j].agent != "" && authors[j].agent != x.binding.identity.agent
      {
        if authors[i].agent == "" || authors[i].agent == x.binding.identity.agent {
          assert authors[i] in authors;
          return Some(ReviewerIsAuthor);
        }
      }
    }
    return None;
  }

  /** What one unfinished or finished route gives the preview. */
  ghost predicate RouteGives(x: Inputs, filter: bool, trace: seq<Trace>, selected: Ref, reason: Reason)
    requires x.Valid()
  {
    && Distinct(trace) && Tries(trace) <= Limit(x) && Walked(x, filter, trace)
    && StopsAtUnknown(trace, reason)
    && (selected != "" ==> Won(trace, selected))
    && (selected == "" && (reason == NoAvailableRoute || reason == AttemptLimit) && "" !in x.catalog.profiles ==>
          InVain(x, filter, trace, reason))
  }

  /** Only the last entry can have ended the walk. */
  lemma RejectedBeforeLast(x: Inputs, start: set<Ref>, trace: seq<Trace>, selected: Ref, before: Reason, reason: Reason, end: Ending)
    requires Ended(x, start, trace, selected, before, reason, end) && trace != []
    ensures Rejected(trace[..|trace| - 1])
    ensures before != SiblingEvidenceUnknown ==> StopsAtUnknown(trace, reason)
  {
    assert trace[|trace| - 1] in trace;
    assert forall t | t in trace[..|trace| - 1] :: t in trace;
  }

  lemma RouteResult(x: Inputs, filter: bool, trace: seq<Trace>, attempts: int, selected: Ref, before: Reason, reason: Reason, end: Ending)
    requires x.Valid() && Sound(x, filter, Roots(x), Primaries(x), trace, attempts)
    requires Ended(x, Roots(x), trace, selected, before, reason, end) && before in {NoAvailableRoute, AttemptLimit}
    ensures RouteGives(x, filter, trace, selected, reason)
    ensures reason in {before, AttemptLimit, SiblingEvidenceUnknown}
  {
    hide Assess, Justified, PrimariesFirst, Covered, Distinct, Tries, Roots, Primaries, Rejected, IndependentReviewer, Unknown;
    if trace != [] { RejectedBeforeLast(x, Roots(x), trace, selected, before, reason, end); }
    if end == Found && selected == "" {
      assert trace[|trace| - 1] in trace;
      assert Assess(x, "") == Available;
      AvailableIffUsable(x, "");
    }
  }

  /** One route and what it gives. */
  method RunRoute(router: Router, filter: bool) returns (selected: Ref, terminal: bool)
    requires router.x.Valid() && (filter ==> router.x.provenance.Some?)
    requires router.x.request.purpose != "quota_reserve" ==> router.x.Policy().primaryProfiles != []
    requires router.reason in {NoAvailableRoute, AttemptLimit}
    modifies router
    ensures IsRoute(router.x, filter, old(router.reason), Ran(router.Now(), selected, terminal, router.reason))
    ensures Distinct(router.trace) && Tries(router.trace) <= Limit(router.x)
    ensures terminal ==> selected == "" && router.reason in {SourceNotPermitted, SourceHasNoQuotaTrigger, PrimaryHasNoQuotaTrigger}
    ensures !terminal ==> RouteGives(router.x, filter, router.trace, selected, router.reason)
    ensures !terminal ==> router.reason in {old(router.reason), AttemptLimit, SiblingEvidenceUnknown}
  {
    hide IsRoute, RouteGives, Sound, Ended, Distinct, Tries, Limit, Roots, Primaries;
    ghost var before := router.reason;
    ghost var end;
    selected, terminal, end := router.Route(filter);
    if !terminal {
      RouteResult(router.x, filter, router.trace, router.attempts, selected, before, router.reason, end);
    }
  }

  method PreviewRuntime(x: Inputs) returns (p: Preview, ghost filter: bool)
    requires x.Valid()
    requires x.Policy().primaryProfiles != []
    ensures IsPreview(x, p)
    ensures RouteBehind(x, p, filter)
    ensures ReviewKept(x, p)
    ensures filter ==> x.Filters()
    ensures p.reason == StrictReviewUnavailable || (Routed(x) && x.Filters() && !filter) ==> ReviewersSought(x)
    ensures p.reason == StrictReviewUnavailable ==> x.Filters() && x.Policy().qa.mode == "strict" && !MayRelax(x)
    ensures p.selected != "" && x.Filters() && !filter ==> p.qaCompromise || x.Policy().qa.mode == "prefer"
  {
    hide Assess, Usable, IndependentReviewer, MayRelax, Distinct, Tries, IsRoute, RouteGives, RouteBehind, ReviewKept, Limit, Follows;
    p := Preview("", "", "", NoAvailableRoute, [], "", false);
    filter := false;
    EmptyTrace(x);
    var refusal := Refusal(x);
    if x.IsReview() && refusal != Some(Disabled) && refusal != Some(RequestStateInvalid) {
      p := p.(qaMode := x.Policy().qa.mode);
    }
    if refusal.Some? {
      p := p.(reason := refusal.value);
      NothingSelected(x, p, filter);
      return;
    }
    var router := new Router(x, NoAvailableRoute);
    var qaFilter := x.Filters();
    filter := qaFilter;
    var selected, terminal := RunRoute(router, qaFilter);
    ghost var first := Ran(router.Now(), selected, terminal, router.reason);
    p := p.(trace := router.trace, reason := router.reason);
    if terminal {
      NothingSelected(x, p, filter);
      TerminalFollows(x, first, p);
      return;
    }
    p, filter := AfterFirstRoute(x, router, p, selected, first);
    if p.reason == StrictReviewUnavailable || (x.Filters() && !filter) {
      assert ReviewersSought(x);
    }
  }

  lemma TerminalFollows(x: Inputs, first: Ran, p: Preview)
    requires x.Valid() && first.terminal && first.selected == ""
    requires p == Preview("", "", "", first.reason, first.m.trace, if x.IsReview() then x.Policy().qa.mode else "", false)
    ensures Follows(x, first, p)
  {
    hide MayRelax, IsRoute;
  }

  /** Relaxing when the filtered route found no reviewer: a refusal, or a second route without the filter. */
  method AfterFirstRoute(x: Inputs, router: Router, p0: Preview, selected: Ref, ghost first: Ran)
    returns (p: Preview, ghost filter: bool)
    requires x.Valid() && Routed(x) && router.x == x && x.Policy().primaryProfiles != []
    requires first == Ran(router.Now(), selected, false, router.reason)
    requires p0 == Preview("", "", "", first.reason, first.m.trace, if x.IsReview() then x.Policy().qa.mode else "", false)
    requires RouteGives(x, x.Filters(), first.m.trace, selected, first.reason)
    requires first.reason in {NoAvailableRoute, AttemptLimit, SiblingEvidenceUnknown}
    modifies router
    ensures Follows(x, first, p) && RouteBehind(x, p, filter) && ReviewKept(x, p)
    ensures filter ==> x.Filters()
    ensures p.reason == StrictReviewUnavailable || (x.Filters() && !filter) ==> NoReviewer(x, first)
    ensures p.reason == StrictReviewUnavailable ==> x.Filters() && x.Policy().qa.mode == "strict" && !MayRelax(x)
    ensures p.selected != "" && x.Filters() && !filter ==> p.qaCompromise || x.Policy().qa.mode == "prefer"
  {
    hide Assess, Usable, IndependentReviewer, MayRelax, Distinct, Tries, IsRoute, RouteGives, RouteBehind, ReviewKept, Limit;
    p, filter := p0, x.Filters();
    var mode := x.Policy().qa.mode;
    if selected == "" && x.Filters() && (router.reason == NoAvailableRoute || router.reason == AttemptLimit)
       && (mode == "strict" || mode == "prefer") {
      if mode == "strict" {
        var relaxable := Relaxable(x);
        if !relaxable {
          RouteGivesBounds(x, filter, router.trace, selected, router.reason);
          p := p.(reason := StrictReviewUnavailable);
          NothingSelected(x, p, filter);
          return;
        }
        p := p.(qaMode := "prefer", qaCompromise := true);
      }
      filter := false;
      p := SecondRoute(x, router, p, first);
      return;
    }
    p := Select(x, p, selected, first, selected != "" && x.Filters(), filter);
  }

  /** The route without the filter. */
  method SecondRoute(x: Inputs, router: Router, p0: Preview, ghost first: Ran) returns (p: Preview)
    requires x.Valid() && Routed(x) && router.x == x && x.Policy().primaryProfiles != []
    requires x.Filters() && first.reason == router.reason && (first.reason == NoAvailableRoute || first.reason == AttemptLimit)
    requires p0.selected == "" && p0.account == "" && p0.preferredAccount == "" && p0.qaMode == "prefer"
    requires p0.qaCompromise <==> x.Policy().qa.mode == "strict"
    requires p0.qaCompromise ==> MayRelax(x)
    modifies router
    ensures exists second :: IsRoute(x, false, first.reason, second) && p == Shown(x, second, false, "prefer", p0.qaCompromise)
    ensures RouteBehind(x, p, false) && ReviewKept(x, p)
    ensures p.reason != StrictReviewUnavailable && p.qaCompromise == p0.qaCompromise
  {
    hide Assess, Usable, IndependentReviewer, MayRelax, Distinct, Tries, IsRoute, RouteGives, RouteBehind, ReviewKept, Limit;
    var selected, terminal := RunRoute(router, false);
    ghost var second := Ran(router.Now(), selected, terminal, router.reason);
    p := p0.(trace := router.trace, reason := router.reason);
    if terminal {
      NothingSelected(x, p, false);
      assert p == Shown(x, second, false, "prefer", p0.qaCompromise);
      return;
    }
    p := Select(x, p, selected, second, false, false);
  }

  lemma RouteGivesBounds(x: Inputs, filter: bool, trace: seq<Trace>, selected: Ref, reason: Reason)
    requires x.Valid() && RouteGives(x, filter, trace, selected, reason)
    ensures Distinct(trace) && Tries(trace) <= Limit(x) && Walked(x, filter, trace) && StopsAtUnknown(trace, reason)
  {}

  lemma NothingSelected(x: Inputs, p: Preview, filter: bool)
    requires x.Valid() && p.selected == "" && p.reason !in {NoAvailableRoute, AttemptLimit, IndependentReviewerSelected}
    requires Distinct(p.trace) && Tries(p.trace) <= Limit(x)
    requires Routed(x) && !AtTheStart(p.reason) ==> Walked(x, filter, p.trace) && StopsAtUnknown(p.trace, p.reason)
    requires p.qaCompromise ==> x.IsReview() && x.Policy().qa.mode == "strict" && MayRelax(x)
    ensures RouteBehind(x, p, filter) && ReviewKept(x, p)
  {
    hide Routed, Walked, StopsAtUnknown, MayRelax, Distinct, Tries, Usable, IndependentReviewer, InVain, Limit;
  }

  /** What a selected profile adds to the result. */
  method Select(x: Inputs, p0: Preview, selected: Ref, ghost ran: Ran, independentPick: bool, ghost filter: bool) returns (p: Preview)
    requires x.Valid() && Routed(x) && !ran.terminal && selected == ran.selected
    requires p0 == Preview("", "", "", ran.reason, ran.m.trace, p0.qaMode, p0.qaCompromise)
    requires RouteGives(x, filter, ran.m.trace, ran.selected, ran.reason)
    requires ran.reason in {NoAvailableRoute, AttemptLimit, SiblingEvidenceUnknown}
    requires filter ==> x.Filters()
    requires independentPick ==> filter && ran.selected != ""
    requires p0.qaCompromise ==> x.IsReview() && x.Policy().qa.mode == "strict" && MayRelax(x) && !filter
    requires x.IsReview() && x.Policy().qa.mode == "strict" && !p0.qaCompromise ==> filter
    ensures p == Shown(x, ran, independentPick, p0.qaMode, p0.qaCompromise)
    ensures RouteBehind(x, p, filter) && ReviewKept(x, p)
  {
    hide Assess, Usable, IndependentReviewer, MayRelax, Honest, Justified, PrimariesFirst, Covered, Rejected, Distinct, Tries,
      Roots, Primaries, Won, StopsAtUnknown, ProfileAt, AccountAt, StringAt, Limit;
    p := p0;
    if selected != "" {
      SelectedIsUsable(x, filter, ran.m.trace, selected);
      CompromiseIsNotIndependent(x, selected);
      WonIsKnown(ran.m.trace, selected, if independentPick then IndependentReviewerSelected else ProfileSelected);
      var account := ProfileAt(x.catalog, selected).accountRef;
      var provider := AccountAt(x.catalog, account).provider;
      p := p.(selected := selected, account := account,
              preferredAccount := StringAt(x.Policy().preferredAccounts, provider),
              reason := if independentPick then IndependentReviewerSelected else ProfileSelected);
    }
  }

  lemma WonIsKnown(trace: seq<Trace>, selected: Ref, reason: Reason)
    requires Won(trace, selected) && reason != SiblingEvidenceUnknown
    ensures StopsAtUnknown(trace, reason)
  {}

  lemma EmptyTrace(x: Inputs)
    ensures Distinct([]) && Tries([]) <= Limit(x)
  {}

  /** The selected profile was assessed as available, and under the filter it is independent. */
  lemma SelectedIsUsable(x: Inputs, filter: bool, trace: seq<Trace>, selected: Ref)
    requires x.Valid() && Honest(x, filter, trace) && Won(trace, selected)
    ensures Usable(x, selected) && (filter ==> IndependentReviewer(x, selected))
  {
    hide Usable, Assess, IndependentReviewer;
    assert trace[|trace| - 1] in trace;
    AvailableIffUsable(x, selected);
  }

  /** When strict review may be relaxed, no usable profile is an independent reviewer. */
  lemma CompromiseIsNotIndependent(x: Inputs, selected: Ref)
    requires x.Valid() && Usable(x, selected)
    ensures MayRelax(x) ==> !IndependentReviewer(x, selected)
  {
    hide IndependentReviewer, Assess, PoolIn;
    AvailableIffUsable(x, selected);
    assert selected in Alternatives(x);
  }

  /** A preview that ends without a route missed none: its attempts are spent, or nothing reachable from the roots through
      blocked profiles would have been accepted. */
  lemma NoRouteMissed(x: Inputs, p: Preview, filter: bool, path: seq<Ref>)
    requires x.Valid() && RouteBehind(x, p, filter)
    requires (p.reason == NoAvailableRoute || p.reason == AttemptLimit) && Routed(x) && "" !in x.catalog.profiles
    requires BlockedPath(x, filter, Roots(x), path)
    ensures Judged(x, filter, path[|path| - 1]) != Available || (p.reason == AttemptLimit && Tries(p.trace) == Limit(x))
  {
    hide Judged, Covered, Roots, Tries, Limit, Distinct, Won, Justified, PrimariesFirst;
    if !(p.reason == AttemptLimit && Tries(p.trace) == Limit(x)) {
      InVainMissedNone(x, filter, p.trace, p.reason, path);
    }
  }

  lemma InVainMissedNone(x: Inputs, filter: bool, trace: seq<Trace>, reason: Reason, path: seq<Ref>)
    requires x.Valid() && InVain(x, filter, trace, reason) && !(reason == AttemptLimit && Tries(trace) == Limit(x))
    requires BlockedPath(x, filter, Roots(x), path)
    ensures Judged(x, filter, path[|path| - 1]) != Available
  {
    hide Judged, Covered, Roots;
    ReachedIsTraced(x, filter, Roots(x), trace, path);
    var t :| t in trace && t.profile == path[|path| - 1];
  }

  /** The filtered route was run, and ended without a reviewer. */
  ghost predicate ReviewersSought(x: Inputs)
    requires x.Valid()
  {
    exists first :: IsRoute(x, true, NoAvailableRoute, first) && NoReviewer(x, first)
                    && RouteGives(x, true, first.m.trace, "", first.reason)
  }

  /** The filtered route spent its attempts. */
  ghost predicate SpentOnReviewers(x: Inputs)
    requires x.Valid()
  {
    exists first :: IsRoute(x, true, NoAvailableRoute, first) && first.reason == AttemptLimit && Tries(first.m.trace) == Limit(x)
  }

  /** A strict refusal, a preference that is not met and a compromise all mean: the filtered route spent its attempts, or
      no usable independent reviewer is reachable from the roots through profiles it found blocked. */
  lemma NoReviewerMissed(x: Inputs, path: seq<Ref>)
    requires x.Valid() && ReviewersSought(x) && "" !in x.catalog.profiles
    requires BlockedPath(x, true, Roots(x), path)
    ensures var last := path[|path| - 1];
            SpentOnReviewers(x) || !(Usable(x, last) && IndependentReviewer(x, last))
  {
    hide IsRoute, Judged, Usable, IndependentReviewer, Roots, InVain, Tries, Limit, Distinct;
    var first :| IsRoute(x, true, NoAvailableRoute, first) && NoReviewer(x, first)
                 && RouteGives(x, true, first.m.trace, "", first.reason);
    if !(first.reason == AttemptLimit && Tries(first.m.trace) == Limit(x)) {
      InVainMissedNone(x, true, first.m.trace, first.reason, path);
      JudgedAvailableIff(x, path[|path| - 1]);
    }
  }

  /** What the filter lets through. */
  lemma JudgedAvailableIff(x: Inputs, ref: Ref)
    requires x.Valid()
    ensures Judged(x, true, ref) == Available <==> Usable(x, ref) && IndependentReviewer(x, ref)
  {
    hide Assess, Usable, IndependentReviewer;
    AvailableIffUsable(x, ref);
  }

  /** The selected profile is reached from a root along quota edges out of blocked profiles. */
  lemma SelectedIsReached(x: Inputs, p: Preview, filter: bool) returns (path: seq<Ref>)
    requires x.Valid() && RouteBehind(x, p, filter) && p.selected != ""
    ensures BlockedPath(x, filter, Roots(x), path) && path[|path| - 1] == p.selected
  {
    hide Judged, Justified, Honest, Roots;
    path := TracedIsReached(x, filter, Roots(x), p.trace, |p.trace| - 1);
  }

  /** On a new launch a profile that is no primary is selected only after every primary was inspected and rejected. */
  lemma ReserveComesLast(x: Inputs, p: Preview, filter: bool, primary: Ref)
    requires x.Valid() && RouteBehind(x, p, filter) && p.selected != ""
    requires x.request.purpose != "quota_reserve"
    requires primary in x.Policy().primaryProfiles && p.selected !in x.Policy().primaryProfiles
    ensures exists i :: 0 <= i < |p.trace| - 1 && p.trace[i].profile == primary && p.trace[i].reason != Available
  {
    hide Assess, Judged, Honest, Justified, Covered, Distinct, Tries, Usable;
    var n := |p.trace| - 1;
    assert p.trace[n].profile !in Primaries(x) && primary in Primaries(x);
    assert primary in Ids(p.trace[..n]);
    var t :| t in p.trace[..n] && t.profile == primary;
    hide PrimariesFirst, Primaries;
    var i :| 0 <= i < n && p.trace[..n][i] == t;
    assert p.trace[i] == t;
  }
}
