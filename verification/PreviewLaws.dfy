/** What a preview promises, told in the fields of its inputs. */
module PreviewLaws {
  import opened Options
  import opened RuntimeCatalog
  import opened RuntimePreview
  import opened RuntimeGroups
  import opened RuntimeWalk
  import opened RuntimeRoute
  import opened RuntimeDecision
  import opened AssessmentLaws

  // ----- the checks before a route -----

  predicate SwitchedOn(x: Inputs) { x.enabled && x.binding.enabled }

  /** A new launch names no source, a quota reserve names one, and there is no other purpose. */
  predicate PurposeFits(r: Request) {
    match r.purpose
    case "new_launch" => r.sourceProfile == ""
    case "quota_reserve" => r.sourceProfile != ""
    case _ => false
  }

  predicate OfArtifact(x: Inputs) { x.request.artifact != "" || x.request.artifactRevision != "" }

  /** Complete provenance of exactly this artifact and revision, with an author. */
  predicate ProvenanceFits(x: Inputs) {
    match x.provenance
    case None => false
    case Some(p) => p.complete && |p.authors| > 0 && (p.artifact, p.revision) == (x.request.artifact, x.request.artifactRevision)
  }

  /** Some author is unidentified or is the agent asked to review. */
  predicate ReviewsOwn(x: Inputs) {
    x.provenance.Some? && exists a | a in x.provenance.value.authors :: a.agent in {"", x.binding.identity.agent}
  }

  predicate Starts(x: Inputs) {
    SwitchedOn(x) && PurposeFits(x.request) && (OfArtifact(x) ==> ProvenanceFits(x) && !ReviewsOwn(x))
  }

  lemma StartsIffRouted(x: Inputs)
    ensures Starts(x) <==> Routed(x)
  {
    if x.provenance.Some? {
      assert x.provenance.value.authors != [] <==> |x.provenance.value.authors| > 0;
    }
  }

  // ----- how a walk can halt -----

  lemma {:induction false} TurnHalts(x: Inputs, filter: bool, m: Machine, group: seq<Ref>)
    requires x.Valid()
    ensures TurnAll(x, filter, m, group).stop.Halted? ==>
              TurnAll(x, filter, m, group).stop.reason in {AttemptLimit, SiblingEvidenceUnknown}
  {
    hide LookAt, GroupsOf;
    if group != [] { TurnHalts(x, filter, m, group[..|group| - 1]); }
  }

  lemma {:induction false} WalkHalts(x: Inputs, filter: bool, edgesLast: bool, m: Machine, pending: seq<seq<Ref>>, n: nat)
    requires x.Valid() && WalkN(x, filter, edgesLast, m, pending, n).Some?
    ensures var stop := WalkN(x, filter, edgesLast, m, pending, n).value.1;
            stop.Halted? ==> stop.reason in {AttemptLimit, SiblingEvidenceUnknown}
    decreases n
  {
    hide TurnAll;
    if pending != [] {
      TurnHalts(x, filter, m, pending[0]);
      var t := TurnAll(x, filter, m, pending[0]);
      if t.stop.Running? {
        WalkHalts(x, filter, edgesLast, t.m, if edgesLast then pending[1..] + t.children else t.children + pending[1..], n - 1);
      }
    }
  }

  lemma RanWalkReasons(x: Inputs, filter: bool, edgesLast: bool, m: Machine, pending: seq<seq<Ref>>, before: Reason, r: Ran)
    requires x.Valid() && RanWalk(x, filter, edgesLast, m, pending, before, r)
    ensures !r.terminal && r.reason in {before, AttemptLimit, SiblingEvidenceUnknown}
    ensures r.reason != before ==> r.selected == ""
  {
    hide WalkN;
    var stop :| Walks(x, filter, edgesLast, m, pending, (r.m, stop)) && Shows(stop, r.selected, before, r.reason);
    var n: nat :| WalkN(x, filter, edgesLast, m, pending, n) == Some((r.m, stop));
    WalkHalts(x, filter, edgesLast, m, pending, n);
  }

  /** The reasons a route can end with. */
  lemma RouteReasons(x: Inputs, filter: bool, before: Reason, r: Ran)
    requires x.Valid() && IsRoute(x, filter, before, r)
    ensures if r.terminal then r.selected == "" && AtTheStart(r.reason)
            else r.reason in {before, AttemptLimit, SiblingEvidenceUnknown}
  {
    hide LookAt, RanWalk, GroupsOf, AfterFirst, EdgesFrom;
    if x.request.purpose == "quota_reserve" {
      var source := x.request.sourceProfile;
      var m := LookAt(x, false, START, source).0;
      if RanWalk(x, filter, false, m, GroupsOf(x, EdgesFrom(x, source)), before, r) {
        RanWalkReasons(x, filter, false, m, GroupsOf(x, EdgesFrom(x, source)), before, r);
      }
    } else {
      var groups := GroupsOf(x, x.Policy().primaryProfiles);
      var m := LookAt(x, filter, START, groups[0][0]).0;
      if RanWalk(x, filter, true, m, AfterFirst(x, groups), before, r) {
        RanWalkReasons(x, filter, true, m, AfterFirst(x, groups), before, r);
      }
    }
  }

  /** A preview of a request that starts gives none of the refusals. */
  lemma StartedReasons(x: Inputs, p: Preview)
    requires x.Valid() && IsPreview(x, p) && Starts(x)
    ensures p.reason !in {Disabled, RequestStateInvalid, ProvenanceUnavailable, ReviewerIsAuthor}
  {
    StartsIffRouted(x);
    hide IsRoute, MayRelax, Starts;
    var first :| IsRoute(x, x.Filters(), NoAvailableRoute, first) && Follows(x, first, p);
    RouteReasons(x, x.Filters(), NoAvailableRoute, first);
    forall second | IsRoute(x, false, first.reason, second)
      ensures second.reason !in {Disabled, RequestStateInvalid, ProvenanceUnavailable, ReviewerIsAuthor}
    {
      RouteReasons(x, false, first.reason, second);
    }
  }

  /** Which request is refused, and why: the first failing check names the reason. */
  lemma RefusalsInWords(x: Inputs, p: Preview)
    requires x.Valid() && IsPreview(x, p)
    ensures p.reason == Disabled <==> !SwitchedOn(x)
    ensures p.reason == RequestStateInvalid <==> SwitchedOn(x) && !PurposeFits(x.request)
    ensures p.reason == ProvenanceUnavailable <==>
              SwitchedOn(x) && PurposeFits(x.request) && OfArtifact(x) && !ProvenanceFits(x)
    ensures p.reason == ReviewerIsAuthor <==>
              SwitchedOn(x) && PurposeFits(x.request) && OfArtifact(x) && ProvenanceFits(x) && ReviewsOwn(x)
    ensures !Starts(x) ==> p.selected == "" && p.account == "" && p.trace == [] && !p.qaCompromise
  {
    StartsIffRouted(x);
    if Starts(x) {
      StartedReasons(x, p);
      hide *;
    } else {
      hide IsRoute, MayRelax, Follows;
    }
  }

  // ----- the first candidate -----

  /** Reviewer independence is asked for. */
  predicate WantsReviewer(x: Inputs) { OfArtifact(x) && x.binding.policy.qa.mode != "off" }

  /** What looking at a profile can record. */
  ghost predicate Recorded(x: Inputs, filter: bool, ref: Ref, reason: Reason) {
    if reason == NotIndependent then filter && AssessmentTable(x, ref, Available) && !SharesNothing(x, ref)
    else AssessmentTable(x, ref, reason) && (filter && reason == Available ==> SharesNothing(x, ref))
  }

  lemma JudgedIsRecorded(x: Inputs, filter: bool, ref: Ref, reason: Reason)
    requires x.Valid()
    ensures Recorded(x, filter, ref, reason) <==> reason == Judged(x, filter, ref)
  {
    AssessmentIsTabled(x, ref, reason);
    AssessmentIsTabled(x, ref, Available);
    ReviewerSharesNothing(x, ref);
    AssessedPlainly(x, ref);
    hide Assess, AssessmentTable, SharesNothing, IndependentReviewer;
  }

  /** No assessment is the filter's reason. */
  lemma AssessedPlainly(x: Inputs, ref: Ref)
    requires x.Valid()
    ensures Assess(x, ref) != NotIndependent && Assess(x, ref) != AttemptLimit && Assess(x, ref) != AlreadyVisited
  {
    AssessReasons(x, ref);
  }

  /** The first candidate lets a route go on: it is available or blocked, with an attempt to spend, or skipped as no
      independent reviewer. */
  ghost predicate Opens(x: Inputs, filter: bool, ref: Ref, available: bool) {
    || Recorded(x, filter, ref, NotIndependent)
    || (x.binding.policy.maxAttempts > 0
        && (Recorded(x, filter, ref, QuotaBlocked) || Recorded(x, filter, ref, ThresholdBlocked)
            || (available && Recorded(x, filter, ref, Available))))
  }

  /** The front of the first group of primaries. */
  ghost function FirstCandidate(x: Inputs): Ref {
    var groups := GroupsOf(x, x.binding.policy.primaryProfiles);
    if groups == [] || groups[0] == [] then "" else groups[0][0]
  }

  lemma FirstLook(x: Inputs, filter: bool, ref: Ref)
    requires x.Valid()
    ensures var reason := LookAt(x, filter, START, ref).1;
            && (Opens(x, filter, ref, true) <==> reason == Available || Blocked(reason))
            && (Opens(x, false, ref, false) <==>
                LookAt(x, false, START, ref).1 == QuotaBlocked || LookAt(x, false, START, ref).1 == ThresholdBlocked)
  {
    AssessedPlainly(x, ref);
    forall reason, f ensures Recorded(x, f, ref, reason) <==> reason == Judged(x, f, ref) { JudgedIsRecorded(x, f, ref, reason); }
    hide Recorded, Assess, IndependentReviewer;
  }

  /** When a route is over at its first candidate, and why. */
  lemma RouteOpens(x: Inputs, filter: bool, before: Reason, r: Ran)
    requires x.Valid() && IsRoute(x, filter, before, r)
    ensures r.terminal ==> r.selected == ""
    ensures (r.terminal && r.reason == SourceNotPermitted) <==>
              x.request.purpose == "quota_reserve" && x.request.sourceProfile !in x.binding.permittedProfiles
    ensures (r.terminal && r.reason == SourceHasNoQuotaTrigger) <==>
              x.request.purpose == "quota_reserve" && x.request.sourceProfile in x.binding.permittedProfiles
              && !Opens(x, false, x.request.sourceProfile, false)
    ensures (r.terminal && r.reason == PrimaryHasNoQuotaTrigger) <==>
              x.request.purpose != "quota_reserve" && !Opens(x, filter, FirstCandidate(x), true)
  {
    hide LookAt, Walks, GroupsOf, AfterFirst, EdgesFrom, Opens;
    RouteReasons(x, filter, before, r);
    if x.request.purpose == "quota_reserve" {
      FirstLook(x, filter, x.request.sourceProfile);
    } else {
      FirstLook(x, filter, FirstCandidate(x));
    }
  }

  /** How a preview's reason comes from its routes. */
  lemma ReasonComesFrom(x: Inputs, first: Ran, p: Preview)
    requires x.Valid() && IsRoute(x, x.Filters(), NoAvailableRoute, first) && Follows(x, first, p)
    ensures first.terminal ==> p.reason == first.reason
    ensures !first.terminal && AtTheStart(p.reason) ==>
              exists second :: IsRoute(x, false, first.reason, second) && second.terminal && p.reason == second.reason
  {
    hide IsRoute, MayRelax;
    RouteReasons(x, x.Filters(), NoAvailableRoute, first);
    forall second | IsRoute(x, false, first.reason, second)
      ensures if second.terminal then second.selected == "" && AtTheStart(second.reason)
              else second.reason in {first.reason, AttemptLimit, SiblingEvidenceUnknown}
    {
      RouteReasons(x, false, first.reason, second);
    }
  }

  /** With attempts to spend, the filter does not change whether a route opens. */
  lemma OpensUnfiltered(x: Inputs, ref: Ref)
    requires x.Valid()
    ensures Opens(x, false, ref, true) ==> Opens(x, true, ref, true)
    ensures x.binding.policy.maxAttempts > 0 && Opens(x, true, ref, true) ==> Opens(x, false, ref, true)
  {
    forall reason, f ensures Recorded(x, f, ref, reason) <==> reason == Judged(x, f, ref) { JudgedIsRecorded(x, f, ref, reason); }
    hide Recorded, Assess, IndependentReviewer;
  }

  /** Which preview is over at its first candidate. With attempts to spend this is decided by the first primary alone,
      with or without the filter. */
  lemma FirstCandidateInWords(x: Inputs, p: Preview)
    requires x.Valid() && IsPreview(x, p) && Starts(x)
    ensures p.reason == SourceNotPermitted <==>
              x.request.purpose == "quota_reserve" && x.request.sourceProfile !in x.binding.permittedProfiles
    ensures p.reason == SourceHasNoQuotaTrigger <==>
              x.request.purpose == "quota_reserve" && x.request.sourceProfile in x.binding.permittedProfiles
              && !Opens(x, false, x.request.sourceProfile, false)
    ensures p.reason == PrimaryHasNoQuotaTrigger ==>
              x.request.purpose == "new_launch" && !Opens(x, false, FirstCandidate(x), true)
    ensures x.request.purpose == "new_launch" && !Opens(x, WantsReviewer(x), FirstCandidate(x), true) ==>
              p.reason == PrimaryHasNoQuotaTrigger
  {
    StartsIffRouted(x);
    assert x.request.purpose == "new_launch" || x.request.purpose == "quota_reserve";
    hide IsRoute, MayRelax, Opens, GroupsOf, FirstCandidate, Starts, Follows;
    var first :| IsRoute(x, x.Filters(), NoAvailableRoute, first) && Follows(x, first, p);
    RouteOpens(x, x.Filters(), NoAvailableRoute, first);
    RouteReasons(x, x.Filters(), NoAvailableRoute, first);
    ReasonComesFrom(x, first, p);
    OpensUnfiltered(x, FirstCandidate(x));
    if !first.terminal && AtTheStart(p.reason) {
      var second :| IsRoute(x, false, first.reason, second) && second.terminal && p.reason == second.reason;
      RouteOpens(x, false, first.reason, second);
    }
  }

  // ----- what is shown of the selection, and of review -----

  /** A selected profile is shown with its account and the account its provider prefers, if any; nothing else is. */
  ghost predicate SelectionShown(x: Inputs, p: Preview) {
    && (p.selected == "" ==> p.account == "" && p.preferredAccount == "")
    && (p.selected != "" && p.selected in x.catalog.profiles ==>
          var account, preferred := x.catalog.profiles[p.selected].accountRef, x.binding.policy.preferredAccounts;
          var provider := if account in x.catalog.accounts then x.catalog.accounts[account].provider else "";
          && p.account == account
          && p.preferredAccount == if provider in preferred then preferred[provider] else "")
  }

  lemma SelectionInWords(x: Inputs, p: Preview)
    requires x.Valid() && IsPreview(x, p)
    ensures SelectionShown(x, p)
    ensures p.selected == "" <==> p.reason !in {ProfileSelected, IndependentReviewerSelected}
  {
    hide IsRoute, MayRelax, Starts, Routed, Shown, SelectionShown;
    NothingShown(x, p);
    if RefusalOf(x).None? {
      var first :| IsRoute(x, x.Filters(), NoAvailableRoute, first) && Follows(x, first, p);
      RouteReasons(x, x.Filters(), NoAvailableRoute, first);
      ShownInWords(x, first, x.Filters(), if x.IsReview() then x.Policy().qa.mode else "", false);
      if second :| IsRoute(x, false, first.reason, second) && p == Shown(x, second, false, "prefer", x.Policy().qa.mode == "strict") {
        RouteReasons(x, false, first.reason, second);
        ShownInWords(x, second, false, "prefer", x.Policy().qa.mode == "strict");
      }
    }
  }

  lemma NothingShown(x: Inputs, p: Preview)
    ensures p.selected == "" && p.account == "" && p.preferredAccount == "" ==> SelectionShown(x, p)
  {}

  /** What is shown of a route. */
  lemma ShownInWords(x: Inputs, r: Ran, pick: bool, qaMode: string, qaCompromise: bool)
    ensures var p := Shown(x, r, pick, qaMode, qaCompromise);
            && p.selected == r.selected && p.trace == r.m.trace && p.qaMode == qaMode && p.qaCompromise == qaCompromise
            && p.reason == (if r.selected == "" then r.reason else if pick then IndependentReviewerSelected else ProfileSelected)
            && SelectionShown(x, p)
  {}

  lemma SecondReasons(x: Inputs, before: Reason)
    requires x.Valid()
    ensures forall r | IsRoute(x, false, before, r) ::
              if r.terminal then r.selected == "" && AtTheStart(r.reason)
              else r.reason in {before, AttemptLimit, SiblingEvidenceUnknown}
  {
    forall r | IsRoute(x, false, before, r)
      ensures if r.terminal then r.selected == "" && AtTheStart(r.reason)
              else r.reason in {before, AttemptLimit, SiblingEvidenceUnknown}
    {
      RouteReasons(x, false, before, r);
    }
  }

  /** The mode shown, and the compromise: it is made in strict mode only, where the rule for relaxing allows it, and shown
      as "prefer"; strict review is unavailable exactly where it is refused. */
  lemma CompromiseInWords(x: Inputs, p: Preview)
    requires x.Valid() && IsPreview(x, p) && Starts(x)
    ensures !OfArtifact(x) ==> p.qaMode == ""
    ensures OfArtifact(x) ==> p.qaMode == if p.qaCompromise then "prefer" else x.binding.policy.qa.mode
    ensures p.qaCompromise ==> WantsReviewer(x) && x.binding.policy.qa.mode == "strict" && MayRelax(x)
    ensures p.reason == StrictReviewUnavailable ==>
              WantsReviewer(x) && x.binding.policy.qa.mode == "strict" && !MayRelax(x) && p.selected == "" && !p.qaCompromise
  {
    StartsIffRouted(x);
    hide IsRoute, MayRelax, Starts;
    var first :| IsRoute(x, x.Filters(), NoAvailableRoute, first) && Follows(x, first, p);
    RouteReasons(x, x.Filters(), NoAvailableRoute, first);
    SecondReasons(x, first.reason);
  }

  /** A filtered route that finds no reviewer, for want of candidates or of attempts, is never the end of it in strict or
      prefer mode: an unfiltered route follows, and what the preview shows is its trace. */
  lemma UnfilteredFollows(x: Inputs, p: Preview)
    requires x.Valid() && IsPreview(x, p) && Starts(x)
    requires WantsReviewer(x) && x.binding.policy.qa.mode in {"strict", "prefer"}
    ensures p.reason in {NoAvailableRoute, AttemptLimit, ProfileSelected} ==>
              exists first, second ::
                && IsRoute(x, true, NoAvailableRoute, first) && first.selected == "" && first.reason in {NoAvailableRoute, AttemptLimit}
                && IsRoute(x, false, first.reason, second) && p.trace == second.m.trace && p.selected == second.selected
                && (p.qaCompromise <==> x.binding.policy.qa.mode == "strict")
    ensures p.reason == IndependentReviewerSelected ==>
              exists first :: IsRoute(x, true, NoAvailableRoute, first) && p.trace == first.m.trace && p.selected == first.selected
  {
    StartsIffRouted(x);
    hide IsRoute, MayRelax, Starts, Shown, SelectionShown;
    var first :| IsRoute(x, x.Filters(), NoAvailableRoute, first) && Follows(x, first, p);
    RouteReasons(x, x.Filters(), NoAvailableRoute, first);
    ShownInWords(x, first, x.Filters(), if x.IsReview() then x.Policy().qa.mode else "", false);
    if second :| IsRoute(x, false, first.reason, second) && p == Shown(x, second, false, "prefer", x.Policy().qa.mode == "strict") {
      RouteReasons(x, false, first.reason, second);
      ShownInWords(x, second, false, "prefer", x.Policy().qa.mode == "strict");
    }
  }
}
