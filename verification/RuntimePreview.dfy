/** Which profile a launch would be routed to: assessment of one profile, account preference inside
    provider groups, the route walk over primaries and quota edges, and the review filter. */
module RuntimePreview {
  import opened Options
  import opened RuntimeCatalog

  /** Times and ages are nanoseconds; a missing observation time is Go's zero time. */
  datatype PoolFact = PoolFact(
    state: string,
    observedAt: Option<int>,
    verified: bool,
    evidenceKind: string,
    thresholdRef: string)

  datatype Evidence = Evidence(
    controllerCurrent: bool,
    pools: map<Ref, PoolFact>,
    modelDeveloper: string,
    modelFamily: string)

  const NO_EVIDENCE := Evidence(false, map[], "", "")

  datatype Author = Author(agent: string, modelDeveloper: string, modelFamily: string)

  datatype Provenance = Provenance(artifact: string, revision: string, authors: seq<Author>, complete: bool)

  /** The empty text stands for the nil UUID. */
  datatype Request = Request(
    purpose: string,
    sourceProfile: Ref,
    requiredCapabilities: seq<string>,
    artifact: string,
    artifactRevision: string)

  datatype Reason =
    | ProfileNotPermitted | ProfileDisabled | ApiNotOptedIn | ControllerUnavailable | CapabilityMissing
    | PoolEvidenceUnavailable | PoolEvidenceUnknown | QuotaBlocked | ThresholdBlocked | Available
    | NotIndependent | AlreadyVisited | AttemptLimit
    | NoAvailableRoute | Disabled | RequestStateInvalid | ProvenanceUnavailable | ReviewerIsAuthor
    | SiblingEvidenceUnknown | SourceNotPermitted | SourceHasNoQuotaTrigger | PrimaryHasNoQuotaTrigger
    | StrictReviewUnavailable | ProfileSelected | IndependentReviewerSelected

  datatype Trace = Trace(profile: Ref, reason: Reason)

  /** Everything PreviewRuntime reads. */
  datatype Inputs = Inputs(
    catalog: Catalog,
    binding: Binding,
    enabled: bool,
    admitted: seq<Ref>,
    evidence: map<Ref, Evidence>,
    provenance: Option<Provenance>,
    request: Request,
    now: int)
  {
    /** A catalog reaches the preview only through ParseRuntimeCatalog, so no alias is ambiguous. */
    ghost predicate Valid() {
      Unambiguous(catalog.pools)
    }

    function Policy(): Policy { binding.policy }

    function EvidenceAt(ref: Ref): Evidence {
      if ref in evidence then evidence[ref] else NO_EVIDENCE
    }

    predicate IsReview() {
      request.artifact != "" || request.artifactRevision != ""
    }

    /** Reviewer independence is asked for. */
    predicate Filters() {
      IsReview() && Policy().qa.mode != "off"
    }
  }

  datatype Preview = Preview(
    selected: Ref,
    account: Ref,
    preferredAccount: Ref,
    reason: Reason,
    trace: seq<Trace>,
    qaMode: string,
    qaCompromise: bool)

  const NS_PER_SECOND := 1_000_000_000

  // ----- one profile -----

  predicate ModelKnown(e: Evidence) {
    e.modelDeveloper != "" && e.modelFamily != ""
  }

  /** runtimeIndependent: the model is known and shares neither developer nor family with any author. */
  predicate Independent(e: Evidence, authors: seq<Author>) {
    && ModelKnown(e)
    && forall a | a in authors ::
         && a.modelDeveloper != "" && a.modelFamily != ""
         && a.modelDeveloper != e.modelDeveloper && a.modelFamily != e.modelFamily
  }

  predicate FreshFact(x: Inputs, fact: PoolFact) {
    && fact.verified && fact.observedAt.Some?
    && fact.observedAt.value <= x.now
    && x.now - fact.observedAt.value <= x.Policy().evidenceMaxAgeSeconds * NS_PER_SECOND
  }

  /** The loop over an account's quota pools, with what it has found so far. */
  function PoolsVerdict(x: Inputs, observation: Evidence, refs: seq<Ref>, quota: bool, threshold: bool): Reason
    requires x.Valid()
    decreases refs
  {
    if refs == [] then
      if quota then QuotaBlocked else if threshold then ThresholdBlocked else Available
    else
      var resolved := ResolvePool(x.catalog.pools, refs[0]);
      var pool := if resolved.Some? then resolved.value else "";
      if pool !in observation.pools || !FreshFact(x, observation.pools[pool]) then PoolEvidenceUnavailable
      else
        var fact := observation.pools[pool];
        var configured := if pool in x.catalog.pools then x.catalog.pools[pool].thresholdRef else "";
        if fact.state == "available" then PoolsVerdict(x, observation, refs[1..], quota, threshold)
        else if fact.state == "exhausted" then PoolsVerdict(x, observation, refs[1..], true, threshold)
        else if fact.state == "threshold" then
          if configured == "" || configured != fact.thresholdRef || fact.evidenceKind != "configured_threshold"
          then PoolEvidenceUnknown
          else PoolsVerdict(x, observation, refs[1..], quota, true)
        else PoolEvidenceUnknown
  }

  /** assess: the first reason that rules a profile out, or Available. */
  function Assess(x: Inputs, ref: Ref): Reason
    requires x.Valid()
  {
    if ref !in x.catalog.profiles || ref !in x.binding.permittedProfiles || ref !in x.admitted then ProfileNotPermitted
    else
      var profile := x.catalog.profiles[ref];
      if !profile.enabled || !EnabledAt(x.catalog, profile.controllerRef) then ProfileDisabled
      else
        var account := AccountAt(x.catalog, profile.accountRef);
        if profile.executionMode == "api" && ref !in x.Policy().primaryProfiles
           && account.provider !in x.Policy().apiReserveProviders then ApiNotOptedIn
        else if !x.EvidenceAt(ref).controllerCurrent then ControllerUnavailable
        else if exists cap | cap in x.request.requiredCapabilities :: cap !in profile.capabilities then CapabilityMissing
        else PoolsVerdict(x, x.EvidenceAt(ref), ListAt(account.quotaPoolsByMode, profile.executionMode), false, false)
  }

  /** The pool a reference in the list is checked against, and its fact, is sound and in this state. */
  ghost predicate PoolIn(x: Inputs, observation: Evidence, ref: Ref, state: string)
    requires x.Valid()
  {
    var resolved := ResolvePool(x.catalog.pools, ref);
    var pool := if resolved.Some? then resolved.value else "";
    pool in observation.pools && FreshFact(x, observation.pools[pool]) && observation.pools[pool].state == state
  }

  /** What the loop's verdict means for the pools: available needs fresh evidence that every pool is available;
      quota_blocked needs fresh evidence that one is exhausted and that none is in an unknown state. */
  lemma {:induction false} PoolsVerdictMeaning(x: Inputs, observation: Evidence, refs: seq<Ref>, quota: bool, threshold: bool)
    requires x.Valid()
    ensures var verdict := PoolsVerdict(x, observation, refs, quota, threshold);
            && (verdict == Available <==>
                  !quota && !threshold && forall r | r in refs :: PoolIn(x, observation, r, "available"))
            && (verdict == QuotaBlocked ==>
                  && (quota || exists r :: r in refs && PoolIn(x, observation, r, "exhausted"))
                  && forall r | r in refs ::
                       PoolIn(x, observation, r, "available") || PoolIn(x, observation, r, "exhausted") ||
                       PoolIn(x, observation, r, "threshold"))
    decreases refs
  {
    if refs != [] {
      var first, rest := refs[0], refs[1..];
      assert forall r :: r in refs <==> r == first || r in rest;
      hide FreshFact, ResolvePool;
      if PoolIn(x, observation, first, "available") {
        PoolsVerdictMeaning(x, observation, rest, quota, threshold);
      } else if PoolIn(x, observation, first, "exhausted") {
        assert first in refs;
        PoolsVerdictMeaning(x, observation, rest, true, threshold);
      } else {
        assert first in refs;
        PoolsVerdictMeaning(x, observation, rest, quota, true);
      }
    }
  }

  /** What it takes to be assessed as available. */
  ghost predicate Usable(x: Inputs, ref: Ref)
    requires x.Valid()
  {
    && ref in x.catalog.profiles && ref in x.binding.permittedProfiles && ref in x.admitted
    && var profile := x.catalog.profiles[ref];
       var account := AccountAt(x.catalog, profile.accountRef);
       && profile.enabled && EnabledAt(x.catalog, profile.controllerRef)
       && (profile.executionMode == "api" ==>
             ref in x.Policy().primaryProfiles || account.provider in x.Policy().apiReserveProviders)
       && x.EvidenceAt(ref).controllerCurrent
       && (forall cap | cap in x.request.requiredCapabilities :: cap in profile.capabilities)
       && forall pool | pool in ListAt(account.quotaPoolsByMode, profile.executionMode) ::
            PoolIn(x, x.EvidenceAt(ref), pool, "available")
  }

  lemma AvailableIffUsable(x: Inputs, ref: Ref)
    requires x.Valid()
    ensures Assess(x, ref) == Available <==> Usable(x, ref)
  {
    hide PoolIn;
    if ref in x.catalog.profiles {
      var profile := x.catalog.profiles[ref];
      var refs := ListAt(AccountAt(x.catalog, profile.accountRef).quotaPoolsByMode, profile.executionMode);
      PoolsVerdictMeaning(x, x.EvidenceAt(ref), refs, false, false);
      hide PoolsVerdict;
    }
  }

  /** The assessment, with the source's loop over the quota pools. */
  method AssessProfile(x: Inputs, ref: Ref) returns (reason: Reason)
    requires x.Valid()
    ensures reason == Assess(x, ref)
  {
    if ref !in x.catalog.profiles || ref !in x.binding.permittedProfiles || ref !in x.admitted {
      return ProfileNotPermitted;
    }
    var profile := x.catalog.profiles[ref];
    if !profile.enabled || !EnabledAt(x.catalog, profile.controllerRef) {
      return ProfileDisabled;
    }
    var account := AccountAt(x.catalog, profile.accountRef);
    if profile.executionMode == "api" && ref !in x.Policy().primaryProfiles
       && account.provider !in x.Policy().apiReserveProviders {
      return ApiNotOptedIn;
    }
    var observation := x.EvidenceAt(ref);
    if !observation.controllerCurrent {
      return ControllerUnavailable;
    }
    for i := 0 to |x.request.requiredCapabilities|
      invariant forall cap | cap in x.request.requiredCapabilities[..i] :: cap in profile.capabilities
    {
      if x.request.requiredCapabilities[i] !in profile.capabilities {
        return CapabilityMissing;
      }
    }
    assert x.request.requiredCapabilities[..|x.request.requiredCapabilities|] == x.request.requiredCapabilities;
    var refs := ListAt(account.quotaPoolsByMode, profile.executionMode);
    var quota, threshold := false, false;
    for i := 0 to |refs|
      invariant PoolsVerdict(x, observation, refs[i..], quota, threshold) == PoolsVerdict(x, observation, refs, false, false)
    {
      assert refs[i..][1..] == refs[i + 1..];
      var resolved := ResolvePool(x.catalog.pools, refs[i]);
      var pool := if resolved.Some? then resolved.value else "";
      if pool !in observation.pools || !FreshFact(x, observation.pools[pool]) {
        return PoolEvidenceUnavailable;
      }
      var fact := observation.pools[pool];
      if fact.state == "available" {
      } else if fact.state == "exhausted" {
        quota := true;
      } else if fact.state == "threshold" {
        var configured := if pool in x.catalog.pools then x.catalog.pools[pool].thresholdRef else "";
        if configured == "" || configured != fact.thresholdRef || fact.evidenceKind != "configured_threshold" {
          return PoolEvidenceUnknown;
        }
        threshold := true;
      } else {
        return PoolEvidenceUnknown;
      }
    }
    if quota {
      return QuotaBlocked;
    }
    if threshold {
      return ThresholdBlocked;
    }
    return Available;
  }

  // ----- relaxing strict review -----

  /** The permitted profiles that are also admitted. */
  ghost function Alternatives(x: Inputs): set<Ref> {
    set ref | ref in x.binding.permittedProfiles && ref in x.admitted
  }

  ghost predicate IndependentReviewer(x: Inputs, ref: Ref) {
    x.provenance.Some? && Independent(x.EvidenceAt(ref), x.provenance.value.authors)
  }

  /** Strict review may be relaxed: the fallback is on, every alternative's model is known, some alternative is
      independent, and each independent one is confirmed out of quota. */
  ghost predicate MayRelax(x: Inputs)
    requires x.Valid()
  {
    && x.Policy().qa.quotaFallback
    && (forall ref | ref in Alternatives(x) :: ModelKnown(x.EvidenceAt(ref)))
    && (exists ref :: ref in Alternatives(x) && IndependentReviewer(x, ref))
    && (forall ref | ref in Alternatives(x) && IndependentReviewer(x, ref) :: Assess(x, ref) == QuotaBlocked)
  }

  method Relaxable(x: Inputs) returns (ok: bool)
    requires x.Valid() && x.provenance.Some?
    ensures ok <==> MayRelax(x)
  {
    hide Assess, Independent;
    var independent, allQuota := 0, true;
    var permitted := x.binding.permittedProfiles;
    for i := 0 to |permitted|
      invariant forall j | 0 <= j < i && permitted[j] in x.admitted :: ModelKnown(x.EvidenceAt(permitted[j]))
      invariant independent >= 0
      invariant independent > 0 <==>
        exists j :: 0 <= j < i && permitted[j] in x.admitted && IndependentReviewer(x, permitted[j])
      invariant allQuota <==>
        forall j | 0 <= j < i && permitted[j] in x.admitted && IndependentReviewer(x, permitted[j]) ::
          Assess(x, permitted[j]) == QuotaBlocked
    {
      var ref := permitted[i];
      if ref !in x.admitted {
        continue;
      }
      var observation := x.EvidenceAt(ref);
      if observation.modelDeveloper == "" || observation.modelFamily == "" {
        assert ref in Alternatives(x);
        return false;
      }
      if !Independent(observation, x.provenance.value.authors) {
        continue;
      }
      independent := independent + 1;
      var reason := AssessProfile(x, ref);
      if reason != QuotaBlocked {
        allQuota := false;
      }
    }
    ok := x.Policy().qa.quotaFallback && independent > 0 && allQuota;
    if ok {
      ghost var j :| 0 <= j < |permitted| && permitted[j] in x.admitted && IndependentReviewer(x, permitted[j]);
      assert permitted[j] in Alternatives(x);
    }
  }
}
