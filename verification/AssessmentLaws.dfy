/** What each assessment means, told in the fields of the catalog, the binding and the evidence alone. */
module AssessmentLaws {
  import opened RuntimeCatalog
  import opened RuntimePreview

  // ----- one pool -----

  /** The pool a reference names: the one of that name, else one with that alias, else the empty name. */
  ghost predicate Names(c: Catalog, ref: Ref, pool: Ref) {
    if ref in c.pools then pool == ref
    else if exists n :: n in c.pools && ref in c.pools[n].aliases then pool in c.pools && ref in c.pools[pool].aliases
    else pool == ""
  }

  /** Verified, observed, not in the future and no older than the policy allows, in nanoseconds. */
  ghost predicate Fresh(x: Inputs, fact: PoolFact) {
    && fact.verified && fact.observedAt.Some?
    && x.now - 1_000_000_000 * x.binding.policy.evidenceMaxAgeSeconds <= fact.observedAt.value <= x.now
  }

  /** The evidence has a fresh fact for the pool the reference names. */
  ghost predicate Known(x: Inputs, e: Evidence, ref: Ref) {
    exists pool :: Names(x.catalog, ref, pool) && pool in e.pools && Fresh(x, e.pools[pool])
  }

  ghost predicate In(x: Inputs, e: Evidence, ref: Ref, state: string) {
    exists pool :: Names(x.catalog, ref, pool) && pool in e.pools && Fresh(x, e.pools[pool]) && e.pools[pool].state == state
  }

  /** A soft threshold counts only when it is the one configured for the pool. */
  ghost predicate AtThreshold(x: Inputs, e: Evidence, ref: Ref) {
    exists pool :: Names(x.catalog, ref, pool) && pool in e.pools && Fresh(x, e.pools[pool]) && e.pools[pool].state == "threshold"
                   && pool in x.catalog.pools && x.catalog.pools[pool].thresholdRef != ""
                   && x.catalog.pools[pool].thresholdRef == e.pools[pool].thresholdRef
                   && e.pools[pool].evidenceKind == "configured_threshold"
  }

  /** A pool that leaves the verdict open. */
  ghost predicate Told(x: Inputs, e: Evidence, ref: Ref) {
    In(x, e, ref, "available") || In(x, e, ref, "exhausted") || AtThreshold(x, e, ref)
  }

  ghost predicate AllTold(x: Inputs, e: Evidence, refs: seq<Ref>) {
    forall r | r in refs :: Told(x, e, r)
  }

  ghost predicate SomeExhausted(x: Inputs, e: Evidence, refs: seq<Ref>) {
    exists r :: r in refs && In(x, e, r, "exhausted")
  }

  ghost predicate SomeAtThreshold(x: Inputs, e: Evidence, refs: seq<Ref>) {
    exists r :: r in refs && AtThreshold(x, e, r)
  }

  /** Some pool is not told of, every one before it is, and the evidence for it is fresh or not. */
  ghost predicate StopsAt(x: Inputs, e: Evidence, refs: seq<Ref>, known: bool) {
    exists i :: 0 <= i < |refs| && FirstUntold(x, e, refs, i) && Known(x, e, refs[i]) == known
  }

  ghost predicate FirstUntold(x: Inputs, e: Evidence, refs: seq<Ref>, i: nat)
    requires i < |refs|
  {
    !Told(x, e, refs[i]) && forall j | 0 <= j < i :: Told(x, e, refs[j])
  }

  /** Each verdict over a list of pools, and when it is given. */
  ghost predicate VerdictTable(x: Inputs, e: Evidence, refs: seq<Ref>, quota: bool, threshold: bool, verdict: Reason) {
    && verdict in {Available, QuotaBlocked, ThresholdBlocked, PoolEvidenceUnavailable, PoolEvidenceUnknown}
    && (verdict == QuotaBlocked <==> AllTold(x, e, refs) && (quota || SomeExhausted(x, e, refs)))
    && (verdict == ThresholdBlocked <==>
          AllTold(x, e, refs) && !quota && !SomeExhausted(x, e, refs) && (threshold || SomeAtThreshold(x, e, refs)))
    && (verdict == PoolEvidenceUnavailable <==> StopsAt(x, e, refs, false))
    && (verdict == PoolEvidenceUnknown <==> StopsAt(x, e, refs, true))
  }

  lemma ResolvedIsNamed(x: Inputs, ref: Ref, pool: Ref)
    requires x.Valid()
    ensures Names(x.catalog, ref, pool) <==>
              pool == match ResolvePool(x.catalog.pools, ref) case Some(n) => n case None => ""
  {
    var pools := x.catalog.pools;
    var resolved := ResolvePool(pools, ref);
    if resolved.None? && ref !in pools {
      forall n | n in pools ensures ref !in pools[n].aliases { assert !ResolvesTo(pools, ref, n); }
    }
    assert ref in pools ==> ResolvesTo(pools, ref, ref);
  }

  /** What the first pool of a list is found to be. */
  lemma FirstPool(x: Inputs, e: Evidence, refs: seq<Ref>, quota: bool, threshold: bool)
    requires x.Valid() && refs != []
    ensures var r, verdict := refs[0], PoolsVerdict(x, e, refs, quota, threshold);
            && (!Known(x, e, r) ==> verdict == PoolEvidenceUnavailable)
            && (Known(x, e, r) && !Told(x, e, r) ==> verdict == PoolEvidenceUnknown)
            && (In(x, e, r, "available") ==> verdict == PoolsVerdict(x, e, refs[1..], quota, threshold))
            && (In(x, e, r, "exhausted") ==> verdict == PoolsVerdict(x, e, refs[1..], true, threshold))
            && (AtThreshold(x, e, r) ==> verdict == PoolsVerdict(x, e, refs[1..], quota, true))
  {
    var pool := match ResolvePool(x.catalog.pools, refs[0]) case Some(n) => n case None => "";
    forall n ensures Names(x.catalog, refs[0], n) <==> n == pool { ResolvedIsNamed(x, refs[0], n); }
    hide Names, ResolvePool;
  }

  lemma OneState(x: Inputs, e: Evidence, ref: Ref)
    requires x.Valid()
    ensures Told(x, e, ref) ==> Known(x, e, ref)
    ensures !(In(x, e, ref, "exhausted") && In(x, e, ref, "available"))
    ensures AtThreshold(x, e, ref) ==> !In(x, e, ref, "exhausted") && !In(x, e, ref, "available")
  {
    forall a, b | Names(x.catalog, ref, a) && Names(x.catalog, ref, b) ensures a == b {
      ResolvedIsNamed(x, ref, a);
      ResolvedIsNamed(x, ref, b);
    }
    hide Names;
  }

  lemma StopsFirst(x: Inputs, e: Evidence, refs: seq<Ref>, known: bool)
    requires refs != []
    ensures StopsAt(x, e, refs, known) <==>
              if Told(x, e, refs[0]) then StopsAt(x, e, refs[1..], known) else Known(x, e, refs[0]) == known
  {
    hide Told, Known;
    var rest := refs[1..];
    if Told(x, e, refs[0]) {
      if StopsAt(x, e, rest, known) {
        var i :| 0 <= i < |rest| && FirstUntold(x, e, rest, i) && Known(x, e, rest[i]) == known;
        assert FirstUntold(x, e, refs, i + 1);
      }
      if StopsAt(x, e, refs, known) {
        var i :| 0 <= i < |refs| && FirstUntold(x, e, refs, i) && Known(x, e, refs[i]) == known;
        assert rest[i - 1] == refs[i] && FirstUntold(x, e, rest, i - 1);
      }
    } else {
      assert FirstUntold(x, e, refs, 0);
    }
  }

  lemma ListsFirst(x: Inputs, e: Evidence, refs: seq<Ref>)
    requires refs != []
    ensures AllTold(x, e, refs) <==> Told(x, e, refs[0]) && AllTold(x, e, refs[1..])
    ensures SomeExhausted(x, e, refs) <==> In(x, e, refs[0], "exhausted") || SomeExhausted(x, e, refs[1..])
    ensures SomeAtThreshold(x, e, refs) <==> AtThreshold(x, e, refs[0]) || SomeAtThreshold(x, e, refs[1..])
  {
    hide In, AtThreshold, Told;
    assert forall r :: r in refs <==> r == refs[0] || r in refs[1..];
  }

  /** The loop gives the verdict of the table, and the table has one verdict. */
  lemma {:induction false} VerdictIsTabled(x: Inputs, e: Evidence, refs: seq<Ref>, quota: bool, threshold: bool)
    requires x.Valid()
    ensures VerdictTable(x, e, refs, quota, threshold, PoolsVerdict(x, e, refs, quota, threshold))
    decreases refs
  {
    if refs != [] {
      hide Known, In, AtThreshold, StopsAt, PoolsVerdict, AllTold, SomeExhausted, SomeAtThreshold;
      var first, rest := refs[0], refs[1..];
      FirstPool(x, e, refs, quota, threshold);
      OneState(x, e, first);
      StopsFirst(x, e, refs, true);
      StopsFirst(x, e, refs, false);
      ListsFirst(x, e, refs);
      if Told(x, e, first) {
        VerdictIsTabled(x, e, rest, quota || In(x, e, first, "exhausted"), threshold || AtThreshold(x, e, first));
      }
    }
  }

  // ----- one profile -----

  ghost predicate Permitted(x: Inputs, ref: Ref) {
    ref in x.catalog.profiles && ref in x.binding.permittedProfiles && ref in x.admitted
  }

  /** Profile and controller are switched on. */
  ghost predicate Running(x: Inputs, p: Profile) {
    p.enabled && p.controllerRef in x.catalog.controllers && x.catalog.controllers[p.controllerRef].enabled
  }

  /** An API profile is a primary, or its account's provider is an API reserve. */
  ghost predicate OptedIn(x: Inputs, ref: Ref, p: Profile) {
    p.executionMode == "api" ==>
      ref in x.binding.policy.primaryProfiles ||
      (if p.accountRef in x.catalog.accounts then x.catalog.accounts[p.accountRef].provider else "") in x.binding.policy.apiReserveProviders
  }

  ghost predicate Reporting(x: Inputs, ref: Ref) {
    ref in x.evidence && x.evidence[ref].controllerCurrent
  }

  ghost predicate Capable(x: Inputs, p: Profile) {
    forall cap | cap in x.request.requiredCapabilities :: cap in p.capabilities
  }

  /** The references an account lists for the profile's mode. */
  ghost function PoolsOf(x: Inputs, p: Profile): seq<Ref> {
    if p.accountRef in x.catalog.accounts && p.executionMode in x.catalog.accounts[p.accountRef].quotaPoolsByMode
    then x.catalog.accounts[p.accountRef].quotaPoolsByMode[p.executionMode] else []
  }

  /** Each assessment, and when it is given: the first failing test names the reason. */
  ghost predicate AssessmentTable(x: Inputs, ref: Ref, reason: Reason) {
    if !Permitted(x, ref) then reason == ProfileNotPermitted
    else
      var p := x.catalog.profiles[ref];
      if !Running(x, p) then reason == ProfileDisabled
      else if !OptedIn(x, ref, p) then reason == ApiNotOptedIn
      else if !Reporting(x, ref) then reason == ControllerUnavailable
      else if !Capable(x, p) then reason == CapabilityMissing
      else VerdictTable(x, x.evidence[ref], PoolsOf(x, p), false, false, reason)
  }

  lemma VerdictIsExact(x: Inputs, e: Evidence, refs: seq<Ref>, quota: bool, threshold: bool, a: Reason, b: Reason)
    requires VerdictTable(x, e, refs, quota, threshold, a) && VerdictTable(x, e, refs, quota, threshold, b)
    ensures a == b
  {
    hide AllTold, StopsAt, SomeExhausted, SomeAtThreshold;
  }

  /** The table fixes the assessment of every profile. */
  lemma AssessmentIsTabled(x: Inputs, ref: Ref, reason: Reason)
    requires x.Valid()
    ensures AssessmentTable(x, ref, reason) <==> reason == Assess(x, ref)
  {
    hide VerdictTable, PoolsVerdict;
    if Permitted(x, ref) {
      var e, refs := x.EvidenceAt(ref), PoolsOf(x, x.catalog.profiles[ref]);
      VerdictIsTabled(x, e, refs, false, false);
      if VerdictTable(x, e, refs, false, false, reason) {
        VerdictIsExact(x, e, refs, false, false, reason, PoolsVerdict(x, e, refs, false, false));
      }
    }
  }

  // ----- reviewers -----

  /** The profile's model is known and has neither developer nor family in common with any author, all of them known. */
  ghost predicate SharesNothing(x: Inputs, ref: Ref) {
    && x.provenance.Some? && ref in x.evidence
    && var e := x.evidence[ref];
       && e.modelDeveloper != "" && e.modelFamily != ""
       && forall a | a in x.provenance.value.authors ::
            a.modelDeveloper !in {"", e.modelDeveloper} && a.modelFamily !in {"", e.modelFamily}
  }

  lemma ReviewerSharesNothing(x: Inputs, ref: Ref)
    ensures IndependentReviewer(x, ref) <==> SharesNothing(x, ref)
  {}

  /** Relaxing strict review: the fallback is on, every permitted and admitted model is known, one of them at least is
      independent, and each of these is out of quota by the table. */
  lemma RelaxedOnlyForQuota(x: Inputs)
    requires x.Valid()
    ensures MayRelax(x) <==>
              && x.binding.policy.qa.quotaFallback
              && (forall r | r in x.binding.permittedProfiles && r in x.admitted ::
                    r in x.evidence && x.evidence[r].modelDeveloper != "" && x.evidence[r].modelFamily != "")
              && (exists r :: r in x.binding.permittedProfiles && r in x.admitted && SharesNothing(x, r))
              && (forall r | r in x.binding.permittedProfiles && r in x.admitted && SharesNothing(x, r) ::
                    AssessmentTable(x, r, QuotaBlocked))
  {
    forall r
      ensures r in Alternatives(x) <==> r in x.binding.permittedProfiles && r in x.admitted
      ensures IndependentReviewer(x, r) <==> SharesNothing(x, r)
      ensures AssessmentTable(x, r, QuotaBlocked) <==> Assess(x, r) == QuotaBlocked
      ensures ModelKnown(x.EvidenceAt(r)) <==> r in x.evidence && x.evidence[r].modelDeveloper != "" && x.evidence[r].modelFamily != ""
    {
      ReviewerSharesNothing(x, r);
      AssessmentIsTabled(x, r, QuotaBlocked);
    }
    hide Assess, AssessmentTable, SharesNothing, IndependentReviewer, ModelKnown, Alternatives;
  }
}
