/** What a controller's slice keeps of the catalog, told in the catalog's own fields. */
module SliceLaws {
  import opened RuntimeCatalog
  import opened CatalogProjection

  /** A profile of this controller. */
  predicate Mine(c: Catalog, ref: Ref, r: Ref) {
    r in c.profiles && c.profiles[r].controllerRef == ref
  }

  /** An account of the catalog that some profile of this controller uses. */
  predicate UsedHere(c: Catalog, ref: Ref, account: Ref) {
    account in c.accounts && exists r | r in c.profiles :: Mine(c, ref, r) && c.profiles[r].accountRef == account
  }

  predicate ProviderHere(c: Catalog, ref: Ref, provider: string) {
    exists a | a in c.accounts :: UsedHere(c, ref, a) && c.accounts[a].provider == provider
  }

  /** A list without the profiles of other controllers; order and repetition stay. */
  function OnlyMine(c: Catalog, ref: Ref, list: seq<Ref>): seq<Ref> {
    if list == [] then [] else (if Mine(c, ref, list[0]) then [list[0]] else []) + OnlyMine(c, ref, list[1..])
  }

  function OnlyHere(c: Catalog, ref: Ref, providers: seq<string>): seq<string> {
    if providers == [] then []
    else (if ProviderHere(c, ref, providers[0]) then [providers[0]] else []) + OnlyHere(c, ref, providers[1..])
  }

  /** Filtering from the back is filtering from the front. */
  lemma {:induction false} KeepFirst(own: set<string>, list: seq<string>)
    requires list != []
    ensures Keep(own, list) == (if list[0] in own then [list[0]] else []) + Keep(own, list[1..])
  {
    hide Keep;
    var front, last := list[..|list| - 1], list[|list| - 1];
    KeepEnds(own, list);
    if |list| > 1 {
      KeepFirst(own, front);
      KeepEnds(own, list[1..]);
      assert list[1..][..|list| - 2] == front[1..];
    } else {
      KeepNone(own);
      assert front == [] && list[1..] == [];
    }
  }

  lemma KeepEnds(own: set<string>, list: seq<string>)
    requires list != []
    ensures Keep(own, list) == Keep(own, list[..|list| - 1]) + if list[|list| - 1] in own then [list[|list| - 1]] else []
  {}

  lemma KeepNone(own: set<string>)
    ensures Keep(own, []) == []
  {}

  lemma {:induction false} KeepIsOnlyMine(c: Catalog, ref: Ref, own: set<string>, list: seq<Ref>)
    requires forall r :: r in own <==> Mine(c, ref, r)
    ensures Keep(own, list) == OnlyMine(c, ref, list)
  {
    hide Mine;
    if list != [] {
      KeepFirst(own, list);
      KeepIsOnlyMine(c, ref, own, list[1..]);
    }
  }

  lemma {:induction false} KeepIsOnlyHere(c: Catalog, ref: Ref, own: set<string>, list: seq<string>)
    requires forall p :: p in own <==> ProviderHere(c, ref, p)
    ensures Keep(own, list) == OnlyHere(c, ref, list)
  {
    hide ProviderHere;
    if list != [] {
      KeepFirst(own, list);
      KeepIsOnlyHere(c, ref, own, list[1..]);
    }
  }

  lemma UsedIsHere(c: Catalog, ref: Ref, a: Ref)
    ensures a in UsedAccounts(c.accounts, OwnProfiles(c.profiles, ref)) <==> UsedHere(c, ref, a)
  {
    var own := OwnProfiles(c.profiles, ref);
    if UsedHere(c, ref, a) {
      var r :| r in c.profiles && Mine(c, ref, r) && c.profiles[r].accountRef == a;
      assert own[r].executionMode in Modes(own, a);
    }
  }

  lemma ProvidersAreHere(c: Catalog, ref: Ref, p: string)
    ensures p in Providers(UsedAccounts(c.accounts, OwnProfiles(c.profiles, ref))) <==> ProviderHere(c, ref, p)
  {
    var used := UsedAccounts(c.accounts, OwnProfiles(c.profiles, ref));
    forall a ensures a in used <==> UsedHere(c, ref, a) { UsedIsHere(c, ref, a); }
    hide UsedHere, Modes;
  }

  // ----- what each part of the slice is -----

  lemma SliceProfiles(c: Catalog, ref: Ref, r: Ref)
    ensures r in Project(c, ref).profiles <==> r in c.profiles && c.profiles[r].controllerRef == ref
    ensures r in Project(c, ref).profiles ==> Project(c, ref).profiles[r] == c.profiles[r]
  {
    hide UsedAccounts, UsedPools, ProjectBindings;
  }

  /** An account is there when a profile of the controller uses it, with the pool lists of the modes these use it in. */
  lemma SliceAccounts(c: Catalog, ref: Ref, a: Ref)
    ensures a in Project(c, ref).accounts <==> UsedHere(c, ref, a)
    ensures a in Project(c, ref).accounts ==>
              var kept, all := Project(c, ref).accounts[a], c.accounts[a];
              && kept.provider == all.provider && kept.credentialRef == all.credentialRef
              && (forall mode :: mode in kept.quotaPoolsByMode <==>
                    exists r :: Mine(c, ref, r) && c.profiles[r].accountRef == a && c.profiles[r].executionMode == mode)
              && forall mode | mode in kept.quotaPoolsByMode ::
                   kept.quotaPoolsByMode[mode] == if mode in all.quotaPoolsByMode then all.quotaPoolsByMode[mode] else []
  {
    hide UsedPools, ProjectBindings;
    UsedIsHere(c, ref, a);
    var own := OwnProfiles(c.profiles, ref);
    forall mode ensures mode in Modes(own, a) <==>
                          exists r :: Mine(c, ref, r) && c.profiles[r].accountRef == a && c.profiles[r].executionMode == mode
    {
      ModesInWords(c, ref, a, mode);
    }
    hide Modes, UsedHere, Mine;
  }

  lemma ModesInWords(c: Catalog, ref: Ref, a: Ref, mode: string)
    ensures mode in Modes(OwnProfiles(c.profiles, ref), a) <==>
              exists r :: Mine(c, ref, r) && c.profiles[r].accountRef == a && c.profiles[r].executionMode == mode
  {
    var own := OwnProfiles(c.profiles, ref);
    if r :| Mine(c, ref, r) && c.profiles[r].accountRef == a && c.profiles[r].executionMode == mode {
      assert own[r].executionMode == mode;
    }
  }

  /** The profile's account lists this reference for the profile's mode. */
  predicate Lists(c: Catalog, r: Ref, pool: Ref) {
    r in c.profiles &&
    var p := c.profiles[r];
    && p.accountRef in c.accounts && p.executionMode in c.accounts[p.accountRef].quotaPoolsByMode
    && pool in c.accounts[p.accountRef].quotaPoolsByMode[p.executionMode]
  }

  /** A pool is there when a profile of the controller lists it, by name or by an alias that is no pool's name. */
  lemma SlicePools(c: Catalog, ref: Ref, n: Ref)
    ensures n in Project(c, ref).pools <==>
              n in c.pools && exists r, pool :: Mine(c, ref, r) && Lists(c, r, pool)
                                                && (pool == n || (pool !in c.pools && pool in c.pools[n].aliases))
    ensures n in Project(c, ref).pools ==> Project(c, ref).pools[n] == c.pools[n]
  {
    hide UsedAccounts, ProjectBindings;
    var own := OwnProfiles(c.profiles, ref);
    forall pool ensures Draws(c.accounts, own, pool) <==> exists r :: Mine(c, ref, r) && Lists(c, r, pool) {
      DrawsInWords(c, ref, pool);
    }
    hide Draws, Mine, Lists;
    if n in c.pools && Drawn(c.pools, c.accounts, own, n) {
      var pool :| Draws(c.accounts, own, pool) && ResolvesTo(c.pools, pool, n);
    }
    if r, pool :| n in c.pools && Mine(c, ref, r) && Lists(c, r, pool) && (pool == n || (pool !in c.pools && pool in c.pools[n].aliases)) {
      assert ResolvesTo(c.pools, pool, n);
    }
  }

  lemma DrawsInWords(c: Catalog, ref: Ref, pool: Ref)
    ensures Draws(c.accounts, OwnProfiles(c.profiles, ref), pool) <==> exists r :: Mine(c, ref, r) && Lists(c, r, pool)
  {
    var own := OwnProfiles(c.profiles, ref);
    if r :| Mine(c, ref, r) && Lists(c, r, pool) { assert own[r] == c.profiles[r]; }
    if r :| r in own && pool in PoolRefs(c.accounts, own[r]) { assert Mine(c, ref, r) && Lists(c, r, pool); }
  }

  /** A binding of the slice is the catalog's, with every list cut down to this controller's profiles or to the providers of
      the accounts they use, order and repetition kept, and with everything else as it was. */
  lemma SliceBinding(c: Catalog, ref: Ref, n: Ref)
    requires n in Project(c, ref).bindings
    ensures n in c.bindings
    ensures var kept, all := Project(c, ref).bindings[n], c.bindings[n];
            && kept.identity == all.identity && kept.enabled == all.enabled && kept.policy.qa == all.policy.qa
            && kept.policy.maxAttempts == all.policy.maxAttempts
            && kept.policy.evidenceMaxAgeSeconds == all.policy.evidenceMaxAgeSeconds
            && kept.permittedProfiles == OnlyMine(c, ref, all.permittedProfiles)
            && kept.policy.primaryProfiles == OnlyMine(c, ref, all.policy.primaryProfiles)
            && kept.policy.apiReserveProviders == OnlyHere(c, ref, all.policy.apiReserveProviders)
            && (forall from :: from in kept.policy.quotaEdges <==> from in all.policy.quotaEdges && Mine(c, ref, from))
            && (forall from | from in kept.policy.quotaEdges ::
                  kept.policy.quotaEdges[from] == OnlyMine(c, ref, all.policy.quotaEdges[from]))
            && (forall p :: p in kept.policy.preferredAccounts <==>
                  p in all.policy.preferredAccounts && UsedHere(c, ref, all.policy.preferredAccounts[p]))
            && (forall p | p in kept.policy.preferredAccounts :: kept.policy.preferredAccounts[p] == all.policy.preferredAccounts[p])
  {
    hide UsedPools;
    var own, used, b := OwnProfiles(c.profiles, ref), UsedAccounts(c.accounts, OwnProfiles(c.profiles, ref)), c.bindings[n];
    forall r ensures r in own.Keys <==> Mine(c, ref, r) {}
    forall a ensures a in used <==> UsedHere(c, ref, a) { UsedIsHere(c, ref, a); }
    forall p ensures p in Providers(used) <==> ProviderHere(c, ref, p) { ProvidersAreHere(c, ref, p); }
    hide UsedAccounts, Keep, Mine, UsedHere, ProviderHere, OnlyMine, OnlyHere, Providers, OwnProfiles;
    assert own.Keys == Project(c, ref).profiles.Keys;
    KeepIsOnlyMine(c, ref, own.Keys, b.permittedProfiles);
    KeepIsOnlyMine(c, ref, own.Keys, b.policy.primaryProfiles);
    KeepIsOnlyHere(c, ref, Providers(used), b.policy.apiReserveProviders);
    forall from | from in b.policy.quotaEdges
      ensures Keep(own.Keys, b.policy.quotaEdges[from]) == OnlyMine(c, ref, b.policy.quotaEdges[from])
    {
      KeepIsOnlyMine(c, ref, own.Keys, b.policy.quotaEdges[from]);
    }
  }
}
