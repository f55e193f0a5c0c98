/** What a controller's slice keeps of a valid catalog, and what it cannot depend on. */
module ProjectionLaws {
  import opened Ordering
  import opened RuntimeCatalog
  import opened CatalogReferences
  import opened CatalogProjection

  /** The slice as a catalog of its own, with the one controller entry it is served with. */
  ghost function Slice(c: Catalog, ref: Ref): Catalog
    requires ref in c.controllers
  {
    var d := Project(c, ref);
    Catalog(map[ref := c.controllers[ref]], d.accounts, d.pools, d.profiles, d.bindings)
  }

  /** A preferred account is used by this controller's profiles, but by none the binding permits. */
  predicate Stray(c: Catalog, ref: Ref, b: Binding) {
    var own := OwnProfiles(c.profiles, ref);
    exists provider | provider in b.policy.preferredAccounts ::
      StrayAccount(own, b.permittedProfiles, b.policy.preferredAccounts[provider])
  }

  predicate StrayAccount(own: map<Ref, Profile>, permitted: seq<Ref>, account: Ref) {
    && (exists n | n in own :: own[n].accountRef == account)
    && (forall r | r in permitted && r in own :: own[r].accountRef != account)
  }

  // ----- the slice of a valid catalog -----

  /** A slice of a valid catalog breaks one clause only: a preferred account no permitted profile of the slice uses. */
  lemma SliceBreaksOnlyPreference(c: Catalog, ref: Ref, f: Field)
    requires ref in c.controllers && ReferencesOk(c)
    ensures Bad(Slice(c, ref), f) <==>
              f.BindingPreferred? && f.name in Slice(c, ref).bindings && Stray(c, ref, c.bindings[f.name])
  {
    hide Less, PhysicalKey, BadResource, BadAliases, BadPools, BadIdentity, BadEdges, BadPreferred, BadCapabilities,
         Stray, UsedAccounts, UsedPools, ProjectBindings;
    assert !Bad(c, f);
    match f
    case PoolResource(name) => ResourceKept(c, ref, name);
    case PoolAliases(name) => AliasesKept(c, ref, name);
    case AccountPools(name, mode) => PoolsKept(c, ref, name, mode);
    case ProfileController(name) => {}
    case ProfileAccount(name) => if name in OwnProfiles(c.profiles, ref) { AccountKept(c, ref, name); }
    case ProfileMode(name) =>
      assert !Bad(c, ProfileAccount(name));
      if name in OwnProfiles(c.profiles, ref) { AccountKept(c, ref, name); }
    case ProfileCapabilities(name) => if name in OwnProfiles(c.profiles, ref) { CapabilitiesKept(c, ref, name); }
    case BindingIdentity(name) => IdentityKept(c, ref, name);
    case BindingPermitted(name) => ListsKept(c, ref, name);
    case BindingPrimary(name) => ListsKept(c, ref, name);
    case BindingEdges(name) => EdgesKept(c, ref, name);
    case BindingPreferred(name) => PreferredKept(c, ref, name);
  }

  lemma ResourceKept(c: Catalog, ref: Ref, name: Ref)
    requires ref in c.controllers && !BadResource(c, name)
    ensures !BadResource(Slice(c, ref), name)
  {}

  lemma AliasesKept(c: Catalog, ref: Ref, name: Ref)
    requires ref in c.controllers && !BadAliases(c, name)
    ensures !BadAliases(Slice(c, ref), name)
  {
    hide Less, Drawn, UsedAccounts, ProjectBindings, OwnProfiles;
    var s := Slice(c, ref);
    if name in s.pools {
      var aliases := c.pools[name].aliases;
      forall i: nat | i < |aliases| && AliasClashes(s, name, aliases, i) ensures AliasClashes(c, name, aliases, i) {}
    }
  }

  lemma PoolsKept(c: Catalog, ref: Ref, name: Ref, mode: string)
    requires ref in c.controllers && !BadPools(c, name, mode)
    ensures !BadPools(Slice(c, ref), name, mode)
  {
    hide ProjectBindings, LeadsToProvider, UsedPools, Draws;
    var s := Slice(c, ref);
    if name in s.accounts && mode in s.accounts[name].quotaPoolsByMode {
      var own := OwnProfiles(c.profiles, ref);
      var n :| n in own && own[n].accountRef == name && own[n].executionMode == mode;
      forall r | r in s.accounts[name].quotaPoolsByMode[mode] ensures LeadsToProvider(s, r, s.accounts[name].provider) {
        DrawnLeads(c, ref, r, n);
      }
    }
  }

  lemma DrawnLeads(c: Catalog, ref: Ref, r: Ref, n: Ref)
    requires ref in c.controllers && n in OwnProfiles(c.profiles, ref)
    requires r in PoolRefs(c.accounts, c.profiles[n]) && c.profiles[n].accountRef in c.accounts
    requires LeadsToProvider(c, r, c.accounts[c.profiles[n].accountRef].provider)
    ensures LeadsToProvider(Slice(c, ref), r, c.accounts[c.profiles[n].accountRef].provider)
  {
    hide ProjectBindings, UsedAccounts, PoolRefs;
    var own := OwnProfiles(c.profiles, ref);
    var pool :| ResolvesTo(c.pools, r, pool) && c.pools[pool].provider == c.accounts[c.profiles[n].accountRef].provider;
    assert own[n] == c.profiles[n];
    assert Draws(c.accounts, own, r);
    assert Drawn(c.pools, c.accounts, own, pool);
    assert ResolvesTo(Slice(c, ref).pools, r, pool);
  }

  lemma AccountKept(c: Catalog, ref: Ref, name: Ref)
    requires ref in c.controllers && name in OwnProfiles(c.profiles, ref) && c.profiles[name].accountRef in c.accounts
    ensures var p, used := c.profiles[name], UsedAccounts(c.accounts, OwnProfiles(c.profiles, ref));
            && p.accountRef in used
            && used[p.accountRef].provider == c.accounts[p.accountRef].provider
            && ListAt(used[p.accountRef].quotaPoolsByMode, p.executionMode)
               == ListAt(c.accounts[p.accountRef].quotaPoolsByMode, p.executionMode)
  {
    var own, p := OwnProfiles(c.profiles, ref), c.profiles[name];
    assert own[name] == p;
    assert p.executionMode in Modes(own, p.accountRef);
  }

  lemma CapabilitiesKept(c: Catalog, ref: Ref, name: Ref)
    requires ref in c.controllers && name in OwnProfiles(c.profiles, ref) && !BadCapabilities(c, c.profiles[name])
    ensures !BadCapabilities(Slice(c, ref), c.profiles[name])
  {}

  lemma IdentityKept(c: Catalog, ref: Ref, name: Ref)
    requires ref in c.controllers && !BadIdentity(c, name)
    ensures !BadIdentity(Slice(c, ref), name)
  {}

  lemma ListsKept(c: Catalog, ref: Ref, name: Ref)
    requires ref in c.controllers && !Bad(c, BindingPrimary(name))
    ensures !Bad(Slice(c, ref), BindingPermitted(name)) && !Bad(Slice(c, ref), BindingPrimary(name))
  {
    hide KeepEdges, KeepPreferred, Providers, UsedAccounts, UsedPools;
  }

  lemma EdgesKept(c: Catalog, ref: Ref, name: Ref)
    requires ref in c.controllers && !Bad(c, BindingEdges(name))
    ensures !Bad(Slice(c, ref), BindingEdges(name))
  {}

  lemma PreferredKept(c: Catalog, ref: Ref, name: Ref)
    requires ref in c.controllers && !Bad(c, BindingPreferred(name))
    ensures Bad(Slice(c, ref), BindingPreferred(name)) <==> name in Slice(c, ref).bindings && Stray(c, ref, c.bindings[name])
  {
    hide KeepEdges, Providers, UsedPools, StrayAccount;
    var s := Slice(c, ref);
    if name in s.bindings {
      var own, b := OwnProfiles(c.profiles, ref), c.bindings[name];
      forall provider | provider in b.policy.preferredAccounts
        ensures provider in s.bindings[name].policy.preferredAccounts ==>
                  !BadPreference(s, provider, b.policy.preferredAccounts[provider])
        ensures StrayAccount(own, b.permittedProfiles, b.policy.preferredAccounts[provider]) <==>
                  provider in s.bindings[name].policy.preferredAccounts
                  && !UsedByPermitted(s, s.bindings[name], b.policy.preferredAccounts[provider])
      {
        PreferredAccountKept(c, ref, b, provider);
      }
    }
  }

  lemma PreferredAccountKept(c: Catalog, ref: Ref, b: Binding, provider: string)
    requires ref in c.controllers && provider in b.policy.preferredAccounts
    requires !BadPreference(c, provider, b.policy.preferredAccounts[provider])
    ensures var own, account := OwnProfiles(c.profiles, ref), b.policy.preferredAccounts[provider];
            var used := UsedAccounts(c.accounts, own);
            var s := ProjectBinding(own.Keys, used, b);
            && (provider in s.policy.preferredAccounts ==> !BadPreference(Slice(c, ref), provider, account))
            && (StrayAccount(own, b.permittedProfiles, account) <==>
                provider in s.policy.preferredAccounts && !UsedByPermitted(Slice(c, ref), s, account))
  {
    hide KeepEdges, Providers, UsedPools, ProjectBindings;
    var own, account := OwnProfiles(c.profiles, ref), b.policy.preferredAccounts[provider];
    assert account in UsedAccounts(c.accounts, own) <==> exists n | n in own :: own[n].accountRef == account by {
      if n :| n in own && own[n].accountRef == account { assert own[n].executionMode in Modes(own, account); }
    }
  }

  /** The binding permits some profile of this controller. */
  predicate Serves(c: Catalog, ref: Ref, b: Binding) {
    exists r | r in b.permittedProfiles :: r in c.profiles && c.profiles[r].controllerRef == ref
  }

  lemma ServedBindings(c: Catalog, ref: Ref, n: Ref)
    ensures n in Project(c, ref).bindings <==> n in c.bindings && Serves(c, ref, c.bindings[n])
  {
    hide UsedAccounts, UsedPools, KeepEdges, KeepPreferred, Providers;
    if n in c.bindings {
      var own, b := OwnProfiles(c.profiles, ref), c.bindings[n];
      var kept := Keep(own.Keys, b.permittedProfiles);
      if kept != [] { assert kept[0] in kept; }
    }
  }

  /** The exact condition under which the slice of a valid catalog is valid again. */
  lemma SliceIsValidIff(c: Catalog, ref: Ref)
    requires ref in c.controllers && ReferencesOk(c)
    ensures ReferencesOk(Slice(c, ref)) <==>
              forall n | n in c.bindings && Serves(c, ref, c.bindings[n]) :: !Stray(c, ref, c.bindings[n])
  {
    hide Bad, Stray, Serves, UsedAccounts, UsedPools, ProjectBindings;
    forall n ensures n in Slice(c, ref).bindings <==> n in c.bindings && Serves(c, ref, c.bindings[n]) {
      ServedBindings(c, ref, n);
    }
    forall f ensures Bad(Slice(c, ref), f) <==>
                       f.BindingPreferred? && f.name in Slice(c, ref).bindings && Stray(c, ref, c.bindings[f.name])
    {
      SliceBreaksOnlyPreference(c, ref, f);
    }
    forall n | n in c.bindings && Serves(c, ref, c.bindings[n]) && Stray(c, ref, c.bindings[n])
      ensures !ReferencesOk(Slice(c, ref))
    {
      assert Bad(Slice(c, ref), BindingPreferred(n));
    }
  }

  // ----- projecting twice -----

  lemma ProjectionIsIdempotent(c: Catalog, ref: Ref)
    requires ref in c.controllers
    ensures Project(Slice(c, ref), ref) == Project(c, ref)
  {
    hide UsedAccounts, UsedPools, ProjectBindings, PoolRefs;
    var s, own := Slice(c, ref), OwnProfiles(c.profiles, ref);
    assert OwnProfiles(own, ref) == own;
    UsedTwice(c.accounts, own);
    DrawnTwice(c.pools, c.accounts, own);
    BindingsTwice(own.Keys, UsedAccounts(c.accounts, own), c.bindings);
  }

  lemma UsedTwice(accounts: map<Ref, Account>, own: map<Ref, Profile>)
    ensures UsedAccounts(UsedAccounts(accounts, own), own) == UsedAccounts(accounts, own)
  {
    hide Modes;
    forall a | a in accounts
      ensures Narrowed(Narrowed(accounts[a], Modes(own, a)), Modes(own, a)) == Narrowed(accounts[a], Modes(own, a)) {}
  }

  lemma DrawnTwice(pools: map<Ref, Pool>, accounts: map<Ref, Account>, own: map<Ref, Profile>)
    ensures var d := UsedPools(pools, accounts, own);
            UsedPools(d, UsedAccounts(accounts, own), own) == d
  {
    hide Draws, ResolvesTo, UsedAccounts;
    var d, used := UsedPools(pools, accounts, own), UsedAccounts(accounts, own);
    forall r ensures Draws(used, own, r) <==> Draws(accounts, own, r) { DrawsTwice(accounts, own, r); }
    forall n ensures Drawn(d, used, own, n) <==> Drawn(pools, accounts, own, n) {
      if Drawn(d, used, own, n) {
        var r :| Draws(used, own, r) && ResolvesTo(d, r, n);
        ResolvesInSlice(pools, accounts, own, r, n);
      }
      if Drawn(pools, accounts, own, n) {
        var r :| Draws(accounts, own, r) && ResolvesTo(pools, r, n);
        ResolvesInSlice(pools, accounts, own, r, n);
      }
    }
  }

  lemma DrawsTwice(accounts: map<Ref, Account>, own: map<Ref, Profile>, r: Ref)
    ensures Draws(UsedAccounts(accounts, own), own, r) <==> Draws(accounts, own, r)
  {
    hide PoolRefs;
    forall n | n in own ensures PoolRefs(UsedAccounts(accounts, own), own[n]) == PoolRefs(accounts, own[n]) {
      PoolRefsTwice(accounts, own, n);
    }
  }

  lemma PoolRefsTwice(accounts: map<Ref, Account>, own: map<Ref, Profile>, n: Ref)
    requires n in own
    ensures PoolRefs(UsedAccounts(accounts, own), own[n]) == PoolRefs(accounts, own[n])
  {
    assert own[n].executionMode in Modes(own, own[n].accountRef);
  }

  /** A drawn reference leads to the same pools in the slice as in the catalog. */
  lemma ResolvesInSlice(pools: map<Ref, Pool>, accounts: map<Ref, Account>, own: map<Ref, Profile>, r: Ref, n: Ref)
    requires Draws(accounts, own, r)
    ensures ResolvesTo(UsedPools(pools, accounts, own), r, n) <==> ResolvesTo(pools, r, n)
  {}

  lemma KeepLast(own: set<string>, list: seq<string>, last: string)
    ensures Keep(own, list + [last]) == if last in own then Keep(own, list) + [last] else Keep(own, list)
  {}

  lemma {:induction false} KeepTwice(own: set<string>, list: seq<string>)
    ensures Keep(own, Keep(own, list)) == Keep(own, list)
  {
    if list != [] {
      var front, last := list[..|list| - 1], list[|list| - 1];
      KeepTwice(own, front);
      hide Keep;
      assert list == front + [last];
      KeepLast(own, front, last);
      KeepLast(own, Keep(own, front), last);
    }
  }

  lemma BindingsTwice(own: set<Ref>, used: map<Ref, Account>, bindings: map<Ref, Binding>)
    ensures var once := ProjectBindings(own, used, bindings);
            ProjectBindings(own, used, once) == once
  {
    hide ProjectBinding, Keep;
    var once := ProjectBindings(own, used, bindings);
    forall n | n in once
      ensures ProjectBinding(own, used, once[n]) == once[n]
      ensures Keep(own, once[n].permittedProfiles) != []
    {
      BindingTwice(own, used, bindings[n]);
    }
  }

  lemma BindingTwice(own: set<Ref>, used: map<Ref, Account>, b: Binding)
    ensures var once := ProjectBinding(own, used, b);
            ProjectBinding(own, used, once) == once && Keep(own, once.permittedProfiles) == Keep(own, b.permittedProfiles)
  {
    hide Keep, Providers;
    KeepTwice(own, b.permittedProfiles);
    KeepTwice(own, b.policy.primaryProfiles);
    KeepTwice(Providers(used), b.policy.apiReserveProviders);
    forall from | from in b.policy.quotaEdges { KeepTwice(own, b.policy.quotaEdges[from]); }
    var edges := KeepEdges(own, b.policy.quotaEdges);
    assert KeepEdges(own, edges) == edges;
    var preferred := KeepPreferred(used, b.policy.preferredAccounts);
    assert KeepPreferred(used, preferred) == preferred;
  }

  // ----- what the slice cannot depend on -----

  /** Two catalogs alike in what this controller's slice is made of: its own profiles, the part of an account they use,
      the pools their references lead to, and the bindings that permit one of them. Nothing is said of other profiles,
      accounts, modes, pools or bindings. */
  ghost predicate AlikeFor(c: Catalog, d: Catalog, ref: Ref) {
    && (forall n :: n in c.profiles && c.profiles[n].controllerRef == ref <==> n in d.profiles && d.profiles[n].controllerRef == ref)
    && (forall n | n in c.profiles && c.profiles[n].controllerRef == ref :: c.profiles[n] == d.profiles[n] && AlikeAccount(c, d, c.profiles[n]))
    && (forall n :: n in c.bindings && Serves(c, ref, c.bindings[n]) <==> n in d.bindings && Serves(d, ref, d.bindings[n]))
    && (forall n | n in c.bindings && Serves(c, ref, c.bindings[n]) :: c.bindings[n] == d.bindings[n])
  }

  ghost predicate AlikeAccount(c: Catalog, d: Catalog, p: Profile) {
    && (p.accountRef in c.accounts <==> p.accountRef in d.accounts)
    && (p.accountRef in c.accounts ==>
        var a, b := c.accounts[p.accountRef], d.accounts[p.accountRef];
        && a.provider == b.provider && a.credentialRef == b.credentialRef
        && ListAt(a.quotaPoolsByMode, p.executionMode) == ListAt(b.quotaPoolsByMode, p.executionMode))
    && (forall r | r in PoolRefs(c.accounts, p) :: AlikePools(c, d, r))
  }

  /** The reference leads to the same pools. */
  ghost predicate AlikePools(c: Catalog, d: Catalog, r: Ref) {
    && (forall n :: ResolvesTo(c.pools, r, n) <==> ResolvesTo(d.pools, r, n))
    && (forall n | ResolvesTo(c.pools, r, n) && ResolvesTo(d.pools, r, n) :: c.pools[n] == d.pools[n])
  }

  lemma NonInterference(c: Catalog, d: Catalog, ref: Ref)
    requires AlikeFor(c, d, ref)
    ensures Project(c, ref) == Project(d, ref)
  {
    SameOwn(c, d, ref);
    SameUsed(c, d, ref);
    SameDrawn(c, d, ref);
    SameBindings(c, d, ref);
    hide UsedAccounts, UsedPools, ProjectBindings, AlikeFor, OwnProfiles;
  }

  lemma SameOwn(c: Catalog, d: Catalog, ref: Ref)
    requires AlikeFor(c, d, ref)
    ensures OwnProfiles(c.profiles, ref) == OwnProfiles(d.profiles, ref)
  {
    hide AlikeAccount, Serves;
  }

  lemma SameBindings(c: Catalog, d: Catalog, ref: Ref)
    requires AlikeFor(c, d, ref)
    ensures Project(c, ref).bindings == Project(d, ref).bindings
  {
    SameOwn(c, d, ref);
    SameUsed(c, d, ref);
    var own := OwnProfiles(c.profiles, ref);
    var used := UsedAccounts(c.accounts, own);
    forall n
      ensures n in ProjectBindings(own.Keys, used, c.bindings) <==> n in ProjectBindings(own.Keys, used, d.bindings)
      ensures n in ProjectBindings(own.Keys, used, c.bindings) ==> n in c.bindings && n in d.bindings && c.bindings[n] == d.bindings[n]
    {
      ServedAlike(c, d, ref, n);
    }
    hide *;
    EqualBindings(own.Keys, used, c.bindings, d.bindings);
    ProjectedBindings(c, ref);
    ProjectedBindings(d, ref);
  }

  lemma ProjectedBindings(c: Catalog, ref: Ref)
    ensures var own := OwnProfiles(c.profiles, ref);
            Project(c, ref).bindings == ProjectBindings(own.Keys, UsedAccounts(c.accounts, own), c.bindings)
  {}

  lemma ServedAlike(c: Catalog, d: Catalog, ref: Ref, n: Ref)
    requires AlikeFor(c, d, ref)
    ensures var own := OwnProfiles(c.profiles, ref);
            var used := UsedAccounts(c.accounts, own);
            && (n in ProjectBindings(own.Keys, used, c.bindings) <==> n in ProjectBindings(own.Keys, used, d.bindings))
            && (n in ProjectBindings(own.Keys, used, c.bindings) ==> n in c.bindings && n in d.bindings && c.bindings[n] == d.bindings[n])
  {
    SameOwn(c, d, ref);
    SameUsed(c, d, ref);
    ServedBindings(c, ref, n);
    ServedBindings(d, ref, n);
    hide UsedAccounts, UsedPools, ProjectBindings, AlikeAccount, Serves, OwnProfiles;
  }

  lemma EqualBindings(own: set<Ref>, used: map<Ref, Account>, a: map<Ref, Binding>, b: map<Ref, Binding>)
    requires forall n :: n in ProjectBindings(own, used, a) <==> n in ProjectBindings(own, used, b)
    requires forall n | n in ProjectBindings(own, used, a) :: n in a && n in b && a[n] == b[n]
    ensures ProjectBindings(own, used, a) == ProjectBindings(own, used, b)
  {
    hide ProjectBinding, Keep;
    forall n | n in ProjectBindings(own, used, a) ensures ProjectBindings(own, used, a)[n] == ProjectBindings(own, used, b)[n] {}
  }

  lemma SameUsed(c: Catalog, d: Catalog, ref: Ref)
    requires AlikeFor(c, d, ref)
    ensures var own := OwnProfiles(c.profiles, ref);
            UsedAccounts(c.accounts, own) == UsedAccounts(d.accounts, own)
  {
    hide AlikeAccount, Narrowed;
    var own := OwnProfiles(c.profiles, ref);
    forall a | Modes(own, a) != {}
      ensures a in c.accounts <==> a in d.accounts
      ensures a in c.accounts ==> Narrowed(c.accounts[a], Modes(own, a)) == Narrowed(d.accounts[a], Modes(own, a))
    {
      SameAccount(c, d, ref, a);
    }
  }

  lemma SameAccount(c: Catalog, d: Catalog, ref: Ref, a: Ref)
    requires AlikeFor(c, d, ref) && Modes(OwnProfiles(c.profiles, ref), a) != {}
    ensures a in c.accounts <==> a in d.accounts
    ensures a in c.accounts ==>
              var modes := Modes(OwnProfiles(c.profiles, ref), a);
              Narrowed(c.accounts[a], modes) == Narrowed(d.accounts[a], modes)
  {}

  lemma SameDrawn(c: Catalog, d: Catalog, ref: Ref)
    requires AlikeFor(c, d, ref)
    ensures var own := OwnProfiles(c.profiles, ref);
            UsedPools(c.pools, c.accounts, own) == UsedPools(d.pools, d.accounts, own)
  {
    hide AlikeFor, AlikePools, Draws, UsedPools, OwnProfiles;
    var own := OwnProfiles(c.profiles, ref);
    forall r ensures Draws(c.accounts, own, r) <==> Draws(d.accounts, own, r) { SameDraws(c, d, ref, r); }
    forall r | Draws(c.accounts, own, r) ensures AlikePools(c, d, r) { DrawnAlike(c, d, ref, r); }
    EqualPools(c, d, own);
  }

  lemma EqualPools(c: Catalog, d: Catalog, own: map<Ref, Profile>)
    requires forall r :: Draws(c.accounts, own, r) <==> Draws(d.accounts, own, r)
    requires forall r | Draws(c.accounts, own, r) :: AlikePools(c, d, r)
    ensures UsedPools(c.pools, c.accounts, own) == UsedPools(d.pools, d.accounts, own)
  {
    hide Draws, AlikePools, Drawn;
    forall n
      ensures Drawn(c.pools, c.accounts, own, n) <==> Drawn(d.pools, d.accounts, own, n)
      ensures Drawn(c.pools, c.accounts, own, n) ==> n in c.pools && n in d.pools && c.pools[n] == d.pools[n]
    {
      DrawnSame(c, d, own, n);
    }
  }

  lemma SameDraws(c: Catalog, d: Catalog, ref: Ref, r: Ref)
    requires AlikeFor(c, d, ref)
    ensures Draws(c.accounts, OwnProfiles(c.profiles, ref), r) <==> Draws(d.accounts, OwnProfiles(c.profiles, ref), r)
  {
    hide Serves, AlikePools;
    var own := OwnProfiles(c.profiles, ref);
    forall n | n in own ensures PoolRefs(c.accounts, own[n]) == PoolRefs(d.accounts, own[n]) {
      assert AlikeAccount(c, d, c.profiles[n]);
    }
    hide PoolRefs, AlikeAccount;
  }

  lemma DrawnAlike(c: Catalog, d: Catalog, ref: Ref, r: Ref)
    requires AlikeFor(c, d, ref) && Draws(c.accounts, OwnProfiles(c.profiles, ref), r)
    ensures AlikePools(c, d, r)
  {
    hide Serves, AlikePools, PoolRefs;
    var own := OwnProfiles(c.profiles, ref);
    var n :| n in own && r in PoolRefs(c.accounts, own[n]);
    assert AlikeAccount(c, d, c.profiles[n]);
  }

  lemma DrawnSame(c: Catalog, d: Catalog, own: map<Ref, Profile>, n: Ref)
    requires forall r :: Draws(c.accounts, own, r) <==> Draws(d.accounts, own, r)
    requires forall r | Draws(c.accounts, own, r) :: AlikePools(c, d, r)
    ensures Drawn(c.pools, c.accounts, own, n) <==> Drawn(d.pools, d.accounts, own, n)
    ensures Drawn(c.pools, c.accounts, own, n) ==> n in c.pools && n in d.pools && c.pools[n] == d.pools[n]
  {
    hide Draws, ResolvesTo, AlikePools;
    if Drawn(c.pools, c.accounts, own, n) {
      var r :| Draws(c.accounts, own, r) && ResolvesTo(c.pools, r, n);
      AlikeLeads(c, d, r, n);
    }
    if Drawn(d.pools, d.accounts, own, n) {
      var r :| Draws(d.accounts, own, r) && ResolvesTo(d.pools, r, n);
      AlikeLeads(c, d, r, n);
    }
  }

  lemma AlikeLeads(c: Catalog, d: Catalog, r: Ref, n: Ref)
    requires AlikePools(c, d, r)
    ensures ResolvesTo(c.pools, r, n) <==> ResolvesTo(d.pools, r, n)
    ensures ResolvesTo(c.pools, r, n) ==> n in c.pools && n in d.pools && c.pools[n] == d.pools[n]
  {}

  /** Everything a binding of the slice mentions is in the slice. */
  lemma NothingForeign(c: Catalog, ref: Ref, name: Ref)
    requires name in Project(c, ref).bindings
    ensures var d := Project(c, ref);
            var b := d.bindings[name];
            && b.permittedProfiles != [] && name in c.bindings
            && (forall r | r in b.permittedProfiles + b.policy.primaryProfiles :: r in d.profiles)
            && (forall from | from in b.policy.quotaEdges ::
                  from in d.profiles && forall r | r in b.policy.quotaEdges[from] :: r in d.profiles)
            && (forall p | p in b.policy.preferredAccounts :: b.policy.preferredAccounts[p] in d.accounts)
            && (forall p | p in b.policy.apiReserveProviders :: exists a :: a in d.accounts && d.accounts[a].provider == p)
            && (forall n | n in d.profiles :: n in c.profiles && d.profiles[n].controllerRef == ref)
  {}
}
