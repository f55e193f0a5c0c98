/** DesiredFor: one controller's slice of the catalog. */
module CatalogProjection {
  import opened Options
  import opened RuntimeCatalog
  import opened CatalogReferences

  datatype Desired = Desired(
    accounts: map<Ref, Account>,
    pools: map<Ref, Pool>,
    profiles: map<Ref, Profile>,
    bindings: map<Ref, Binding>)

  // ----- what the slice is -----

  function OwnProfiles(profiles: map<Ref, Profile>, ref: Ref): map<Ref, Profile> {
    map n | n in profiles && profiles[n].controllerRef == ref :: profiles[n]
  }

  /** The modes in which the profiles run on an account; empty when none uses it. */
  function Modes(own: map<Ref, Profile>, account: Ref): set<string> {
    set n | n in own && own[n].accountRef == account :: own[n].executionMode
  }

  /** An account with the pool lists of some modes only. */
  function Narrowed(account: Account, modes: set<string>): Account {
    account.(quotaPoolsByMode := map m | m in modes :: ListAt(account.quotaPoolsByMode, m))
  }

  function UsedAccounts(accounts: map<Ref, Account>, own: map<Ref, Profile>): map<Ref, Account> {
    map a | a in accounts && Modes(own, a) != {} :: Narrowed(accounts[a], Modes(own, a))
  }

  /** Some profile's account lists this pool reference for the profile's mode. */
  predicate Draws(accounts: map<Ref, Account>, own: map<Ref, Profile>, r: Ref) {
    exists n | n in own :: r in PoolRefs(accounts, own[n])
  }

  function PoolRefs(accounts: map<Ref, Account>, p: Profile): seq<Ref> {
    if p.accountRef in accounts then ListAt(accounts[p.accountRef].quotaPoolsByMode, p.executionMode) else []
  }

  ghost predicate Drawn(pools: map<Ref, Pool>, accounts: map<Ref, Account>, own: map<Ref, Profile>, n: Ref) {
    exists r :: Draws(accounts, own, r) && ResolvesTo(pools, r, n)
  }

  ghost function UsedPools(pools: map<Ref, Pool>, accounts: map<Ref, Account>, own: map<Ref, Profile>): map<Ref, Pool> {
    map n | n in pools && Drawn(pools, accounts, own, n) :: pools[n]
  }

  /** The members of a list that are in a set, in order, repetitions included. */
  function Keep(own: set<string>, list: seq<string>): (kept: seq<string>)
    ensures forall r :: r in kept <==> r in list && r in own
  {
    if list == [] then []
    else Keep(own, list[..|list| - 1]) + if list[|list| - 1] in own then [list[|list| - 1]] else []
  }

  function Providers(used: map<Ref, Account>): set<string> {
    set a | a in used :: used[a].provider
  }

  function KeepEdges(own: set<Ref>, edges: map<Ref, seq<Ref>>): map<Ref, seq<Ref>> {
    map from | from in edges && from in own :: Keep(own, edges[from])
  }

  function KeepPreferred(used: map<Ref, Account>, preferred: map<string, Ref>): map<string, Ref> {
    map provider | provider in preferred && preferred[provider] in used :: preferred[provider]
  }

  function ProjectBinding(own: set<Ref>, used: map<Ref, Account>, b: Binding): Binding {
    b.(permittedProfiles := Keep(own, b.permittedProfiles),
       policy := b.policy.(
         primaryProfiles := Keep(own, b.policy.primaryProfiles),
         quotaEdges := KeepEdges(own, b.policy.quotaEdges),
         preferredAccounts := KeepPreferred(used, b.policy.preferredAccounts),
         apiReserveProviders := Keep(Providers(used), b.policy.apiReserveProviders)))
  }

  function ProjectBindings(own: set<Ref>, used: map<Ref, Account>, bindings: map<Ref, Binding>): map<Ref, Binding> {
    map n | n in bindings && Keep(own, bindings[n].permittedProfiles) != [] :: ProjectBinding(own, used, bindings[n])
  }

  ghost function Project(c: Catalog, ref: Ref): Desired {
    var own := OwnProfiles(c.profiles, ref);
    var used := UsedAccounts(c.accounts, own);
    Desired(used, UsedPools(c.pools, c.accounts, own), own, ProjectBindings(own.Keys, used, c.bindings))
  }

  // ----- DesiredFor -----

  /** The pools the source may end with: on ambiguous aliases the map walk decides which pool an alias brings in. */
  ghost predicate PoolsDrawn(c: Catalog, own: map<Ref, Profile>, pools: map<Ref, Pool>) {
    && (forall n | n in pools :: n in c.pools && pools[n] == c.pools[n] && Drawn(c.pools, c.accounts, own, n))
    && (forall r | Draws(c.accounts, own, r) :: Brought(c.pools, pools, r))
  }

  /** Whatever the reference resolves to, one such pool is there. */
  ghost predicate Brought(all: map<Ref, Pool>, pools: map<Ref, Pool>, r: Ref) {
    (exists n :: ResolvesTo(all, r, n)) ==> exists n :: n in pools && ResolvesTo(all, r, n)
  }

  method DesiredFor(c: Catalog, ref: Ref) returns (out: Option<Desired>)
    ensures out.Some? <==> ref in c.controllers
    ensures out.Some? ==>
              var d := out.value;
              && d.profiles == Project(c, ref).profiles
              && d.accounts == Project(c, ref).accounts
              && d.bindings == Project(c, ref).bindings
              && PoolsDrawn(c, d.profiles, d.pools)
              && (Unambiguous(c.pools) ==> d == Project(c, ref))
  {
    if ref !in c.controllers {
      return None;
    }
    var profiles, accounts, pools := CollectProfiles(c, ref);
    var bindings := CollectBindings(c, profiles.Keys, accounts);
    if Unambiguous(c.pools) {
      DrawnPoolsAreUsed(c, profiles, pools);
    }
    return Some(Desired(accounts, pools, profiles, bindings));
  }

  lemma DrawnPoolsAreUsed(c: Catalog, own: map<Ref, Profile>, pools: map<Ref, Pool>)
    requires Unambiguous(c.pools) && PoolsDrawn(c, own, pools)
    ensures pools == UsedPools(c.pools, c.accounts, own)
  {
    hide Draws;
    forall n | Drawn(c.pools, c.accounts, own, n) ensures n in pools {
      var r :| Draws(c.accounts, own, r) && ResolvesTo(c.pools, r, n);
      assert Brought(c.pools, pools, r);
      var m :| m in pools && ResolvesTo(c.pools, r, m);
      ResolvedIsUnique(c.pools, r, n);
      ResolvedIsUnique(c.pools, r, m);
    }
  }

  /** The loop over the profiles. */
  method CollectProfiles(c: Catalog, ref: Ref)
    returns (profiles: map<Ref, Profile>, accounts: map<Ref, Account>, pools: map<Ref, Pool>)
    ensures profiles == OwnProfiles(c.profiles, ref)
    ensures accounts == UsedAccounts(c.accounts, profiles)
    ensures PoolsDrawn(c, profiles, pools)
  {
    hide UsedAccounts, PoolsDrawn;
    profiles, accounts, pools := map[], map[], map[];
    NothingUsed(c);
    var rest := c.profiles.Keys;
    while rest != {}
      invariant rest <= c.profiles.Keys
      invariant forall n :: n in profiles <==> n in c.profiles.Keys - rest && c.profiles[n].controllerRef == ref
      invariant forall n | n in profiles :: profiles[n] == c.profiles[n]
      invariant accounts == UsedAccounts(c.accounts, profiles)
      invariant PoolsDrawn(c, profiles, pools)
      invariant forall n | n in pools :: n in c.pools && pools[n] == c.pools[n]
      decreases rest
    {
      var name :| name in rest;
      rest := rest - {name};
      var p := c.profiles[name];
      if p.controllerRef == ref {
        AccountStep(c.accounts, profiles, name, p);
        ghost var before := profiles;
        profiles := profiles[name := p];
        if p.accountRef in c.accounts {
          var account := c.accounts[p.accountRef];
          var narrowed := if p.accountRef in accounts then accounts[p.accountRef] else account.(quotaPoolsByMode := map[]);
          accounts := accounts[p.accountRef := narrowed.(quotaPoolsByMode :=
            narrowed.quotaPoolsByMode[p.executionMode := ListAt(account.quotaPoolsByMode, p.executionMode)])];
          ghost var pools0 := pools;
          pools := BringPools(c, ListAt(account.quotaPoolsByMode, p.executionMode), pools);
          PoolStep(c, before, name, p, pools0, pools);
        } else {
          PoolStep(c, before, name, p, pools, pools);
        }
      }
    }
  }

  lemma NothingUsed(c: Catalog)
    ensures UsedAccounts(c.accounts, map[]) == map[] && PoolsDrawn(c, map[], map[])
  {}

  /** One more profile adds its mode to its account and changes no other account. */
  lemma AccountStep(accounts: map<Ref, Account>, own: map<Ref, Profile>, name: Ref, p: Profile)
    requires name !in own
    ensures var used, after := UsedAccounts(accounts, own), UsedAccounts(accounts, own[name := p]);
            if p.accountRef !in accounts then after == used
            else
              var account := accounts[p.accountRef];
              var before := if p.accountRef in used then used[p.accountRef] else account.(quotaPoolsByMode := map[]);
              after == used[p.accountRef := before.(quotaPoolsByMode :=
                before.quotaPoolsByMode[p.executionMode := ListAt(account.quotaPoolsByMode, p.executionMode)])]
  {
    hide Modes, Narrowed;
    var used, after := UsedAccounts(accounts, own), UsedAccounts(accounts, own[name := p]);
    ModesStep(own, name, p, p.accountRef);
    forall a | a != p.accountRef
      ensures a in after <==> a in used
      ensures a in after ==> after[a] == used[a]
    {
      ModesStep(own, name, p, a);
    }
    if p.accountRef in accounts {
      NarrowedStep(accounts[p.accountRef], Modes(own, p.accountRef), p.executionMode);
      assert p.executionMode in Modes(own[name := p], p.accountRef);
    }
  }

  lemma NarrowedStep(account: Account, modes: set<string>, mode: string)
    ensures Narrowed(account, {}) == account.(quotaPoolsByMode := map[])
    ensures var before := Narrowed(account, modes);
            Narrowed(account, modes + {mode})
              == before.(quotaPoolsByMode := before.quotaPoolsByMode[mode := ListAt(account.quotaPoolsByMode, mode)])
  {}

  lemma ModesStep(own: map<Ref, Profile>, name: Ref, p: Profile, a: Ref)
    requires name !in own
    ensures Modes(own[name := p], a) == if a == p.accountRef then Modes(own, a) + {p.executionMode} else Modes(own, a)
  {
    var own' := own[name := p];
    forall m | m in Modes(own, a) ensures m in Modes(own', a) {
      var n :| n in own && own[n].accountRef == a && own[n].executionMode == m;
      assert own'[n] == own[n];
    }
    if a == p.accountRef { assert own'[name] == p; }
  }

  /** The loop over one pool list. */
  method BringPools(c: Catalog, refs: seq<Ref>, pools0: map<Ref, Pool>) returns (pools: map<Ref, Pool>)
    requires forall n | n in pools0 :: n in c.pools && pools0[n] == c.pools[n]
    ensures forall n | n in pools0 :: n in pools
    ensures forall n | n in pools :: n in c.pools && pools[n] == c.pools[n]
    ensures forall n | n in pools && n !in pools0 :: exists r :: r in refs && ResolvesTo(c.pools, r, n)
    ensures forall r | r in refs :: Brought(c.pools, pools, r)
  {
    hide ResolvesTo;
    pools := pools0;
    for i := 0 to |refs|
      invariant forall n | n in pools0 :: n in pools
      invariant forall n | n in pools :: n in c.pools && pools[n] == c.pools[n]
      invariant forall n | n in pools && n !in pools0 :: exists r :: r in refs && ResolvesTo(c.pools, r, n)
      invariant forall j | 0 <= j < i :: Brought(c.pools, pools, refs[j])
    {
      ghost var before := pools;
      var canonical := ResolveAnyPool(c, refs[i]);
      if canonical.Some? {
        PoolIsThere(c.pools, refs[i], canonical.value);
        pools := pools[canonical.value := c.pools[canonical.value]];
        forall j | 0 <= j < i ensures Brought(c.pools, pools, refs[j]) { BroughtStays(c.pools, before, pools, refs[j]); }
      }
    }
  }

  lemma BroughtStays(all: map<Ref, Pool>, before: map<Ref, Pool>, after: map<Ref, Pool>, r: Ref)
    requires Brought(all, before, r) && before.Keys <= after.Keys
    ensures Brought(all, after, r)
  {}

  lemma PoolStep(c: Catalog, own: map<Ref, Profile>, name: Ref, p: Profile, before: map<Ref, Pool>, after: map<Ref, Pool>)
    requires name !in own && PoolsDrawn(c, own, before)
    requires forall n | n in before :: n in after
    requires forall n | n in after :: n in c.pools && after[n] == c.pools[n]
    requires forall n | n in after && n !in before :: exists r :: r in PoolRefs(c.accounts, p) && ResolvesTo(c.pools, r, n)
    requires forall r | r in PoolRefs(c.accounts, p) :: Brought(c.pools, after, r)
    ensures PoolsDrawn(c, own[name := p], after)
  {
    hide ResolvesTo, PoolRefs, Brought;
    var own' := own[name := p];
    forall r ensures Draws(c.accounts, own', r) <==> Draws(c.accounts, own, r) || r in PoolRefs(c.accounts, p) {
      DrawsStep(c.accounts, own, name, p, r);
    }
    forall n | n in after ensures Drawn(c.pools, c.accounts, own', n) {
      if n in before { assert Drawn(c.pools, c.accounts, own, n); }
    }
    forall r | Draws(c.accounts, own', r) ensures Brought(c.pools, after, r) {
      if Draws(c.accounts, own, r) { BroughtStays(c.pools, before, after, r); }
    }
  }

  lemma DrawsStep(accounts: map<Ref, Account>, own: map<Ref, Profile>, name: Ref, p: Profile, r: Ref)
    requires name !in own
    ensures Draws(accounts, own[name := p], r) <==> Draws(accounts, own, r) || r in PoolRefs(accounts, p)
  {
    hide PoolRefs;
    var own' := own[name := p];
    if Draws(accounts, own, r) {
      var n :| n in own && r in PoolRefs(accounts, own[n]);
      assert own'[n] == own[n];
    }
    if r in PoolRefs(accounts, p) { assert own'[name] == p; }
  }

  /** The keep closure. */
  method KeepOwn(own: set<Ref>, list: seq<Ref>) returns (kept: seq<Ref>)
    ensures kept == Keep(own, list)
  {
    kept := [];
    for i := 0 to |list|
      invariant kept == Keep(own, list[..i])
    {
      assert list[..i + 1][..i] == list[..i];
      if list[i] in own {
        kept := kept + [list[i]];
      }
    }
    assert list[..|list|] == list;
  }

  /** The loop over the bindings. */
  method CollectBindings(c: Catalog, own: set<Ref>, used: map<Ref, Account>) returns (bindings: map<Ref, Binding>)
    ensures bindings == ProjectBindings(own, used, c.bindings)
  {
    hide ProjectBinding, Keep;
    bindings := map[];
    var rest := c.bindings.Keys;
    while rest != {}
      invariant rest <= c.bindings.Keys
      invariant forall n :: n in bindings <==> n in c.bindings.Keys - rest && Keep(own, c.bindings[n].permittedProfiles) != []
      invariant forall n | n in bindings :: bindings[n] == ProjectBinding(own, used, c.bindings[n])
      decreases rest
    {
      var name :| name in rest;
      rest := rest - {name};
      var b := c.bindings[name];
      var permitted := KeepOwn(own, b.permittedProfiles);
      if |permitted| != 0 {
        var projected := RewriteBinding(own, used, b, permitted);
        bindings := bindings[name := projected];
      }
    }
  }

  /** One binding's policy, rewritten field by field. */
  method RewriteBinding(own: set<Ref>, used: map<Ref, Account>, b: Binding, permitted: seq<Ref>) returns (r: Binding)
    requires permitted == Keep(own, b.permittedProfiles)
    ensures r == ProjectBinding(own, used, b)
  {
    hide Keep, Providers;
    var policy := b.policy;
    var primaries := KeepOwn(own, b.policy.primaryProfiles);
    policy := policy.(primaryProfiles := primaries);
    var edges: map<Ref, seq<Ref>> := map[];
    var rest := b.policy.quotaEdges.Keys;
    while rest != {}
      invariant rest <= b.policy.quotaEdges.Keys
      invariant forall from :: from in edges <==> from in b.policy.quotaEdges.Keys - rest && from in own
      invariant forall from | from in edges :: edges[from] == Keep(own, b.policy.quotaEdges[from])
      decreases rest
    {
      var from :| from in rest;
      rest := rest - {from};
      if from in own {
        var targets := KeepOwn(own, b.policy.quotaEdges[from]);
        edges := edges[from := targets];
      }
    }
    assert edges == KeepEdges(own, b.policy.quotaEdges);
    policy := policy.(quotaEdges := edges);
    var preferred := PreferredLoop(used, b.policy.preferredAccounts);
    policy := policy.(preferredAccounts := preferred);
    var providers := ProvidersLoop(used, b.policy.apiReserveProviders);
    policy := policy.(apiReserveProviders := providers);
    r := b.(permittedProfiles := permitted, policy := policy);
  }

  method PreferredLoop(used: map<Ref, Account>, preferred: map<string, Ref>) returns (kept: map<string, Ref>)
    ensures kept == KeepPreferred(used, preferred)
  {
    kept := map[];
    var rest := preferred.Keys;
    while rest != {}
      invariant rest <= preferred.Keys
      invariant forall p :: p in kept <==> p in preferred.Keys - rest && preferred[p] in used
      invariant forall p | p in kept :: kept[p] == preferred[p]
      decreases rest
    {
      var provider :| provider in rest;
      rest := rest - {provider};
      if preferred[provider] in used {
        kept := kept[provider := preferred[provider]];
      }
    }
  }

  /** For each reserve provider, a walk over the accounts that stops at the first match. */
  method ProvidersLoop(used: map<Ref, Account>, reserve: seq<string>) returns (kept: seq<string>)
    ensures kept == Keep(Providers(used), reserve)
  {
    kept := [];
    for i := 0 to |reserve|
      invariant kept == Keep(Providers(used), reserve[..i])
    {
      assert reserve[..i + 1][..i] == reserve[..i];
      var found := HasProvider(used, reserve[i]);
      if found {
        kept := kept + [reserve[i]];
      }
    }
    assert reserve[..|reserve|] == reserve;
  }

  method HasProvider(used: map<Ref, Account>, provider: string) returns (found: bool)
    ensures found <==> provider in Providers(used)
  {
    found := false;
    var rest := used.Keys;
    while rest != {} && !found
      invariant rest <= used.Keys
      invariant found ==> provider in Providers(used)
      invariant !found ==> forall a | a in used && a !in rest :: used[a].provider != provider
      decreases rest
    {
      var a :| a in rest;
      rest := rest - {a};
      found := used[a].provider == provider;
    }
  }
}
