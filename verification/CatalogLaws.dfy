/** What the reference check demands of a catalog, told in its own fields. */
module CatalogLaws {
  import opened Options
  import opened Ordering
  import opened RuntimeCatalog
  import opened CatalogReferences

  /** The reference is the pool's name, or an alias of it and no pool's name. */
  predicate Leads(c: Catalog, r: Ref, n: Ref) {
    n in c.pools && if r in c.pools then n == r else r in c.pools[n].aliases
  }

  predicate SamePhysical(p: Pool, q: Pool) {
    p.provider + "\0" + p.resourceRef == q.provider + "\0" + q.resourceRef
  }

  ghost predicate PoolsAreDistinct(c: Catalog) {
    && (forall m, n | m in c.pools && n in c.pools && m != n :: !SamePhysical(c.pools[m], c.pools[n]))
    && (forall m, n, a | m in c.pools && n in c.pools && m != n && a in c.pools[m].aliases :: a !in c.pools[n].aliases)
    && (forall n | n in c.pools :: forall i, j | 0 <= i < j < |c.pools[n].aliases| :: c.pools[n].aliases[i] != c.pools[n].aliases[j])
    && (forall n, a | n in c.pools && a in c.pools[n].aliases :: a !in c.pools)
  }

  /** Every reference of every mode leads to a pool of the account's provider. */
  ghost predicate AccountFindsPools(c: Catalog, a: Account) {
    forall mode, r | mode in a.quotaPoolsByMode && r in a.quotaPoolsByMode[mode] :: FindsPool(c, r, a.provider)
  }

  ghost predicate FindsPool(c: Catalog, r: Ref, provider: string) {
    exists n :: Leads(c, r, n) && c.pools[n].provider == provider
  }

  /** Controller and account exist, the account has pools for the mode, the controller has the capabilities. */
  predicate ProfileIsGrounded(c: Catalog, p: Profile) {
    && p.controllerRef in c.controllers && p.accountRef in c.accounts
    && p.executionMode in c.accounts[p.accountRef].quotaPoolsByMode
    && |c.accounts[p.accountRef].quotaPoolsByMode[p.executionMode]| > 0
    && forall cap | cap in p.capabilities :: cap in c.controllers[p.controllerRef].capabilities
  }

  /** Everything named is permitted and exists; every preferred account is of its provider and used by a permitted profile. */
  predicate BindingIsGrounded(c: Catalog, b: Binding) {
    && (forall r | r in b.permittedProfiles :: r in c.profiles)
    && (forall r | r in b.policy.primaryProfiles :: r in b.permittedProfiles)
    && (forall from | from in b.policy.quotaEdges ::
          from in b.permittedProfiles && forall to | to in b.policy.quotaEdges[from] :: to in b.permittedProfiles)
    && (forall p | p in b.policy.preferredAccounts ::
          && b.policy.preferredAccounts[p] in c.accounts && c.accounts[b.policy.preferredAccounts[p]].provider == p
          && exists r | r in b.permittedProfiles :: r in c.profiles && c.profiles[r].accountRef == b.policy.preferredAccounts[p])
  }

  ghost predicate IdentitiesAreDistinct(c: Catalog) {
    forall m, n | m in c.bindings && n in c.bindings && m != n :: c.bindings[m].identity != c.bindings[n].identity
  }

  lemma PoolsInWords(c: Catalog)
    ensures (forall n :: !BadResource(c, n) && !BadAliases(c, n)) <==> PoolsAreDistinct(c)
  {
    ValidPools(c);
    hide BadAliases, Less;
    forall m, n | m in c.pools && n in c.pools && m != n && SamePhysical(c.pools[m], c.pools[n])
      ensures BadResource(c, m) || BadResource(c, n)
    {
      LessIsTotal(m, n);
    }
    forall n | BadResource(c, n) ensures exists m :: m in c.pools && m != n && SamePhysical(c.pools[m], c.pools[n]) {
      var m :| m in c.pools && Less(m, n) && PhysicalKey(c.pools[m]) == PhysicalKey(c.pools[n]);
      LessIsIrreflexive(n);
      assert "\0" == ['\0'];
    }
    hide BadResource, SamePhysical;
  }

  lemma LeadsIsResolves(c: Catalog, r: Ref, n: Ref)
    ensures Leads(c, r, n) <==> ResolvesTo(c.pools, r, n)
  {}

  /** A reference the account lists for the mode finds no pool of its provider. */
  ghost predicate MissesPool(c: Catalog, name: Ref, mode: string) {
    && name in c.accounts && mode in c.accounts[name].quotaPoolsByMode
    && exists r :: r in c.accounts[name].quotaPoolsByMode[mode] && !FindsPool(c, r, c.accounts[name].provider)
  }

  lemma FindsIsLeads(c: Catalog, r: Ref, provider: string)
    ensures FindsPool(c, r, provider) <==> LeadsToProvider(c, r, provider)
  {
    forall n ensures Leads(c, r, n) <==> ResolvesTo(c.pools, r, n) { LeadsIsResolves(c, r, n); }
    assert forall n | ResolvesTo(c.pools, r, n) :: n in c.pools;
    hide Leads, ResolvesTo;
    if LeadsToProvider(c, r, provider) {
      var n :| ResolvesTo(c.pools, r, n) && c.pools[n].provider == provider;
      assert Leads(c, r, n);
    }
  }

  lemma AccountsInWords(c: Catalog, name: Ref)
    requires name in c.accounts
    ensures (forall mode :: !BadPools(c, name, mode)) <==> AccountFindsPools(c, c.accounts[name])
  {
    forall mode ensures BadPools(c, name, mode) <==> MissesPool(c, name, mode) { PoolListInWords(c, name, mode); }
    hide BadPools, FindsPool;
    var a := c.accounts[name];
    if forall mode :: !BadPools(c, name, mode) {
      forall mode, r | mode in a.quotaPoolsByMode && r in a.quotaPoolsByMode[mode] ensures FindsPool(c, r, a.provider) {
        assert !MissesPool(c, name, mode);
      }
    }
  }

  lemma PoolListInWords(c: Catalog, name: Ref, mode: string)
    ensures BadPools(c, name, mode) <==> MissesPool(c, name, mode)
  {
    forall r, provider ensures FindsPool(c, r, provider) <==> LeadsToProvider(c, r, provider) { FindsIsLeads(c, r, provider); }
    hide LeadsToProvider, FindsPool;
  }

  ghost predicate ProfileFieldsOk(c: Catalog, name: Ref) {
    && !Bad(c, ProfileController(name)) && !Bad(c, ProfileAccount(name)) && !Bad(c, ProfileMode(name))
    && !Bad(c, ProfileCapabilities(name))
  }

  ghost predicate BindingFieldsOk(c: Catalog, name: Ref) {
    && !Bad(c, BindingPermitted(name)) && !Bad(c, BindingPrimary(name)) && !Bad(c, BindingEdges(name))
    && !Bad(c, BindingPreferred(name))
  }

  lemma ProfilesInWords(c: Catalog, name: Ref)
    ensures ProfileFieldsOk(c, name) <==> (name in c.profiles ==> ProfileIsGrounded(c, c.profiles[name]))
  {
    if name in c.profiles && c.profiles[name].accountRef in c.accounts {
      var p := c.profiles[name];
      var lists := c.accounts[p.accountRef].quotaPoolsByMode;
      assert ListAt(lists, p.executionMode) == [] <==> !(p.executionMode in lists && |lists[p.executionMode]| > 0);
    }
  }

  lemma BindingsInWords(c: Catalog, name: Ref)
    ensures BindingFieldsOk(c, name) <==> (name in c.bindings ==> BindingIsGrounded(c, c.bindings[name]))
  {
    if name in c.bindings {
      var b := c.bindings[name];
      if forall r | r in b.permittedProfiles :: r in c.profiles {
        forall account ensures UsedByPermitted(c, b, account) <==>
                                 exists r | r in b.permittedProfiles :: r in c.profiles && c.profiles[r].accountRef == account {}
      }
    }
  }

  lemma IdentitiesInWords(c: Catalog)
    ensures (forall n :: !BadIdentity(c, n)) <==> IdentitiesAreDistinct(c)
  {
    forall m, n | m in c.bindings && n in c.bindings && m != n && c.bindings[m].identity == c.bindings[n].identity
      ensures BadIdentity(c, m) || BadIdentity(c, n)
    {
      LessIsTotal(m, n);
    }
    forall n | BadIdentity(c, n) ensures !IdentitiesAreDistinct(c) { LessIsIrreflexive(n); }
    hide Less;
  }

  /** A catalog passes exactly when its pools are distinct, every account finds its pools, profiles and bindings are
      grounded, and no two bindings share an identity. */
  lemma ValidInWords(c: Catalog)
    ensures ReferencesOk(c) <==>
              && PoolsAreDistinct(c) && IdentitiesAreDistinct(c)
              && (forall n | n in c.accounts :: AccountFindsPools(c, c.accounts[n]))
              && (forall n | n in c.profiles :: ProfileIsGrounded(c, c.profiles[n]))
              && (forall n | n in c.bindings :: BindingIsGrounded(c, c.bindings[n]))
  {
    PoolsInWords(c);
    IdentitiesInWords(c);
    forall n ensures (forall mode :: !BadPools(c, n, mode)) <==> (n in c.accounts ==> AccountFindsPools(c, c.accounts[n])) {
      if n in c.accounts { AccountsInWords(c, n); }
    }
    forall n
      ensures ProfileFieldsOk(c, n) <==> (n in c.profiles ==> ProfileIsGrounded(c, c.profiles[n]))
      ensures BindingFieldsOk(c, n) <==> (n in c.bindings ==> BindingIsGrounded(c, c.bindings[n]))
    {
      ProfilesInWords(c, n);
      BindingsInWords(c, n);
    }
    FieldsByKind(c);
    hide *;
  }

  lemma FieldsByKind(c: Catalog)
    ensures ReferencesOk(c) <==>
              && (forall n :: !BadResource(c, n) && !BadAliases(c, n)) && (forall n :: !BadIdentity(c, n))
              && (forall n, mode :: !BadPools(c, n, mode))
              && (forall n :: ProfileFieldsOk(c, n)) && (forall n :: BindingFieldsOk(c, n))
  {
    hide BadResource, BadAliases, BadIdentity, BadPools, BadEdges, BadPreferred, BadCapabilities;
    if ReferencesOk(c) {
      forall n ensures !BadResource(c, n) && !BadAliases(c, n) && !BadIdentity(c, n) {
        assert !Bad(c, PoolResource(n)) && !Bad(c, PoolAliases(n)) && !Bad(c, BindingIdentity(n));
      }
      forall n, mode ensures !BadPools(c, n, mode) { assert !Bad(c, AccountPools(n, mode)); }
    } else {
      var f :| Bad(c, f);
      assert f.PoolResource? || f.PoolAliases? || f.AccountPools? || f.BindingIdentity?
             || !ProfileFieldsOk(c, f.name) || !BindingFieldsOk(c, f.name);
    }
  }

  // ----- which field is reported -----

  /** What is wrong where a field is reported. A clash of two pools or of two bindings is reported on the later name. */
  ghost predicate WrongField(c: Catalog, f: Field) {
    match f
    case PoolResource(name) =>
      name in c.pools && exists m :: m in c.pools && Less(m, name) && SamePhysical(c.pools[m], c.pools[name])
    case PoolAliases(name) => name in c.pools && exists i :: 0 <= i < |c.pools[name].aliases| && AliasTaken(c, name, i)
    case AccountPools(name, mode) => MissesPool(c, name, mode)
    case ProfileController(name) => name in c.profiles && c.profiles[name].controllerRef !in c.controllers
    case ProfileAccount(name) => name in c.profiles && c.profiles[name].accountRef !in c.accounts
    case ProfileMode(name) =>
      name in c.profiles && c.profiles[name].accountRef in c.accounts &&
      var p := c.profiles[name];
      p.executionMode in c.accounts[p.accountRef].quotaPoolsByMode ==> c.accounts[p.accountRef].quotaPoolsByMode[p.executionMode] == []
    case ProfileCapabilities(name) =>
      name in c.profiles && c.profiles[name].controllerRef in c.controllers &&
      exists cap :: cap in c.profiles[name].capabilities && cap !in c.controllers[c.profiles[name].controllerRef].capabilities
    case BindingIdentity(name) =>
      name in c.bindings && exists m :: m in c.bindings && Less(m, name) && c.bindings[m].identity == c.bindings[name].identity
    case BindingPermitted(name) => name in c.bindings && exists r :: r in c.bindings[name].permittedProfiles && r !in c.profiles
    case BindingPrimary(name) =>
      name in c.bindings && exists r :: r in c.bindings[name].policy.primaryProfiles && r !in c.bindings[name].permittedProfiles
    case BindingEdges(name) =>
      name in c.bindings && exists from :: from in c.bindings[name].policy.quotaEdges
                                           && (from !in c.bindings[name].permittedProfiles || LeavesPermitted(c.bindings[name], from))
    case BindingPreferred(name) =>
      name in c.bindings && exists p, code :: p in c.bindings[name].policy.preferredAccounts && Rejects(c, c.bindings[name], p, code)
  }

  /** The alias names a pool, stands earlier in the list, or is an alias of an earlier pool. */
  ghost predicate AliasTaken(c: Catalog, name: Ref, i: nat)
    requires name in c.pools && i < |c.pools[name].aliases|
  {
    var a := c.pools[name].aliases[i];
    || a in c.pools || (exists j :: 0 <= j < i && c.pools[name].aliases[j] == a)
    || exists m :: m in c.pools && Less(m, name) && a in c.pools[m].aliases
  }

  predicate LeavesPermitted(b: Binding, from: Ref)
    requires from in b.policy.quotaEdges
  {
    exists to | to in b.policy.quotaEdges[from] :: to !in b.permittedProfiles
  }

  lemma FieldsInWords(c: Catalog, f: Field)
    ensures Bad(c, f) <==> WrongField(c, f)
  {
    hide Less, FindsPool, LeadsToProvider, PhysicalKey, SamePhysical;
    match f
    case PoolResource(name) =>
      if name in c.pools {
        forall m | m in c.pools
          ensures SamePhysical(c.pools[m], c.pools[name]) <==> PhysicalKey(c.pools[m]) == PhysicalKey(c.pools[name])
        {
          KeysInWords(c.pools[m], c.pools[name]);
        }
      }
    case PoolAliases(name) =>
      if name in c.pools {
        forall i: nat | i < |c.pools[name].aliases| ensures AliasTaken(c, name, i) <==> AliasClashes(c, name, c.pools[name].aliases, i) {
          TakenIsClash(c, name, i);
        }
        hide AliasTaken, AliasClashes;
      }
    case AccountPools(name, mode) => PoolListInWords(c, name, mode);
    case BindingPreferred(name) =>
      if name in c.bindings {
        var b := c.bindings[name];
        forall p | p in b.policy.preferredAccounts
          ensures (exists code :: Rejects(c, b, p, code)) <==>
                    BadPreference(c, p, b.policy.preferredAccounts[p]) || !UsedByPermitted(c, b, b.policy.preferredAccounts[p])
        {
          RejectedInWords(c, b, p);
        }
        hide Rejects, BadPreference, UsedByPermitted;
      }
    case _ =>
  }

  lemma KeysInWords(p: Pool, q: Pool)
    ensures SamePhysical(p, q) <==> PhysicalKey(p) == PhysicalKey(q)
  {
    assert "\0" == ['\0'];
  }

  lemma TakenIsClash(c: Catalog, name: Ref, i: nat)
    requires name in c.pools && i < |c.pools[name].aliases|
    ensures AliasTaken(c, name, i) <==> AliasClashes(c, name, c.pools[name].aliases, i)
  {
    hide Less;
    var aliases := c.pools[name].aliases;
    assert aliases[i] in aliases[..i] <==> exists j :: 0 <= j < i && aliases[j] == aliases[i] by {
      if j :| 0 <= j < i && aliases[j] == aliases[i] { assert aliases[..i][j] == aliases[i]; }
    }
  }

  lemma RejectedInWords(c: Catalog, b: Binding, p: string)
    requires p in b.policy.preferredAccounts
    ensures (exists code :: Rejects(c, b, p, code)) <==>
              BadPreference(c, p, b.policy.preferredAccounts[p]) || !UsedByPermitted(c, b, b.policy.preferredAccounts[p])
  {
    assert forall code | Rejects(c, b, p, code) :: code in {MissingReference, ProviderMismatch, NotPermitted};
    if BadPreference(c, p, b.policy.preferredAccounts[p]) || !UsedByPermitted(c, b, b.policy.preferredAccounts[p]) {
      assert Rejects(c, b, p, MissingReference) || Rejects(c, b, p, ProviderMismatch) || Rejects(c, b, p, NotPermitted);
    }
  }

  // ----- codes -----

  /** What is said of a field that is reported. */
  ghost predicate SaidOf(c: Catalog, f: Field, code: Code) {
    match f
    case PoolResource(_) => code == Duplicate
    case PoolAliases(_) => code == Duplicate
    case BindingIdentity(_) => code == Duplicate
    case ProfileController(_) => code == MissingReference
    case ProfileAccount(_) => code == MissingReference
    case BindingPermitted(_) => code == MissingReference
    case ProfileMode(_) => code == ModeWithoutPools
    case ProfileCapabilities(_) => code == CapabilityNotOnController
    case BindingPrimary(_) => code == NotPermitted
    case BindingEdges(_) => code == NotPermitted
    case AccountPools(name, mode) =>
      name in c.accounts && mode in c.accounts[name].quotaPoolsByMode &&
      exists i :: 0 <= i < |c.accounts[name].quotaPoolsByMode[mode]| && Fails(c, c.accounts[name], mode, i, code)
    case BindingPreferred(name) =>
      name in c.bindings &&
      exists p :: p in c.bindings[name].policy.preferredAccounts && Rejects(c, c.bindings[name], p, code)
  }

  /** The reference leads nowhere, or to a pool of another provider; every reference before it finds a pool. */
  ghost predicate Fails(c: Catalog, a: Account, mode: string, i: nat, code: Code)
    requires mode in a.quotaPoolsByMode && i < |a.quotaPoolsByMode[mode]|
  {
    var refs := a.quotaPoolsByMode[mode];
    && (forall j | 0 <= j < i :: FindsPool(c, refs[j], a.provider))
    && match code
       case MissingReference => forall n :: !Leads(c, refs[i], n)
       case ProviderMismatch => exists n :: Leads(c, refs[i], n) && c.pools[n].provider != a.provider
       case _ => false
  }

  /** The account is missing, of another provider, or of no permitted profile: the first of these that holds. */
  ghost predicate Rejects(c: Catalog, b: Binding, provider: string, code: Code)
    requires provider in b.policy.preferredAccounts
  {
    var account := b.policy.preferredAccounts[provider];
    if account !in c.accounts then code == MissingReference
    else if c.accounts[account].provider != provider then code == ProviderMismatch
    else code == NotPermitted && forall r | r in b.permittedProfiles ::
           (if r in c.profiles then c.profiles[r].accountRef else "") != account
  }

  /** Every reported code is one of these. */
  lemma CodesInWords(c: Catalog, f: Field, code: Code)
    ensures CodeFor(c, f, code) <==> SaidOf(c, f, code)
  {
    if f.AccountPools? && f.name in c.accounts && f.mode in c.accounts[f.name].quotaPoolsByMode {
      var a := c.accounts[f.name];
      forall i: nat | i < |a.quotaPoolsByMode[f.mode]|
        ensures Fails(c, a, f.mode, i, code) <==> FirstFailure(c, a.quotaPoolsByMode[f.mode], a.provider, i, code)
      {
        FailsIsFirst(c, a, f.mode, i, code);
      }
      hide Fails, FirstFailure;
    } else if f.BindingPreferred? && f.name in c.bindings {
      var b := c.bindings[f.name];
      forall p | p in b.policy.preferredAccounts ensures Rejects(c, b, p, code) <==> PreferenceCode(c, b, p) == Some(code) {
        assert UsedByPermitted(c, b, b.policy.preferredAccounts[p]) <==> exists r | r in b.permittedProfiles ::
                 (if r in c.profiles then c.profiles[r].accountRef else "") == b.policy.preferredAccounts[p];
      }
      hide Rejects, PreferenceCode;
    }
  }

  lemma FailsIsFirst(c: Catalog, a: Account, mode: string, i: nat, code: Code)
    requires mode in a.quotaPoolsByMode && i < |a.quotaPoolsByMode[mode]|
    ensures Fails(c, a, mode, i, code) <==> FirstFailure(c, a.quotaPoolsByMode[mode], a.provider, i, code)
  {
    var refs := a.quotaPoolsByMode[mode];
    forall r ensures FindsPool(c, r, a.provider) <==> LeadsToProvider(c, r, a.provider) { FindsIsLeads(c, r, a.provider); }
    forall n ensures Leads(c, refs[i], n) <==> ResolvesTo(c.pools, refs[i], n) { LeadsIsResolves(c, refs[i], n); }
    assert forall n | ResolvesTo(c.pools, refs[i], n) :: n in c.pools;
    hide FindsPool, LeadsToProvider, Leads, ResolvesTo;
    if n :| Leads(c, refs[i], n) && n in c.pools && c.pools[n].provider != a.provider { assert ResolvesTo(c.pools, refs[i], n); }
    if n :| ResolvesTo(c.pools, refs[i], n) && c.pools[n].provider != a.provider { assert Leads(c, refs[i], n); }
  }
}
