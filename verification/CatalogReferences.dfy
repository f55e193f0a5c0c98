/** ValidateReferences: which fields of a catalog are wrong, and the check that reports them. */
module CatalogReferences {
  import opened Options
  import opened Ordering
  import opened RuntimeCatalog

  datatype Field =
    | PoolResource(name: Ref)
    | PoolAliases(name: Ref)
    | AccountPools(name: Ref, mode: string)
    | ProfileController(name: Ref)
    | ProfileAccount(name: Ref)
    | ProfileMode(name: Ref)
    | ProfileCapabilities(name: Ref)
    | BindingIdentity(name: Ref)
    | BindingPermitted(name: Ref)
    | BindingPrimary(name: Ref)
    | BindingEdges(name: Ref)
    | BindingPreferred(name: Ref)

  datatype Code = MissingReference | ProviderMismatch | Duplicate | ModeWithoutPools | CapabilityNotOnController | NotPermitted

  /** The key two pools must not share. */
  function PhysicalKey(p: Pool): string {
    p.provider + ['\0'] + p.resourceRef
  }

  // ----- what makes each field wrong -----

  /** An earlier pool, in name order, has the same physical key. */
  ghost predicate BadResource(c: Catalog, name: Ref) {
    name in c.pools &&
    exists other :: other in c.pools && Less(other, name) && PhysicalKey(c.pools[other]) == PhysicalKey(c.pools[name])
  }

  /** An alias names a pool, repeats in the list, or was an alias of an earlier pool. */
  ghost predicate BadAliases(c: Catalog, name: Ref) {
    name in c.pools &&
    var aliases := c.pools[name].aliases;
    exists i :: 0 <= i < |aliases| && AliasClashes(c, name, aliases, i)
  }

  ghost predicate AliasClashes(c: Catalog, name: Ref, aliases: seq<Ref>, i: nat)
    requires i < |aliases|
  {
    aliases[i] in c.pools || aliases[i] in aliases[..i] || AliasBefore(c, name, aliases[i])
  }

  ghost predicate AliasBefore(c: Catalog, name: Ref, alias: Ref) {
    exists other :: other in c.pools && Less(other, name) && alias in c.pools[other].aliases
  }

  /** Some reference in the list leads to no pool of the account's provider. */
  ghost predicate BadPools(c: Catalog, name: Ref, mode: string) {
    && name in c.accounts && mode in c.accounts[name].quotaPoolsByMode
    && exists r :: r in c.accounts[name].quotaPoolsByMode[mode] && !LeadsToProvider(c, r, c.accounts[name].provider)
  }

  ghost predicate LeadsToProvider(c: Catalog, r: Ref, provider: string) {
    exists n :: ResolvesTo(c.pools, r, n) && c.pools[n].provider == provider
  }

  predicate BadCapabilities(c: Catalog, p: Profile) {
    p.controllerRef in c.controllers && exists cap | cap in p.capabilities :: cap !in c.controllers[p.controllerRef].capabilities
  }

  ghost predicate BadIdentity(c: Catalog, name: Ref) {
    name in c.bindings &&
    exists other :: other in c.bindings && Less(other, name) && c.bindings[other].identity == c.bindings[name].identity
  }

  predicate BadEdges(b: Binding) {
    exists from | from in b.policy.quotaEdges ::
      from !in b.permittedProfiles || exists to | to in b.policy.quotaEdges[from] :: to !in b.permittedProfiles
  }

  /** The preferred account is missing or of another provider. */
  predicate BadPreference(c: Catalog, provider: string, account: Ref) {
    account !in c.accounts || c.accounts[account].provider != provider
  }

  /** Some permitted profile uses the account. */
  predicate UsedByPermitted(c: Catalog, b: Binding, account: Ref) {
    exists r | r in b.permittedProfiles :: ProfileAt(c, r).accountRef == account
  }

  predicate BadPreferred(c: Catalog, b: Binding) {
    exists provider | provider in b.policy.preferredAccounts ::
      var account := b.policy.preferredAccounts[provider];
      BadPreference(c, provider, account) || !UsedByPermitted(c, b, account)
  }

  ghost predicate Bad(c: Catalog, f: Field) {
    match f
    case PoolResource(name) => BadResource(c, name)
    case PoolAliases(name) => BadAliases(c, name)
    case AccountPools(name, mode) => BadPools(c, name, mode)
    case ProfileController(name) => name in c.profiles && c.profiles[name].controllerRef !in c.controllers
    case ProfileAccount(name) => name in c.profiles && c.profiles[name].accountRef !in c.accounts
    case ProfileMode(name) =>
      name in c.profiles && c.profiles[name].accountRef in c.accounts
      && ListAt(c.accounts[c.profiles[name].accountRef].quotaPoolsByMode, c.profiles[name].executionMode) == []
    case ProfileCapabilities(name) => name in c.profiles && BadCapabilities(c, c.profiles[name])
    case BindingIdentity(name) => BadIdentity(c, name)
    case BindingPermitted(name) => name in c.bindings && exists r | r in c.bindings[name].permittedProfiles :: r !in c.profiles
    case BindingPrimary(name) =>
      name in c.bindings && exists r | r in c.bindings[name].policy.primaryProfiles :: r !in c.bindings[name].permittedProfiles
    case BindingEdges(name) => name in c.bindings && BadEdges(c.bindings[name])
    case BindingPreferred(name) => name in c.bindings && BadPreferred(c, c.bindings[name])
  }

  /** The catalog ParseRuntimeCatalog lets through. */
  ghost predicate ReferencesOk(c: Catalog) {
    forall f :: !Bad(c, f)
  }

  // ----- what a valid catalog gives -----

  /** Pool names and aliases are all different. */
  ghost predicate PoolNamesDistinct(pools: map<Ref, Pool>) {
    && (forall n | n in pools :: NoRepeats(pools[n].aliases) && forall a | a in pools[n].aliases :: a !in pools)
    && Unambiguous(pools)
  }

  lemma ValidPools(c: Catalog)
    ensures (forall n :: !BadAliases(c, n)) <==> PoolNamesDistinct(c.pools)
  {
    forall n | BadAliases(c, n) ensures !PoolNamesDistinct(c.pools) { BadAliasesClash(c, n); }
    if forall n :: !BadAliases(c, n) {
      forall n | n in c.pools ensures NoRepeats(c.pools[n].aliases) && forall a | a in c.pools[n].aliases :: a !in c.pools {
        assert !BadAliases(c, n);
        var aliases := c.pools[n].aliases;
        forall a | a in aliases ensures a !in c.pools {
          var i :| 0 <= i < |aliases| && aliases[i] == a;
          assert !AliasClashes(c, n, aliases, i);
        }
        forall i, j | 0 <= i < j < |aliases| ensures aliases[i] != aliases[j] { 
          assert !AliasClashes(c, n, aliases, j);
          assert aliases[i] in aliases[..j];
        }
      }
      forall a, b, r | a in c.pools && b in c.pools && r in c.pools[a].aliases && r in c.pools[b].aliases ensures a == b {
        LessIsTotal(a, b);
        if Less(a, b) { AliasClash(c, a, b, r); }
        if Less(b, a) { AliasClash(c, b, a, r); }
      }
    }
  }

  lemma BadAliasesClash(c: Catalog, n: Ref)
    requires BadAliases(c, n)
    ensures !PoolNamesDistinct(c.pools)
  {
    var aliases := c.pools[n].aliases;
    var i :| 0 <= i < |aliases| && AliasClashes(c, n, aliases, i);
    if aliases[i] in aliases[..i] {
      var j :| 0 <= j < i && aliases[..i][j] == aliases[i];
      assert aliases[j] == aliases[i];
    } else if AliasBefore(c, n, aliases[i]) {
      var other :| other in c.pools && Less(other, n) && aliases[i] in c.pools[other].aliases;
      LessIsIrreflexive(n);
    }
  }

  lemma AliasClash(c: Catalog, a: Ref, b: Ref, r: Ref)
    requires a in c.pools && b in c.pools && Less(a, b) && r in c.pools[a].aliases && r in c.pools[b].aliases
    ensures BadAliases(c, b)
  {
    var i :| 0 <= i < |c.pools[b].aliases| && c.pools[b].aliases[i] == r;
    assert AliasClashes(c, b, c.pools[b].aliases, i);
  }

  lemma ValidIsUnambiguous(c: Catalog)
    requires ReferencesOk(c)
    ensures PoolNamesDistinct(c.pools)
  {
    forall n ensures !BadAliases(c, n) { assert !Bad(c, PoolAliases(n)); }
    ValidPools(c);
  }

  // ----- which code a bad field gets -----

  /** What may be wrong with a reference: it leads nowhere, or it may lead to a pool of another provider. On unambiguous
      pools that is to say that it leads to no pool of the provider. */
  ghost predicate MayFail(c: Catalog, r: Ref, provider: string, code: Code) {
    match code
    case MissingReference => forall n :: !ResolvesTo(c.pools, r, n)
    case ProviderMismatch => exists n :: ResolvesTo(c.pools, r, n) && c.pools[n].provider != provider
    case _ => false
  }

  /** The code of some reference, when every earlier one may lead to a pool of the provider. */
  ghost predicate ListCode(c: Catalog, refs: seq<Ref>, provider: string, code: Code) {
    exists i :: 0 <= i < |refs| && FirstFailure(c, refs, provider, i, code)
  }

  ghost predicate FirstFailure(c: Catalog, refs: seq<Ref>, provider: string, i: nat, code: Code)
    requires i < |refs|
  {
    MayFail(c, refs[i], provider, code) && forall j | 0 <= j < i :: LeadsToProvider(c, refs[j], provider)
  }

  /** On unambiguous pools a reference fails exactly when it leads to no pool of the provider, and with one code. */
  lemma FailureIsBadReference(c: Catalog, r: Ref, provider: string)
    requires Unambiguous(c.pools)
    ensures forall code | MayFail(c, r, provider, code) :: !LeadsToProvider(c, r, provider)
    ensures !LeadsToProvider(c, r, provider) ==> MayFail(c, r, provider, MissingReference) || MayFail(c, r, provider, ProviderMismatch)
    ensures !(MayFail(c, r, provider, MissingReference) && MayFail(c, r, provider, ProviderMismatch))
  {
    forall n, m | ResolvesTo(c.pools, r, n) && ResolvesTo(c.pools, r, m) ensures n == m {
      ResolvedIsUnique(c.pools, r, n);
      ResolvedIsUnique(c.pools, r, m);
    }
    hide ResolvesTo;
    forall n | ResolvesTo(c.pools, r, n) ensures n in c.pools { PoolIsThere(c.pools, r, n); }
  }

  lemma PoolIsThere(pools: map<Ref, Pool>, r: Ref, n: Ref)
    requires ResolvesTo(pools, r, n)
    ensures n in pools
  {}

  function PreferenceCode(c: Catalog, b: Binding, provider: string): Option<Code>
    requires provider in b.policy.preferredAccounts
  {
    var account := b.policy.preferredAccounts[provider];
    if account !in c.accounts then Some(MissingReference)
    else if c.accounts[account].provider != provider then Some(ProviderMismatch)
    else if !UsedByPermitted(c, b, account) then Some(NotPermitted)
    else None
  }

  /** A code a bad field may be reported with: one code, except that the preferred accounts are visited in no order. */
  ghost predicate CodeFor(c: Catalog, f: Field, code: Code) {
    match f
    case PoolResource(_) => code == Duplicate
    case PoolAliases(_) => code == Duplicate
    case AccountPools(name, mode) =>
      name in c.accounts && mode in c.accounts[name].quotaPoolsByMode
      && ListCode(c, c.accounts[name].quotaPoolsByMode[mode], c.accounts[name].provider, code)
    case ProfileController(_) => code == MissingReference
    case ProfileAccount(_) => code == MissingReference
    case ProfileMode(_) => code == ModeWithoutPools
    case ProfileCapabilities(_) => code == CapabilityNotOnController
    case BindingIdentity(_) => code == Duplicate
    case BindingPermitted(_) => code == MissingReference
    case BindingPrimary(_) => code == NotPermitted
    case BindingEdges(_) => code == NotPermitted
    case BindingPreferred(name) =>
      name in c.bindings && PreferenceCodeOf(c, c.bindings[name], code)
  }

  ghost predicate PreferenceCodeOf(c: Catalog, b: Binding, code: Code) {
    exists provider :: provider in b.policy.preferredAccounts && PreferenceCode(c, b, provider) == Some(code)
  }

  lemma CodesOfName(c: Catalog, name: Ref)
    ensures CodeFor(c, PoolResource(name), Duplicate) && CodeFor(c, PoolAliases(name), Duplicate)
    ensures CodeFor(c, ProfileController(name), MissingReference) && CodeFor(c, ProfileAccount(name), MissingReference)
    ensures CodeFor(c, ProfileMode(name), ModeWithoutPools)
    ensures CodeFor(c, ProfileCapabilities(name), CapabilityNotOnController)
    ensures CodeFor(c, BindingIdentity(name), Duplicate) && CodeFor(c, BindingPermitted(name), MissingReference)
    ensures CodeFor(c, BindingPrimary(name), NotPermitted) && CodeFor(c, BindingEdges(name), NotPermitted)
  {}

  // ----- the check -----

  type Errors = map<Field, Code>

  /** RuntimeFieldErrors.add: the first code for a field stays. */
  function Add(errs: Errors, f: Field, code: Code): (r: Errors)
    ensures r.Keys == errs.Keys + {f}
    ensures r[f] == if f in errs then errs[f] else code
    ensures forall g | g in errs :: r[g] == errs[g]
  {
    if f in errs then errs else errs[f := code]
  }

  function AddIf(errs: Errors, bad: bool, f: Field, code: Code): (r: Errors)
    ensures forall g :: g in r.Keys <==> g in errs.Keys || (bad && g == f)
  {
    if bad then Add(errs, f, code) else errs
  }

  /** What was reported stays, and what is new has a code of its field. */
  ghost predicate Extends(c: Catalog, before: Errors, after: Errors) {
    && (forall f | f in before :: f in after && after[f] == before[f])
    && (forall f | f in after && f !in before :: CodeFor(c, f, after[f]))
  }

  lemma AddExtends(c: Catalog, base: Errors, errs: Errors, bad: bool, f: Field, code: Code)
    requires Extends(c, base, errs) && (bad ==> CodeFor(c, f, code))
    ensures Extends(c, base, AddIf(errs, bad, f, code))
  {}

  lemma ExtendsSelf(c: Catalog, errs: Errors)
    ensures Extends(c, errs, errs)
  {}

  lemma ExtendsOn(c: Catalog, a: Errors, b: Errors, d: Errors)
    requires Extends(c, a, b) && Extends(c, b, d)
    ensures Extends(c, a, d)
  {}

  /** The walk order against the name order. */
  lemma Earlier(keys: seq<Ref>, i: nat, other: Ref)
    requires StrictlySorted(keys) && i < |keys| && other in keys
    ensures Less(other, keys[i]) <==> other in keys[..i]
  {
    if other in keys[..i] {
      var k :| 0 <= k < i && keys[..i][k] == other;
      assert keys[k] == other;
    }
    var j :| 0 <= j < |keys| && keys[j] == other;
    if j < i {
      assert keys[..i][j] == other;
    } else {
      LessIsIrreflexive(other);
      if Less(other, keys[i]) && i < j { LessIsTransitive(other, keys[i], other); }
    }
  }

  predicate OfPool(f: Field) { f.PoolResource? || f.PoolAliases? }

  method PoolErrors(c: Catalog) returns (errs: Errors)
    ensures forall f :: f in errs.Keys <==> OfPool(f) && Bad(c, f)
    ensures Extends(c, map[], errs)
  {
    hide PhysicalKey, Less, Bad, OfPool, StrictlySorted, Extends;
    errs := map[];
    ExtendsSelf(c, errs);
    var names := SortedMembers(c.pools.Keys);
    var physical: set<string>, aliases: set<Ref> := {}, {};
    for i := 0 to |names|
      invariant forall key :: key in physical <==> exists n :: n in names[..i] && PhysicalKey(c.pools[n]) == key
      invariant forall a :: a in aliases <==> exists n :: n in names[..i] && a in c.pools[n].aliases
      invariant forall f :: f in errs.Keys <==> OfPool(f) && f.name in names[..i] && Bad(c, f)
      invariant Extends(c, map[], errs)
    {
      var name := names[i];
      KeySeen(c, names, i, physical, aliases);
      assert names[..i + 1] == names[..i] + [name];
      var taken := PhysicalKey(c.pools[name]) in physical;
      physical := physical + {PhysicalKey(c.pools[name])};
      var repeated;
      aliases, repeated := AliasErrors(c, name, aliases);
      ghost var errs1 := errs;
      errs := OnePoolErrors(c, name, taken, repeated, errs);
      ExtendsOn(c, map[], errs1, errs);
    }
    assert names[..|names|] == names;
    BadPoolIsPool(c);
  }

  lemma KeySeen(c: Catalog, names: seq<Ref>, i: nat, physical: set<string>, aliases: set<Ref>)
    requires StrictlySorted(names) && i < |names| && forall n :: n in names <==> n in c.pools
    requires forall key :: key in physical <==> exists n :: n in names[..i] && PhysicalKey(c.pools[n]) == key
    requires forall a :: a in aliases <==> exists n :: n in names[..i] && a in c.pools[n].aliases
    ensures PhysicalKey(c.pools[names[i]]) in physical <==> BadResource(c, names[i])
    ensures forall a :: a in aliases <==> AliasBefore(c, names[i], a)
  {
    hide Less, StrictlySorted, PhysicalKey;
    forall other | other in c.pools ensures Less(other, names[i]) <==> other in names[..i] { Earlier(names, i, other); }
  }

  /** What the walk adds for one pool. */
  method OnePoolErrors(c: Catalog, name: Ref, taken: bool, repeated: bool, errs0: Errors) returns (errs: Errors)
    requires name in c.pools && (taken <==> BadResource(c, name)) && (repeated <==> BadAliases(c, name))
    ensures forall f :: f in errs.Keys <==> f in errs0.Keys || (OfPool(f) && f.name == name && Bad(c, f))
    ensures Extends(c, errs0, errs)
  {
    hide BadResource, BadAliases, Extends, CodeFor, Add, AddIf;
    CodesOfName(c, name);
    ExtendsSelf(c, errs0);
    AddExtends(c, errs0, errs0, taken, PoolResource(name), Duplicate);
    errs := AddIf(errs0, taken, PoolResource(name), Duplicate);
    AddExtends(c, errs0, errs, repeated, PoolAliases(name), Duplicate);
    errs := AddIf(errs, repeated, PoolAliases(name), Duplicate);
  }

  lemma BadPoolIsPool(c: Catalog)
    ensures forall f: Field | OfPool(f) && Bad(c, f) :: f.name in c.pools
  {}

  /** The loop over one pool's aliases. */
  method AliasErrors(c: Catalog, name: Ref, before: set<Ref>) returns (after: set<Ref>, repeated: bool)
    requires name in c.pools
    requires forall a :: a in before <==> AliasBefore(c, name, a)
    ensures after == before + set a | a in c.pools[name].aliases
    ensures repeated <==> BadAliases(c, name)
  {
    var aliases := c.pools[name].aliases;
    after, repeated := before, false;
    for k := 0 to |aliases|
      invariant after == before + set a | a in aliases[..k]
      invariant repeated <==> exists i :: 0 <= i < k && AliasClashes(c, name, aliases, i)
    {
      hide AliasBefore;
      var a := aliases[k];
      if a == name || a in c.pools || a in after {
        repeated := true;
      }
      assert a in c.pools || a in after <==> AliasClashes(c, name, aliases, k);
      after := after + {a};
      assert aliases[..k + 1] == aliases[..k] + [a];
    }
    assert aliases[..|aliases|] == aliases;
  }

  /** Go's ResolvePool on any catalog: an ambiguous alias may lead to any of its pools. */
  method ResolveAnyPool(c: Catalog, ref: Ref) returns (name: Option<Ref>)
    ensures name.Some? ==> ResolvesTo(c.pools, ref, name.value)
    ensures name.None? ==> forall n :: !ResolvesTo(c.pools, ref, n)
  {
    if ref in c.pools {
      return Some(ref);
    }
    var rest := c.pools.Keys;
    while rest != {}
      invariant rest <= c.pools.Keys
      invariant forall n | n in c.pools && n !in rest :: ref !in c.pools[n].aliases
      decreases rest
    {
      var n :| n in rest;
      rest := rest - {n};
      if ref in c.pools[n].aliases {
        return Some(n);
      }
    }
    return None;
  }

  method AccountErrors(c: Catalog, errs0: Errors) returns (errs: Errors)
    ensures forall f | f in errs && f !in errs0 :: f.AccountPools? && (Unambiguous(c.pools) ==> Bad(c, f))
    ensures forall f: Field | f.AccountPools? && Bad(c, f) :: f in errs
    ensures Extends(c, errs0, errs)
  {
    hide ResolvesTo, Bad, Extends;
    errs := errs0;
    ExtendsSelf(c, errs0);
    var accounts := c.accounts.Keys;
    while accounts != {}
      invariant accounts <= c.accounts.Keys && Extends(c, errs0, errs)
      invariant forall f | f in errs && f !in errs0 :: f.AccountPools? && (Unambiguous(c.pools) ==> Bad(c, f))
      invariant forall f: Field | f.AccountPools? && f.name in c.accounts.Keys - accounts && Bad(c, f) :: f in errs
      decreases accounts
    {
      var name :| name in accounts;
      accounts := accounts - {name};
      ghost var errs1 := errs;
      errs := OneAccountErrors(c, name, errs);
      ExtendsOn(c, errs0, errs1, errs);
      ExtendsKeeps(c, errs1, errs);
    }
    BadAccountIsAccount(c);
  }

  lemma ExtendsKeeps(c: Catalog, before: Errors, after: Errors)
    requires Extends(c, before, after)
    ensures before.Keys <= after.Keys
  {}

  lemma BadAccountIsAccount(c: Catalog)
    ensures forall f: Field | f.AccountPools? && Bad(c, f) ::
              f.name in c.accounts && f.mode in c.accounts[f.name].quotaPoolsByMode
  {}

  /** What the walk adds for one account. */
  method OneAccountErrors(c: Catalog, name: Ref, errs0: Errors) returns (errs: Errors)
    requires name in c.accounts
    ensures forall f | f in errs && f !in errs0 :: f.AccountPools? && (Unambiguous(c.pools) ==> Bad(c, f))
    ensures forall f: Field | f.AccountPools? && f.name == name && Bad(c, f) :: f in errs
    ensures Extends(c, errs0, errs)
  {
    hide Bad, Extends, CodeFor, Add, AddIf, ListCode;
    errs := errs0;
    ExtendsSelf(c, errs0);
    var modes := c.accounts[name].quotaPoolsByMode.Keys;
    while modes != {}
      invariant modes <= c.accounts[name].quotaPoolsByMode.Keys && Extends(c, errs0, errs)
      invariant forall f | f in errs && f !in errs0 :: f.AccountPools? && (Unambiguous(c.pools) ==> Bad(c, f))
      invariant forall f: Field | f.AccountPools? && f.name == name && Bad(c, f) && f.mode in c.accounts[name].quotaPoolsByMode.Keys - modes ::
                  f in errs
      decreases modes
    {
      var mode :| mode in modes;
      modes := modes - {mode};
      var code := ListError(c, c.accounts[name].quotaPoolsByMode[mode], c.accounts[name].provider);
      ListErrorMeans(c, name, mode, code);
      var reported := if code.Some? then code.value else MissingReference;
      AddExtends(c, errs0, errs, code.Some?, AccountPools(name, mode), reported);
      errs := AddIf(errs, code.Some?, AccountPools(name, mode), reported);
    }
    BadAccountIsAccount(c);
  }

  lemma ListErrorMeans(c: Catalog, name: Ref, mode: string, code: Option<Code>)
    requires name in c.accounts && mode in c.accounts[name].quotaPoolsByMode
    requires ListErrorIs(c, c.accounts[name].quotaPoolsByMode[mode], c.accounts[name].provider, code)
    ensures Bad(c, AccountPools(name, mode)) ==> code.Some?
    ensures code.Some? && Unambiguous(c.pools) ==> Bad(c, AccountPools(name, mode))
    ensures code.Some? ==> CodeFor(c, AccountPools(name, mode), code.value)
  {
    hide LeadsToProvider, MayFail;
    var refs, provider := c.accounts[name].quotaPoolsByMode[mode], c.accounts[name].provider;
    if code.Some? && Unambiguous(c.pools) {
      var i :| 0 <= i < |refs| && FirstFailure(c, refs, provider, i, code.value);
      FailureIsBadReference(c, refs[i], provider);
      assert refs[i] in refs;
    }
  }

  ghost predicate ListErrorIs(c: Catalog, refs: seq<Ref>, provider: string, code: Option<Code>) {
    && (code.None? ==> forall r | r in refs :: LeadsToProvider(c, r, provider))
    && (code.Some? ==> ListCode(c, refs, provider, code.value))
  }

  /** The loop over one pool list: the first error's code stays. */
  method ListError(c: Catalog, refs: seq<Ref>, provider: string) returns (code: Option<Code>)
    ensures ListErrorIs(c, refs, provider, code)
  {
    hide ListCode, LeadsToProvider, ResolvesTo, MayFail;
    code := None;
    for i := 0 to |refs|
      invariant code.None? ==> forall j | 0 <= j < i :: LeadsToProvider(c, refs[j], provider)
      invariant code.Some? ==> ListCode(c, refs, provider, code.value)
    {
      var pool := ResolveAnyPool(c, refs[i]);
      ResolvedMeans(c, refs[i], provider, pool);
      if pool.None? {
        if code.None? { FailureGivesCode(c, refs, provider, i, MissingReference); }
        code := if code.Some? then code else Some(MissingReference);
      } else if c.pools[pool.value].provider != provider {
        if code.None? { FailureGivesCode(c, refs, provider, i, ProviderMismatch); }
        code := if code.Some? then code else Some(ProviderMismatch);
      }
    }
  }

  lemma ResolvedMeans(c: Catalog, r: Ref, provider: string, pool: Option<Ref>)
    requires pool.Some? ==> ResolvesTo(c.pools, r, pool.value)
    requires pool.None? ==> forall n :: !ResolvesTo(c.pools, r, n)
    ensures pool.Some? ==> pool.value in c.pools
    ensures pool.None? ==> MayFail(c, r, provider, MissingReference)
    ensures pool.Some? && c.pools[pool.value].provider == provider ==> LeadsToProvider(c, r, provider)
    ensures pool.Some? && c.pools[pool.value].provider != provider ==> MayFail(c, r, provider, ProviderMismatch)
  {}

  lemma FailureGivesCode(c: Catalog, refs: seq<Ref>, provider: string, i: nat, code: Code)
    requires i < |refs| && MayFail(c, refs[i], provider, code)
    requires forall j | 0 <= j < i :: LeadsToProvider(c, refs[j], provider)
    ensures ListCode(c, refs, provider, code)
  {
    hide MayFail, LeadsToProvider;
    assert FirstFailure(c, refs, provider, i, code);
  }

  predicate OfProfile(f: Field) { f.ProfileController? || f.ProfileAccount? || f.ProfileMode? || f.ProfileCapabilities? }

  predicate OfBinding(f: Field) {
    f.BindingIdentity? || f.BindingPermitted? || f.BindingPrimary? || f.BindingEdges? || f.BindingPreferred?
  }

  method ProfileErrors(c: Catalog, errs0: Errors) returns (errs: Errors)
    ensures forall f :: f in errs.Keys <==> f in errs0.Keys || (OfProfile(f) && Bad(c, f))
    ensures Extends(c, errs0, errs)
  {
    hide Bad, OfProfile, Extends;
    errs := errs0;
    ExtendsSelf(c, errs0);
    var rest := c.profiles.Keys;
    while rest != {}
      invariant rest <= c.profiles.Keys
      invariant forall f :: f in errs.Keys <==> f in errs0.Keys || (OfProfile(f) && f.name in c.profiles.Keys - rest && Bad(c, f))
      invariant Extends(c, errs0, errs)
      decreases rest
    {
      var name :| name in rest;
      rest := rest - {name};
      ghost var errs1 := errs;
      errs := OneProfileErrors(c, name, errs);
      ExtendsOn(c, errs0, errs1, errs);
    }
    BadProfileIsProfile(c);
  }

  lemma BadProfileIsProfile(c: Catalog)
    ensures forall f: Field | OfProfile(f) && Bad(c, f) :: f.name in c.profiles
  {}

  /** What the walk adds for one profile. */
  method OneProfileErrors(c: Catalog, name: Ref, errs0: Errors) returns (errs: Errors)
    requires name in c.profiles
    ensures forall f :: f in errs.Keys <==> f in errs0.Keys || (OfProfile(f) && f.name == name && Bad(c, f))
    ensures Extends(c, errs0, errs)
  {
    hide Bad, OfProfile, BadCapabilities, Extends, CodeFor, Add, AddIf;
    CodesOfName(c, name);
    ProfileFields(c, name);
    ExtendsSelf(c, errs0);
    var p := c.profiles[name];
    var ok := p.controllerRef in c.controllers;
    AddExtends(c, errs0, errs0, !ok, ProfileController(name), MissingReference);
    errs := AddIf(errs0, !ok, ProfileController(name), MissingReference);
    if p.accountRef !in c.accounts {
      AddExtends(c, errs0, errs, true, ProfileAccount(name), MissingReference);
      errs := AddIf(errs, true, ProfileAccount(name), MissingReference);
    } else if |ListAt(c.accounts[p.accountRef].quotaPoolsByMode, p.executionMode)| == 0 {
      AddExtends(c, errs0, errs, true, ProfileMode(name), ModeWithoutPools);
      errs := AddIf(errs, true, ProfileMode(name), ModeWithoutPools);
    }
    var incapable := CapabilityError(c, p);
    AddExtends(c, errs0, errs, incapable, ProfileCapabilities(name), CapabilityNotOnController);
    errs := AddIf(errs, incapable, ProfileCapabilities(name), CapabilityNotOnController);
  }

  lemma ProfileFields(c: Catalog, name: Ref)
    requires name in c.profiles
    ensures forall f :: OfProfile(f) && f.name == name <==>
              f in {ProfileController(name), ProfileAccount(name), ProfileMode(name), ProfileCapabilities(name)}
    ensures var p := c.profiles[name];
            && (Bad(c, ProfileController(name)) <==> p.controllerRef !in c.controllers)
            && (Bad(c, ProfileAccount(name)) <==> p.accountRef !in c.accounts)
            && (Bad(c, ProfileMode(name)) <==>
                p.accountRef in c.accounts && ListAt(c.accounts[p.accountRef].quotaPoolsByMode, p.executionMode) == [])
            && (Bad(c, ProfileCapabilities(name)) <==> BadCapabilities(c, p))
  {}

  method CapabilityError(c: Catalog, p: Profile) returns (incapable: bool)
    ensures incapable <==> BadCapabilities(c, p)
  {
    var ok := p.controllerRef in c.controllers;
    incapable := false;
    for i := 0 to |p.capabilities|
      invariant incapable <==> ok && exists j :: 0 <= j < i && p.capabilities[j] !in c.controllers[p.controllerRef].capabilities
    {
      if ok && p.capabilities[i] !in c.controllers[p.controllerRef].capabilities {
        incapable := true;
      }
    }
  }

  method BindingErrors(c: Catalog, errs0: Errors) returns (errs: Errors)
    ensures forall f :: f in errs.Keys <==> f in errs0.Keys || (OfBinding(f) && Bad(c, f))
    ensures Extends(c, errs0, errs)
  {
    hide Bad, OfBinding, Less, StrictlySorted, Extends;
    errs := errs0;
    ExtendsSelf(c, errs0);
    var names := SortedMembers(c.bindings.Keys);
    var identities: set<Identity> := {};
    for i := 0 to |names|
      invariant forall d :: d in identities <==> exists n :: n in names[..i] && c.bindings[n].identity == d
      invariant forall f :: f in errs.Keys <==> f in errs0.Keys || (OfBinding(f) && f.name in names[..i] && Bad(c, f))
      invariant Extends(c, errs0, errs)
    {
      var name := names[i];
      IdentitySeen(c, names, i, identities);
      assert names[..i + 1] == names[..i] + [name];
      var repeated := c.bindings[name].identity in identities;
      identities := identities + {c.bindings[name].identity};
      ghost var errs1 := errs;
      errs := OneBindingErrors(c, name, repeated, errs);
      ExtendsOn(c, errs0, errs1, errs);
    }
    assert names[..|names|] == names;
    BadBindingIsBinding(c);
  }

  lemma BadBindingIsBinding(c: Catalog)
    ensures forall f: Field | OfBinding(f) && Bad(c, f) :: f.name in c.bindings
  {}

  lemma IdentitySeen(c: Catalog, names: seq<Ref>, i: nat, identities: set<Identity>)
    requires StrictlySorted(names) && i < |names| && forall n :: n in names <==> n in c.bindings
    requires forall d :: d in identities <==> exists n :: n in names[..i] && c.bindings[n].identity == d
    ensures c.bindings[names[i]].identity in identities <==> Bad(c, BindingIdentity(names[i]))
  {
    hide Less, StrictlySorted;
    forall other | other in c.bindings ensures Less(other, names[i]) <==> other in names[..i] { Earlier(names, i, other); }
  }

  /** What the walk adds for one binding. */
  method OneBindingErrors(c: Catalog, name: Ref, repeated: bool, errs0: Errors) returns (errs: Errors)
    requires name in c.bindings && (repeated <==> Bad(c, BindingIdentity(name)))
    ensures forall f :: f in errs.Keys <==> f in errs0.Keys || (OfBinding(f) && f.name == name && Bad(c, f))
    ensures Extends(c, errs0, errs)
  {
    hide Bad, OfBinding, BadEdges, BadPreferred, Add, AddIf, Extends, CodeFor, PreferenceCodeOf;
    CodesOfName(c, name);
    BindingFields(c, name);
    ExtendsSelf(c, errs0);
    var b := c.bindings[name];
    AddExtends(c, errs0, errs0, repeated, BindingIdentity(name), Duplicate);
    errs := AddIf(errs0, repeated, BindingIdentity(name), Duplicate);
    var missing, primary, edges := BindingListErrors(c, b);
    AddExtends(c, errs0, errs, missing, BindingPermitted(name), MissingReference);
    errs := AddIf(errs, missing, BindingPermitted(name), MissingReference);
    AddExtends(c, errs0, errs, primary, BindingPrimary(name), NotPermitted);
    errs := AddIf(errs, primary, BindingPrimary(name), NotPermitted);
    AddExtends(c, errs0, errs, edges, BindingEdges(name), NotPermitted);
    errs := AddIf(errs, edges, BindingEdges(name), NotPermitted);
    var code := PreferenceError(c, b);
    var reported := if code.Some? then code.value else NotPermitted;
    if code.Some? { PreferredCode(c, name, reported); }
    AddExtends(c, errs0, errs, code.Some?, BindingPreferred(name), reported);
    errs := AddIf(errs, code.Some?, BindingPreferred(name), reported);
  }

  lemma PreferredCode(c: Catalog, name: Ref, code: Code)
    requires name in c.bindings && PreferenceCodeOf(c, c.bindings[name], code)
    ensures CodeFor(c, BindingPreferred(name), code)
  {}

  lemma BindingFields(c: Catalog, name: Ref)
    requires name in c.bindings
    ensures forall f :: OfBinding(f) && f.name == name <==>
              f in {BindingIdentity(name), BindingPermitted(name), BindingPrimary(name), BindingEdges(name), BindingPreferred(name)}
    ensures Bad(c, BindingPermitted(name)) <==> exists r | r in c.bindings[name].permittedProfiles :: r !in c.profiles
    ensures Bad(c, BindingPrimary(name)) <==>
              exists r | r in c.bindings[name].policy.primaryProfiles :: r !in c.bindings[name].permittedProfiles
    ensures Bad(c, BindingEdges(name)) <==> BadEdges(c.bindings[name])
    ensures Bad(c, BindingPreferred(name)) <==> BadPreferred(c, c.bindings[name])
  {
    hide BadEdges, BadPreferred;
  }

  /** The loops over one binding's permitted profiles, primaries and edges. */
  method BindingListErrors(c: Catalog, b: Binding) returns (missing: bool, primary: bool, edges: bool)
    ensures missing <==> exists r | r in b.permittedProfiles :: r !in c.profiles
    ensures primary <==> exists r | r in b.policy.primaryProfiles :: r !in b.permittedProfiles
    ensures edges <==> BadEdges(b)
  {
    missing, primary, edges := false, false, false;
    for i := 0 to |b.permittedProfiles|
      invariant missing <==> exists j :: 0 <= j < i && b.permittedProfiles[j] !in c.profiles
    {
      if b.permittedProfiles[i] !in c.profiles {
        missing := true;
      }
    }
    for i := 0 to |b.policy.primaryProfiles|
      invariant primary <==> exists j :: 0 <= j < i && b.policy.primaryProfiles[j] !in b.permittedProfiles
    {
      if b.policy.primaryProfiles[i] !in b.permittedProfiles {
        primary := true;
      }
    }
    var rest := b.policy.quotaEdges.Keys;
    while rest != {}
      invariant rest <= b.policy.quotaEdges.Keys
      invariant edges <==> exists from :: from in b.policy.quotaEdges && from !in rest && BadEdge(b, from)
      decreases rest
    {
      var from :| from in rest;
      rest := rest - {from};
      var targets := b.policy.quotaEdges[from];
      var bad := from !in b.permittedProfiles;
      for i := 0 to |targets|
        invariant bad <==> from !in b.permittedProfiles || exists j :: 0 <= j < i && targets[j] !in b.permittedProfiles
      {
        if targets[i] !in b.permittedProfiles {
          bad := true;
        }
      }
      assert bad <==> BadEdge(b, from);
      edges := edges || bad;
    }
    assert BadEdges(b) <==> exists from :: from in b.policy.quotaEdges && BadEdge(b, from);
  }

  predicate BadEdge(b: Binding, from: Ref)
    requires from in b.policy.quotaEdges
  {
    from !in b.permittedProfiles || exists to | to in b.policy.quotaEdges[from] :: to !in b.permittedProfiles
  }

  /** The loop over the permitted profiles for one preferred account. */
  method PermittedUses(c: Catalog, b: Binding, account: Ref) returns (permitted: bool)
    ensures permitted <==> UsedByPermitted(c, b, account)
  {
    permitted := false;
    for i := 0 to |b.permittedProfiles|
      invariant permitted <==> exists j :: 0 <= j < i && ProfileAt(c, b.permittedProfiles[j]).accountRef == account
    {
      if ProfileAt(c, b.permittedProfiles[i]).accountRef == account {
        permitted := true;
      }
    }
  }

  /** The walk over one binding's preferred accounts; which code it ends with depends on the walk, whether there is one does not. */
  method PreferenceError(c: Catalog, b: Binding) returns (code: Option<Code>)
    ensures code.Some? <==> BadPreferred(c, b)
    ensures code.Some? ==> PreferenceCodeOf(c, b, code.value)
  {
    hide UsedByPermitted;
    code := None;
    var rest := b.policy.preferredAccounts.Keys;
    while rest != {}
      invariant rest <= b.policy.preferredAccounts.Keys
      invariant code.Some? <==>
        exists provider | provider in b.policy.preferredAccounts :: provider !in rest &&
          (BadPreference(c, provider, b.policy.preferredAccounts[provider]) ||
           !UsedByPermitted(c, b, b.policy.preferredAccounts[provider]))
      invariant code.Some? ==> PreferenceCodeOf(c, b, code.value)
      decreases rest
    {
      var provider :| provider in rest;
      rest := rest - {provider};
      var account := b.policy.preferredAccounts[provider];
      if account !in c.accounts {
        code := if code.Some? then code else Some(MissingReference);
      } else {
        if c.accounts[account].provider != provider {
          code := if code.Some? then code else Some(ProviderMismatch);
        }
        var permitted := PermittedUses(c, b, account);
        if !permitted {
          code := if code.Some? then code else Some(NotPermitted);
        }
      }
    }
  }

  /** The whole check accepts exactly the catalogs with no bad field, and on unambiguous pools it reports exactly the
      bad fields, in whatever order the maps are walked. */
  method ValidateReferences(c: Catalog) returns (errs: Errors)
    ensures errs == map[] <==> ReferencesOk(c)
    ensures forall f | Bad(c, f) :: f in errs
    ensures Unambiguous(c.pools) ==> forall f :: f in errs <==> Bad(c, f)
    ensures forall f | f in errs :: CodeFor(c, f, errs[f])
  {
    hide Bad, CodeFor;
    var pools := PoolErrors(c);
    var accounts := AccountErrors(c, pools);
    var profiles := ProfileErrors(c, accounts);
    errs := BindingErrors(c, profiles);
    ExtendsOn(c, map[], pools, accounts);
    ExtendsOn(c, map[], accounts, profiles);
    ExtendsOn(c, map[], profiles, errs);
    if ReferencesOk(c) {
      ValidIsUnambiguous(c);
      assert Unambiguous(c.pools);
    }
    if errs != map[] {
      var f :| f in errs;
    }
  }
}
