/** The runtime catalog: controllers, accounts, pools, profiles and bindings, keyed by reference. */
module RuntimeCatalog {
  import opened Options

  type Ref = string

  datatype Controller = Controller(
    host: string,
    version: string,
    reporterGrant: string,
    capabilities: seq<string>,
    enabled: bool,
    heartbeatMaxAgeSeconds: int)

  datatype Pool = Pool(
    provider: string,
    resourceRef: string,
    aliases: seq<string>,
    maxConcurrency: int,
    thresholdRef: string)

  datatype Account = Account(
    provider: string,
    credentialRef: string,
    quotaPoolsByMode: map<string, seq<string>>)

  datatype Profile = Profile(
    controllerRef: Ref,
    accountRef: Ref,
    harness: string,
    model: string,
    modelDeveloper: string,
    modelFamily: string,
    executionMode: string,
    capabilities: seq<string>,
    enabled: bool)

  datatype QA = QA(mode: string, quotaFallback: bool)

  datatype Policy = Policy(
    primaryProfiles: seq<Ref>,
    quotaEdges: map<Ref, seq<Ref>>,
    preferredAccounts: map<string, Ref>,
    apiReserveProviders: seq<string>,
    maxAttempts: int,
    evidenceMaxAgeSeconds: int,
    qa: QA)

  datatype Identity = Identity(agent: string, workspace: string, grant: string)

  datatype Binding = Binding(
    identity: Identity,
    permittedProfiles: seq<Ref>,
    policy: Policy,
    enabled: bool)

  datatype Catalog = Catalog(
    controllers: map<Ref, Controller>,
    accounts: map<Ref, Account>,
    pools: map<Ref, Pool>,
    profiles: map<Ref, Profile>,
    bindings: map<Ref, Binding>)

  // A Go map read at a missing key gives the zero value.

  const NO_PROFILE := Profile("", "", "", "", "", "", "", [], false)
  const NO_ACCOUNT := Account("", "", map[])

  function ListAt(m: map<string, seq<string>>, k: string): seq<string> {
    if k in m then m[k] else []
  }

  function StringAt(m: map<string, string>, k: string): string {
    if k in m then m[k] else ""
  }

  function ProfileAt(c: Catalog, ref: Ref): Profile {
    if ref in c.profiles then c.profiles[ref] else NO_PROFILE
  }

  function AccountAt(c: Catalog, ref: Ref): Account {
    if ref in c.accounts then c.accounts[ref] else NO_ACCOUNT
  }

  function EnabledAt(c: Catalog, controller: Ref): bool {
    controller in c.controllers && c.controllers[controller].enabled
  }

  /** A pool reference names a pool directly, or else through one of its aliases. */
  predicate ResolvesTo(pools: map<Ref, Pool>, ref: Ref, name: Ref) {
    name in pools && (name == ref || (ref !in pools && ref in pools[name].aliases))
  }

  /** No alias leads to two pools: what ValidateReferences makes sure of. */
  ghost predicate Unambiguous(pools: map<Ref, Pool>) {
    forall a, b, ref | a in pools && b in pools && ref in pools[a].aliases && ref in pools[b].aliases :: a == b
  }

  /** ResolvePool on unambiguous pools, where the order the map is walked in does not matter. */
  function ResolvePool(pools: map<Ref, Pool>, ref: Ref): (name: Option<Ref>)
    requires Unambiguous(pools)
    ensures name.Some? ==> ResolvesTo(pools, ref, name.value)
    ensures name.None? ==> forall n :: !ResolvesTo(pools, ref, n)
  {
    if ref in pools then Some(ref)
    else if exists n | n in pools :: ref in pools[n].aliases then
      var n :| n in pools && ref in pools[n].aliases;
      Some(n)
    else None
  }

  lemma ResolvedIsUnique(pools: map<Ref, Pool>, ref: Ref, name: Ref)
    requires Unambiguous(pools) && ResolvesTo(pools, ref, name)
    ensures ResolvePool(pools, ref) == Some(name)
  {}
}
