/** What the catalog schema demands, and what a catalog that passes both the schema and the reference check brings with it. */
module RuntimeSchema {
  import opened Ordering
  import opened RuntimeCatalog
  import opened CatalogReferences

  // ----- texts -----

  predicate IsAlphanumeric(ch: char) {
    'a' <= ch <= 'z' || 'A' <= ch <= 'Z' || '0' <= ch <= '9'
  }

  predicate IsRefChar(ch: char) {
    IsAlphanumeric(ch) || ch == '.' || ch == '_' || ch == ':' || ch == '/' || ch == '-'
  }

  predicate IsRef(s: string) {
    && 1 <= |s| <= 200 && IsAlphanumeric(s[0])
    && forall i | 0 <= i < |s| :: IsRefChar(s[i])
  }

  predicate IsHex(ch: char) {
    '0' <= ch <= '9' || 'a' <= ch <= 'f'
  }

  /** What the UUID pattern has at a position. */
  predicate IsUuidChar(i: nat, ch: char) {
    if i == 8 || i == 13 || i == 18 || i == 23 then ch == '-'
    else if i == 14 then '1' <= ch <= '8'
    else if i == 19 then ch == '8' || ch == '9' || ch == 'a' || ch == 'b'
    else IsHex(ch)
  }

  predicate IsUuid(s: string) {
    |s| == 36 && forall i | 0 <= i < 36 :: IsUuidChar(i, s[i])
  }

  predicate IsCredential(s: string) {
    && 6 <= |s| <= 200 && s[..5] == "cred:" && IsAlphanumeric(s[5])
    && forall i | 5 <= i < |s| :: IsRefChar(s[i]) && s[i] != ':'
  }

  ghost predicate AreRefs(list: seq<string>, least: nat) {
    && least <= |list| <= 256 && NoRepeats(list)
    && forall s | s in list :: IsRef(s)
  }

  ghost predicate AreNames<V>(m: map<Ref, V>) {
    |m| <= 256 && forall n | n in m :: IsRef(n)
  }

  predicate IsMode(mode: string) {
    mode == "subscription" || mode == "api"
  }

  // ----- resources -----

  ghost predicate ControllerFits(c: Controller) {
    && IsRef(c.host) && IsRef(c.version) && IsUuid(c.reporterGrant)
    && AreRefs(c.capabilities, 0) && 1 <= c.heartbeatMaxAgeSeconds <= 86400
  }

  /** A threshold that is absent decodes to the empty text. */
  ghost predicate PoolFits(p: Pool) {
    && IsRef(p.provider) && IsRef(p.resourceRef) && AreRefs(p.aliases, 0)
    && 1 <= p.maxConcurrency <= 10000 && (p.thresholdRef == "" || IsRef(p.thresholdRef))
  }

  ghost predicate AccountFits(a: Account) {
    && IsRef(a.provider) && IsCredential(a.credentialRef) && |a.quotaPoolsByMode| >= 1
    && forall mode | mode in a.quotaPoolsByMode :: IsMode(mode) && AreRefs(a.quotaPoolsByMode[mode], 1)
  }

  ghost predicate ProfileFits(p: Profile) {
    && IsRef(p.controllerRef) && IsRef(p.accountRef) && IsRef(p.harness)
    && IsRef(p.model) && IsRef(p.modelDeveloper) && IsRef(p.modelFamily)
    && IsMode(p.executionMode) && AreRefs(p.capabilities, 0)
  }

  ghost predicate PolicyFits(p: Policy) {
    && AreRefs(p.primaryProfiles, 1)
    && AreNames(p.quotaEdges) && (forall from | from in p.quotaEdges :: AreRefs(p.quotaEdges[from], 0))
    && AreNames(p.preferredAccounts) && (forall r | r in p.preferredAccounts :: IsRef(p.preferredAccounts[r]))
    && AreRefs(p.apiReserveProviders, 0)
    && 1 <= p.maxAttempts <= 256 && 1 <= p.evidenceMaxAgeSeconds <= 86400
    && (p.qa.mode == "off" || p.qa.mode == "prefer" || p.qa.mode == "strict")
  }

  ghost predicate BindingFits(b: Binding) {
    && IsUuid(b.identity.agent) && IsUuid(b.identity.workspace) && IsUuid(b.identity.grant)
    && AreRefs(b.permittedProfiles, 1) && PolicyFits(b.policy)
  }

  ghost predicate SchemaFits(c: Catalog) {
    && AreNames(c.controllers) && (forall n | n in c.controllers :: ControllerFits(c.controllers[n]))
    && AreNames(c.accounts) && (forall n | n in c.accounts :: AccountFits(c.accounts[n]))
    && AreNames(c.pools) && (forall n | n in c.pools :: PoolFits(c.pools[n]))
    && AreNames(c.profiles) && (forall n | n in c.profiles :: ProfileFits(c.profiles[n]))
    && AreNames(c.bindings) && (forall n | n in c.bindings :: BindingFits(c.bindings[n]))
  }

  /** A catalog ParseRuntimeCatalog lets through. */
  ghost predicate Accepted(c: Catalog) {
    SchemaFits(c) && ReferencesOk(c)
  }

  /** What the router takes for granted holds of every binding of an accepted catalog. */
  lemma AcceptedFitsTheRouter(c: Catalog, name: Ref)
    requires Accepted(c) && name in c.bindings
    ensures Unambiguous(c.pools) && c.bindings[name].policy.primaryProfiles != [] && "" !in c.profiles
    ensures c.bindings[name].policy.maxAttempts >= 1
  {
    hide Bad, IsUuid, ControllerFits, AccountFits, PoolFits, ProfileFits;
    ValidIsUnambiguous(c);
    assert BindingFits(c.bindings[name]);
    assert !IsRef("");
  }

  /** No reference holds a line break. */
  lemma RefIsOneLine(s: string)
    requires IsRef(s)
    ensures '\n' !in s
  {
    forall i | 0 <= i < |s| ensures s[i] != '\n' { assert IsRefChar(s[i]); }
  }
}
