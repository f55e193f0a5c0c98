/** The pools a profile draws from: one sorted list of canonical ids, and the text that is hashed for it. */
module ProfilePools {
  import opened Options
  import opened Ordering
  import opened RuntimeCatalog
  import opened CatalogReferences
  import opened CatalogProjection
  import opened ProjectionLaws

  function CanonicalPoolID(owner: string, pool: Pool): string {
    owner + ":" + pool.provider + ":" + pool.resourceRef
  }

  // ----- what the list is -----

  /** The reference leads to a pool with this id. */
  ghost predicate LeadsTo(pools: map<Ref, Pool>, owner: string, r: Ref, id: string) {
    exists n :: ResolvesTo(pools, r, n) && CanonicalPoolID(owner, pools[n]) == id
  }

  ghost predicate Resolves(pools: map<Ref, Pool>, r: Ref) {
    exists n :: ResolvesTo(pools, r, n)
  }

  /** Sorted, without repeats, and holding the ids the references lead to and no others. */
  ghost predicate IsPoolList(pools: map<Ref, Pool>, owner: string, refs: seq<Ref>, ids: seq<string>) {
    && StrictlySorted(ids)
    && forall id :: id in ids <==> exists r :: r in refs && LeadsTo(pools, owner, r, id)
  }

  /** Some reference of the list leads to the id. */
  ghost predicate LedToBy(pools: map<Ref, Pool>, owner: string, refs: seq<Ref>, id: string) {
    exists r :: r in refs && LeadsTo(pools, owner, r, id)
  }

  /** The reference leads to some id of the list. */
  ghost predicate LeadsInto(pools: map<Ref, Pool>, owner: string, r: Ref, ids: seq<string>) {
    exists id :: id in ids && LeadsTo(pools, owner, r, id)
  }

  /** On ambiguous pools the walk decides where an alias leads: sorted, without repeats, every id is led to by a reference
      and every reference leads to one of the ids. */
  ghost predicate MayBePoolList(pools: map<Ref, Pool>, owner: string, refs: seq<Ref>, ids: seq<string>) {
    && StrictlySorted(ids)
    && (forall id | id in ids :: LedToBy(pools, owner, refs, id))
    && (forall r | r in refs :: LeadsInto(pools, owner, r, ids))
  }

  /** The profile, its account and a non-empty list are there, and every reference of the list resolves. */
  ghost predicate Derivable(c: Catalog, profileRef: Ref) {
    && profileRef in c.profiles && c.profiles[profileRef].accountRef in c.accounts
    && PoolRefs(c.accounts, c.profiles[profileRef]) != []
    && forall r | r in PoolRefs(c.accounts, c.profiles[profileRef]) :: Resolves(c.pools, r)
  }

  method RuntimeProfilePools(c: Catalog, owner: string, profileRef: Ref) returns (ids: Option<seq<string>>)
    ensures ids.Some? <==> Derivable(c, profileRef)
    ensures ids.Some? ==> MayBePoolList(c.pools, owner, PoolRefs(c.accounts, c.profiles[profileRef]), ids.value)
    ensures ids.Some? && Unambiguous(c.pools) ==> IsPoolList(c.pools, owner, PoolRefs(c.accounts, c.profiles[profileRef]), ids.value)
  {
    hide IsPoolList, MayBePoolList, LedToBy, LeadsInto, ResolvesTo, LeadsTo, CanonicalPoolID, Sort;
    if profileRef !in c.profiles {
      return None;
    }
    var profile := c.profiles[profileRef];
    if profile.accountRef !in c.accounts {
      return None;
    }
    var refs := ListAt(c.accounts[profile.accountRef].quotaPoolsByMode, profile.executionMode);
    if |refs| == 0 {
      return None;
    }
    var pools: seq<string> := [];
    for i := 0 to |refs|
      invariant NoRepeats(pools)
      invariant forall j | 0 <= j < i :: Resolves(c.pools, refs[j])
      invariant forall id | id in pools :: LedToBy(c.pools, owner, refs, id)
      invariant forall j | 0 <= j < i :: LeadsInto(c.pools, owner, refs[j], pools)
    {
      var name := ResolveAnyPool(c, refs[i]);
      if name.None? {
        assert refs[i] in refs && !Resolves(c.pools, refs[i]);
        return None;
      }
      PoolIsThere(c.pools, refs[i], name.value);
      var id := CanonicalPoolID(owner, c.pools[name.value]);
      ghost var before := pools;
      if id !in pools {
        pools := pools + [id];
      }
      ResolvedLeadsTo(c.pools, owner, refs, pools, refs[i], name.value);
      forall j | 0 <= j < i ensures LeadsInto(c.pools, owner, refs[j], pools) { LeadsIntoMore(c.pools, owner, refs[j], before, pools); }
    }
    ids := Some(Sort(pools));
    SortedMayBePoolList(c.pools, owner, refs, pools);
    if Unambiguous(c.pools) { OnlyPoolList(c.pools, owner, refs, ids.value); }
  }

  lemma ResolvedLeadsTo(pools: map<Ref, Pool>, owner: string, refs: seq<Ref>, ids: seq<string>, r: Ref, n: Ref)
    requires ResolvesTo(pools, r, n) && r in refs && CanonicalPoolID(owner, pools[n]) in ids
    ensures LedToBy(pools, owner, refs, CanonicalPoolID(owner, pools[n])) && LeadsInto(pools, owner, r, ids)
  {
    assert LeadsTo(pools, owner, r, CanonicalPoolID(owner, pools[n]));
  }

  lemma LeadsIntoMore(pools: map<Ref, Pool>, owner: string, r: Ref, ids: seq<string>, more: seq<string>)
    requires LeadsInto(pools, owner, r, ids) && forall id | id in ids :: id in more
    ensures LeadsInto(pools, owner, r, more)
  {}

  lemma SortedMayBePoolList(pools: map<Ref, Pool>, owner: string, refs: seq<Ref>, found: seq<string>)
    requires NoRepeats(found)
    requires forall id | id in found :: LedToBy(pools, owner, refs, id)
    requires forall j | 0 <= j < |refs| :: LeadsInto(pools, owner, refs[j], found)
    ensures MayBePoolList(pools, owner, refs, Sort(found))
  {
    hide LedToBy, LeadsInto, Sort, StrictlySorted;
    SortIsStrict(found);
    SortKeepsMembers(found);
    forall r | r in refs ensures LeadsInto(pools, owner, r, Sort(found)) {
      var j :| 0 <= j < |refs| && refs[j] == r;
      LeadsIntoMore(pools, owner, r, found, Sort(found));
    }
  }

  /** On unambiguous pools there is one such list. */
  lemma OnlyPoolList(pools: map<Ref, Pool>, owner: string, refs: seq<Ref>, ids: seq<string>)
    requires Unambiguous(pools) && MayBePoolList(pools, owner, refs, ids)
    ensures IsPoolList(pools, owner, refs, ids)
  {
    hide LeadsTo, StrictlySorted;
    forall r, id | r in refs && LeadsTo(pools, owner, r, id) ensures id in ids {
      assert LeadsInto(pools, owner, r, ids);
      var other :| other in ids && LeadsTo(pools, owner, r, other);
      OneId(pools, owner, r, id, other);
    }
    forall id | id in ids ensures exists r :: r in refs && LeadsTo(pools, owner, r, id) {
      assert LedToBy(pools, owner, refs, id);
    }
  }

  lemma OneId(pools: map<Ref, Pool>, owner: string, r: Ref, id: string, other: string)
    requires Unambiguous(pools) && LeadsTo(pools, owner, r, id) && LeadsTo(pools, owner, r, other)
    ensures id == other
  {
    hide CanonicalPoolID;
    var n :| ResolvesTo(pools, r, n) && CanonicalPoolID(owner, pools[n]) == id;
    var m :| ResolvesTo(pools, r, m) && CanonicalPoolID(owner, pools[m]) == other;
    ResolvedIsUnique(pools, r, n);
    ResolvedIsUnique(pools, r, m);
  }

  // ----- what the list depends on -----

  /** Two lists of references that lead to the same ids, each reference of one matched in the other. */
  ghost predicate Matched(pools: map<Ref, Pool>, refs: seq<Ref>, others: seq<Ref>) {
    && (forall r | r in refs :: exists s :: s in others && SameTargets(pools, r, s))
    && (forall s | s in others :: exists r :: r in refs && SameTargets(pools, r, s))
  }

  ghost predicate SameTargets(pools: map<Ref, Pool>, r: Ref, s: Ref) {
    forall n :: ResolvesTo(pools, r, n) <==> ResolvesTo(pools, s, n)
  }

  /** Order, repetition and the choice of alias do not matter. */
  lemma MatchedListsAgree(pools: map<Ref, Pool>, owner: string, refs: seq<Ref>, others: seq<Ref>, ids: seq<string>, jds: seq<string>)
    requires Matched(pools, refs, others)
    requires IsPoolList(pools, owner, refs, ids) && IsPoolList(pools, owner, others, jds)
    ensures ids == jds
  {
    hide StrictlySorted, LeadsTo, Matched;
    forall id ensures id in ids <==> id in jds {
      if id in ids {
        var r :| r in refs && LeadsTo(pools, owner, r, id);
        var s := MatchOf(pools, refs, others, r);
        SameTargetsLeadAlike(pools, owner, r, s, id);
      }
      if id in jds {
        var s :| s in others && LeadsTo(pools, owner, s, id);
        var r := MatchOf(pools, others, refs, s);
        SameTargetsLeadAlike(pools, owner, s, r, id);
      }
    }
    StrictlySortedIsUnique(ids, jds);
  }

  lemma MatchOf(pools: map<Ref, Pool>, refs: seq<Ref>, others: seq<Ref>, r: Ref) returns (s: Ref)
    requires (Matched(pools, refs, others) || Matched(pools, others, refs)) && r in refs
    ensures s in others && SameTargets(pools, r, s)
  {
    if Matched(pools, refs, others) {
      s :| s in others && SameTargets(pools, r, s);
    } else {
      s :| s in others && SameTargets(pools, s, r);
    }
  }

  lemma SameTargetsLeadAlike(pools: map<Ref, Pool>, owner: string, r: Ref, s: Ref, id: string)
    requires SameTargets(pools, r, s)
    ensures LeadsTo(pools, owner, r, id) <==> LeadsTo(pools, owner, s, id)
  {}

  lemma AliasHasSameTargets(pools: map<Ref, Pool>, n: Ref, alias: Ref)
    requires PoolNamesDistinct(pools) && n in pools && alias in pools[n].aliases
    ensures SameTargets(pools, n, alias)
  {}

  /** A pool written under one of its aliases, anywhere in a list in any order, leaves the ids alone. */
  lemma AliasAndOrderDoNotMatter(pools: map<Ref, Pool>, owner: string, refs: seq<Ref>, i: nat, alias: Ref, others: seq<Ref>,
                                 ids: seq<string>, jds: seq<string>)
    requires PoolNamesDistinct(pools) && i < |refs| && refs[i] in pools && alias in pools[refs[i]].aliases
    requires multiset(others) == multiset(refs[i := alias])
    requires IsPoolList(pools, owner, refs, ids) && IsPoolList(pools, owner, others, jds)
    ensures ids == jds
  {
    AliasHasSameTargets(pools, refs[i], alias);
    hide PoolNamesDistinct, ResolvesTo, IsPoolList;
    var renamed := refs[i := alias];
    forall s ensures s in others <==> s in renamed {
      assert s in multiset(others) <==> s in others;
      assert s in multiset(renamed) <==> s in renamed;
    }
    forall r | r in refs ensures exists s :: s in others && SameTargets(pools, r, s) {
      var j :| 0 <= j < |refs| && refs[j] == r;
      assert renamed[j] in others && SameTargets(pools, r, renamed[j]);
    }
    forall s | s in others ensures exists r :: r in refs && SameTargets(pools, r, s) {
      var j :| 0 <= j < |renamed| && renamed[j] == s;
      assert refs[j] in refs && SameTargets(pools, refs[j], s);
    }
    MatchedListsAgree(pools, owner, refs, others, ids, jds);
  }

  // ----- the catalog and its slice -----

  lemma ValidIsDerivable(c: Catalog, name: Ref)
    requires ReferencesOk(c) && name in c.profiles
    ensures Derivable(c, name)
  {
    hide ResolvesTo;
    assert !Bad(c, ProfileAccount(name)) && !Bad(c, ProfileMode(name));
    var p := c.profiles[name];
    assert !Bad(c, AccountPools(p.accountRef, p.executionMode));
    forall r | r in PoolRefs(c.accounts, p) ensures Resolves(c.pools, r) {
      assert LeadsToProvider(c, r, c.accounts[p.accountRef].provider);
    }
  }

  /** For every profile of the controller, the slice gives the ids the whole catalog gives, or neither gives any. */
  lemma SliceGivesSamePools(c: Catalog, ref: Ref, owner: string, name: Ref, ids: seq<string>, jds: seq<string>)
    requires ref in c.controllers && name in c.profiles && c.profiles[name].controllerRef == ref
    ensures Derivable(Slice(c, ref), name) <==> Derivable(c, name)
    ensures var s := Slice(c, ref);
            && PoolRefs(s.accounts, s.profiles[name]) == PoolRefs(c.accounts, c.profiles[name])
            && (IsPoolList(c.pools, owner, PoolRefs(c.accounts, c.profiles[name]), ids) ==>
                IsPoolList(s.pools, owner, PoolRefs(s.accounts, s.profiles[name]), jds) ==> ids == jds)
  {
    hide ResolvesTo, UsedAccounts, UsedPools, ProjectBindings, StrictlySorted, Draws, CanonicalPoolID;
    var s, own := Slice(c, ref), OwnProfiles(c.profiles, ref);
    var refs := PoolRefs(c.accounts, c.profiles[name]);
    PoolRefsTwice(c.accounts, own, name);
    AccountInSlice(c, ref, name);
    forall r, n | r in refs ensures ResolvesTo(s.pools, r, n) <==> ResolvesTo(c.pools, r, n) {
      DrawnByOwn(c.accounts, own, name, r);
      ResolvesInSlice(c.pools, c.accounts, own, r, n);
    }
    forall r, id | r in refs ensures LeadsTo(s.pools, owner, r, id) <==> LeadsTo(c.pools, owner, r, id) {
      SlicePoolsAreSame(c, ref);
      if LeadsTo(s.pools, owner, r, id) {
        var n :| ResolvesTo(s.pools, r, n) && CanonicalPoolID(owner, s.pools[n]) == id;
        assert ResolvesTo(c.pools, r, n);
      }
      if LeadsTo(c.pools, owner, r, id) {
        var n :| ResolvesTo(c.pools, r, n) && CanonicalPoolID(owner, c.pools[n]) == id;
        assert ResolvesTo(s.pools, r, n);
      }
    }
    if IsPoolList(c.pools, owner, refs, ids) && IsPoolList(s.pools, owner, refs, jds) {
      forall id ensures id in ids <==> id in jds { hide LeadsTo; }
      StrictlySortedIsUnique(ids, jds);
    }
  }

  lemma DrawnByOwn(accounts: map<Ref, Account>, own: map<Ref, Profile>, name: Ref, r: Ref)
    requires name in own && r in PoolRefs(accounts, own[name])
    ensures Draws(accounts, own, r)
  {}

  lemma AccountInSlice(c: Catalog, ref: Ref, name: Ref)
    requires ref in c.controllers && name in OwnProfiles(c.profiles, ref)
    ensures c.profiles[name].accountRef in Slice(c, ref).accounts <==> c.profiles[name].accountRef in c.accounts
  {
    hide UsedPools, ProjectBindings;
    if c.profiles[name].accountRef in c.accounts { AccountKept(c, ref, name); }
  }

  lemma SlicePoolsAreSame(c: Catalog, ref: Ref)
    requires ref in c.controllers
    ensures forall n | n in Slice(c, ref).pools :: n in c.pools && Slice(c, ref).pools[n] == c.pools[n]
    ensures forall r, n | ResolvesTo(Slice(c, ref).pools, r, n) :: n in Slice(c, ref).pools
  {}

  // ----- the hashed text -----

  function Join(ids: seq<string>): string {
    if ids == [] then "" else if |ids| == 1 then ids[0] else ids[0] + "\n" + Join(ids[1..])
  }

  /** What RuntimePoolSetDigest hashes. */
  function DigestInput(ids: seq<string>): string {
    Join(Sort(ids))
  }

  predicate OneLine(id: string) {
    '\n' !in id
  }

  /** The first line break of a joined text ends the first id. */
  lemma FirstBreak(a: seq<string>)
    requires a != [] && OneLine(a[0])
    ensures |a| == 1 ==> Join(a) == a[0]
    ensures |a| > 1 ==> |a[0]| < |Join(a)| && Join(a)[|a[0]|] == '\n'
    ensures |a| > 1 ==> Join(a)[..|a[0]|] == a[0] && Join(a)[|a[0]| + 1..] == Join(a[1..])
    ensures forall k | 0 <= k < |a[0]| :: Join(a)[k] != '\n'
  {}

  lemma {:induction false} JoinIsInjective(a: seq<string>, b: seq<string>)
    requires a != [] && b != [] && Join(a) == Join(b)
    requires (forall x | x in a :: OneLine(x)) && (forall x | x in b :: OneLine(x))
    ensures a == b
  {
    assert OneLine(a[0]) && OneLine(b[0]);
    FirstBreak(a);
    FirstBreak(b);
    if |a| > 1 && |b| > 1 {
      hide Join;
      assert |a[0]| == |b[0]|;
      JoinIsInjective(a[1..], b[1..]);
      assert a == [a[0]] + a[1..] && b == [b[0]] + b[1..];
    }
  }

  /** The lines of a text. */
  function Lines(s: string): seq<string>
    decreases |s|
  {
    if '\n' in s then
      var n := FirstLineLength(s);
      [s[..n]] + Lines(s[n + 1..])
    else [s]
  }

  function FirstLineLength(s: string): (n: nat)
    requires '\n' in s
    ensures n < |s| && s[n] == '\n' && forall k | 0 <= k < n :: s[k] != '\n'
  {
    if s[0] == '\n' then 0 else 1 + FirstLineLength(s[1..])
  }

  /** The hashed text has the ids as its lines, sorted. */
  lemma {:induction false} LinesOfJoined(ids: seq<string>)
    requires ids != [] && forall x | x in ids :: OneLine(x)
    ensures Lines(Join(ids)) == ids
  {
    assert OneLine(ids[0]);
    FirstBreak(ids);
    hide Join, Lines;
    if |ids| > 1 {
      LinesOfJoined(ids[1..]);
      FirstLine(Join(ids), |ids[0]|);
      assert ids == [ids[0]] + ids[1..];
    } else {
      LastLine(ids[0]);
      assert ids == [ids[0]];
    }
  }

  lemma FirstLine(s: string, n: nat)
    requires n < |s| && s[n] == '\n' && forall k | 0 <= k < n :: s[k] != '\n'
    ensures Lines(s) == [s[..n]] + Lines(s[n + 1..])
  {
    hide FirstLineLength;
    assert s[n] in s;
    var m := FirstLineLength(s);
    assert s[m] == '\n';
    assert m == n;
  }

  lemma LastLine(s: string)
    requires OneLine(s)
    ensures Lines(s) == [s]
  {}

  lemma DigestInputInLines(ids: seq<string>)
    requires ids != [] && forall x | x in ids :: OneLine(x)
    ensures Sorted(Lines(DigestInput(ids))) && multiset(Lines(DigestInput(ids))) == multiset(ids)
  {
    hide Sort, Join, Lines;
    SortKeepsMembers(ids);
    LinesOfJoined(Sort(ids));
  }

  /** On unambiguous pools the list holds, for every reference of the account's list for the profile's mode, the owner, the
      provider and the resource of the pool it names, and nothing else. */
  lemma PoolListInWords(c: Catalog, owner: string, profileRef: Ref, ids: seq<string>, id: string)
    requires profileRef in c.profiles && c.profiles[profileRef].accountRef in c.accounts
    requires IsPoolList(c.pools, owner, PoolRefs(c.accounts, c.profiles[profileRef]), ids)
    ensures id in ids <==>
              var p := c.profiles[profileRef];
              var lists := c.accounts[p.accountRef].quotaPoolsByMode;
              p.executionMode in lists &&
              exists r, n :: r in lists[p.executionMode] && n in c.pools && (if r in c.pools then n == r else r in c.pools[n].aliases)
                             && id == owner + ":" + c.pools[n].provider + ":" + c.pools[n].resourceRef
  {
    hide StrictlySorted;
    var refs := PoolRefs(c.accounts, c.profiles[profileRef]);
    forall r, n ensures ResolvesTo(c.pools, r, n) <==> n in c.pools && if r in c.pools then n == r else r in c.pools[n].aliases {}
    if id in ids {
      var r :| r in refs && LeadsTo(c.pools, owner, r, id);
      var n :| ResolvesTo(c.pools, r, n) && CanonicalPoolID(owner, c.pools[n]) == id;
    }
    forall r, n | r in refs && ResolvesTo(c.pools, r, n) && CanonicalPoolID(owner, c.pools[n]) == id ensures id in ids {
      assert LeadsTo(c.pools, owner, r, id);
    }
  }

  /** Two non-empty lists of one-line ids have the same digest input exactly when one is a reordering of the other. */
  lemma DigestInputIff(a: seq<string>, b: seq<string>)
    requires a != [] && b != []
    requires (forall x | x in a :: OneLine(x)) && (forall x | x in b :: OneLine(x))
    ensures DigestInput(a) == DigestInput(b) <==> multiset(a) == multiset(b)
  {
    hide Join, OneLine, Sort;
    if multiset(a) == multiset(b) {
      SortedIsUnique(Sort(a), Sort(b));
    }
    if DigestInput(a) == DigestInput(b) {
      SortKeepsMembers(a);
      SortKeepsMembers(b);
      JoinIsInjective(Sort(a), Sort(b));
    }
  }

  // ----- when two pools share an id -----

  /** q's provider runs on past p's, up to a colon, and p's resource carries the rest. */
  predicate Overlaps(p: Pool, q: Pool) {
    && |p.provider| < |q.provider| && q.provider[..|p.provider|] == p.provider && q.provider[|p.provider|] == ':'
    && p.resourceRef == q.provider[|p.provider| + 1..] + ":" + q.resourceRef
  }

  /** The id keeps apart what the physical key keeps apart, except where a provider contains a colon and overlaps. */
  lemma SameIdIff(owner: string, p: Pool, q: Pool)
    ensures CanonicalPoolID(owner, p) == CanonicalPoolID(owner, q) <==>
              (p.provider == q.provider && p.resourceRef == q.resourceRef) || Overlaps(p, q) || Overlaps(q, p)
  {
    var a, b := p.provider + ":" + p.resourceRef, q.provider + ":" + q.resourceRef;
    IdDropsOwner(owner, p);
    IdDropsOwner(owner, q);
    if |p.provider| < |q.provider| {
      SameTextOverlaps(p, q);
    } else if |q.provider| < |p.provider| {
      SameTextOverlaps(q, p);
    } else if a == b {
      assert p.provider == a[..|p.provider|] && p.resourceRef == a[|p.provider| + 1..];
      assert q.provider == b[..|q.provider|] && q.resourceRef == b[|q.provider| + 1..];
    }
    if a == b { assert CanonicalPoolID(owner, p) == owner + ":" + a == CanonicalPoolID(owner, q); }
  }

  lemma IdDropsOwner(owner: string, p: Pool)
    ensures CanonicalPoolID(owner, p)[|owner| + 1..] == p.provider + ":" + p.resourceRef
    ensures CanonicalPoolID(owner, p) == owner + ":" + (p.provider + ":" + p.resourceRef)
  {}

  lemma SameTextOverlaps(p: Pool, q: Pool)
    requires |p.provider| < |q.provider|
    ensures p.provider + ":" + p.resourceRef == q.provider + ":" + q.resourceRef <==> Overlaps(p, q)
  {
    var a, b, n := p.provider + ":" + p.resourceRef, q.provider + ":" + q.resourceRef, |p.provider|;
    if a == b {
      assert p.provider == a[..n] == b[..n] == q.provider[..n];
      assert a[n] == ':' && b[n] == q.provider[n];
      assert p.resourceRef == a[n + 1..] == b[n + 1..] == q.provider[n + 1..] + ":" + q.resourceRef;
    }
    if Overlaps(p, q) {
      assert q.provider == p.provider + ":" + q.provider[n + 1..];
      assert b == p.provider + ":" + (q.provider[n + 1..] + ":" + q.resourceRef);
    }
  }

  /** Two different pools, allowed beside each other, with one id. */
  lemma DifferentPoolsCanShareId(owner: string)
    ensures var p, q := Pool("x", "y:r", [], 1, ""), Pool("x:y", "r", [], 1, "");
            PhysicalKey(p) != PhysicalKey(q) && CanonicalPoolID(owner, p) == CanonicalPoolID(owner, q)
  {
    var p, q := Pool("x", "y:r", [], 1, ""), Pool("x:y", "r", [], 1, "");
    assert PhysicalKey(p)[1] != PhysicalKey(q)[1];
    assert Overlaps(p, q);
    SameIdIff(owner, p, q);
  }
}
