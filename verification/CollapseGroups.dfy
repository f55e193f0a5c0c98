/** Loading the duplicate groups of the memories table. A query's answer is a parameter: any sequence its WHERE and ORDER
    BY clauses allow. */
module CollapseGroups {
  import opened Ordering
  import opened MemoryCollapse

  // ----- the queries -----

  /** Each considered row of the scope once; rows of one identity newest first. */
  ghost predicate IsAnswer(rows: Table, filter: string, scope: Scope, answer: seq<Uuid>) {
    && NoRepeats(answer)
    && (forall id :: id in answer <==> Considered(rows, filter, id) && rows[id].scope == scope)
    && NewestFirst(rows, answer)
  }

  ghost predicate NewestFirst(rows: Table, ids: seq<Uuid>) {
    && (forall id | id in ids :: id in rows)
    && (forall i, j | 0 <= i < j < |ids| && SameIdentity(rows[ids[i]], rows[ids[j]]) :: Newer(rows, ids[i], ids[j]))
  }

  // ----- loading the groups -----

  /** All rows of one contest, newest first. */
  ghost predicate IsGroup(rows: Table, filter: string, g: seq<Uuid>) {
    && |g| > 1 && NoRepeats(g) && g[0] in rows
    && (forall id :: id in g <==> Rivals(rows, filter, g[0], id))
    && (forall i, j | 0 <= i < j < |g| :: g[i] in rows && g[j] in rows && Newer(rows, g[i], g[j]))
  }

  ghost predicate Grouped(rows: Table, filter: string, scopes: set<Scope>, g: seq<Uuid>) {
    IsGroup(rows, filter, g) && InScopes(rows, scopes, g[0])
  }

  /** The contests of two groups differ. */
  ghost predicate Apart(rows: Table, filter: string, g: seq<Uuid>, h: seq<Uuid>) {
    |g| > 1 && |h| > 1 && !Rivals(rows, filter, g[0], h[0])
  }

  predicate InScopes(rows: Table, scopes: set<Scope>, id: Uuid) {
    id in rows && rows[id].scope in scopes
  }

  /** The contests of some scopes, each once. */
  ghost predicate AreGroups(rows: Table, filter: string, scopes: set<Scope>, groups: seq<seq<Uuid>>) {
    && (forall i | 0 <= i < |groups| :: Grouped(rows, filter, scopes, groups[i]))
    && (forall i, j | 0 <= i < j < |groups| :: Apart(rows, filter, groups[i], groups[j]))
    && (forall id | Considered(rows, filter, id) && InScopes(rows, scopes, id) && Contested(rows, filter, id) ::
          exists i :: 0 <= i < |groups| && id in groups[i])
  }

  function GroupKey(m: Memory): string
    requires IdentityExtra(m).Some?
  {
    m.workspaceID + "\0" + IdentityExtra(m).value + "\0" + m.key
  }

  lemma GroupKeyIff(a: Memory, b: Memory)
    requires a.scope == b.scope && IdentityExtra(a).Some? && IdentityExtra(b).Some?
    ensures GroupKey(a) == GroupKey(b) <==> SameIdentity(a, b)
  {
    var x, y := GroupKey(a), GroupKey(b);
    var n := |IdentityExtra(a).value|;
    assert n == |IdentityExtra(b).value|;
    assert a.workspaceID == x[..36] && b.workspaceID == y[..36];
    assert IdentityExtra(a).value == x[37..37 + n] && IdentityExtra(b).value == y[37..37 + n];
    assert a.key == x[38 + n..] && b.key == y[38 + n..];
  }

  ghost predicate Keyed(rows: Table, ids: seq<Uuid>) {
    forall id | id in ids :: id in rows && IdentityExtra(rows[id]).Some?
  }

  /** The rows with one group key, in order. */
  ghost function Members(rows: Table, ids: seq<Uuid>, key: string): (members: seq<Uuid>)
    requires Keyed(rows, ids)
    ensures forall id :: id in members <==> id in ids && GroupKey(rows[id]) == key
  {
    if ids == [] then []
    else
      var front, last := ids[..|ids| - 1], ids[|ids| - 1];
      assert Keyed(rows, front) && last in ids;
      Members(rows, front, key) + if GroupKey(rows[last]) == key then [last] else []
  }

  lemma NoMembers(rows: Table)
    ensures Keyed(rows, []) && Filled(rows, [], map[])
  {}

  lemma MembersStep(rows: Table, ids: seq<Uuid>, i: nat, key: string)
    requires Keyed(rows, ids) && i < |ids|
    ensures Keyed(rows, ids[..i]) && Keyed(rows, ids[..i + 1])
    ensures Members(rows, ids[..i + 1], key)
         == Members(rows, ids[..i], key) + if GroupKey(rows[ids[i]]) == key then [ids[i]] else []
  {
    assert ids[..i + 1][..i] == ids[..i];
  }

  lemma {:induction false} MembersAreOrdered(rows: Table, ids: seq<Uuid>, scope: Scope, key: string)
    requires Keyed(rows, ids) && NoRepeats(ids) && NewestFirst(rows, ids)
    requires forall id | id in ids :: rows[id].scope == scope
    ensures var g := Members(rows, ids, key);
            NoRepeats(g) && forall i, j | 0 <= i < j < |g| :: Newer(rows, g[i], g[j])
  {
    if ids != [] {
      var front, last := ids[..|ids| - 1], ids[|ids| - 1];
      assert Keyed(rows, front);
      forall i, j | 0 <= i < j < |front| && SameIdentity(rows[front[i]], rows[front[j]]) ensures Newer(rows, front[i], front[j]) {
        assert front[i] == ids[i] && front[j] == ids[j];
      }
      MembersAreOrdered(rows, front, scope, key);
      var g := Members(rows, front, key);
      if GroupKey(rows[last]) == key {
        forall i | 0 <= i < |g| ensures g[i] != last && Newer(rows, g[i], last) {
          assert g[i] in front;
          var k :| 0 <= k < |front| && front[k] == g[i];
          assert ids[k] == g[i];
          GroupKeyIff(rows[g[i]], rows[last]);
        }
      }
    }
  }

  method LoadDuplicateGroupsForScope(rows: Table, ghost filter: string, scope: Scope, answer: seq<Uuid>)
    returns (groups: seq<seq<Uuid>>)
    requires IsAnswer(rows, filter, scope, answer)
    ensures AreGroups(rows, filter, {scope}, groups)
  {
    hide GroupKey, Members, Considered, NewestFirst, Contested;
    AnswerIsKeyed(rows, filter, scope, answer);
    var byKey, order := FillByKey(rows, answer);
    groups := [];
    ghost var keys: seq<string> := [];
    for i := 0 to |order|
      invariant |keys| == |groups| && NoRepeats(keys)
      invariant forall k | k in keys :: k in order[..i] && k in byKey
      invariant forall j | 0 <= j < |groups| :: groups[j] == byKey[keys[j]] && |groups[j]| > 1
      invariant forall j | 0 <= j < i && |byKey[order[j]]| > 1 :: order[j] in keys
    {
      assert order[i] in order && order[i] !in order[..i];
      assert order[..i + 1] == order[..i] + [order[i]];
      if |byKey[order[i]]| > 1 {
        groups := groups + [byKey[order[i]]];
        keys := keys + [order[i]];
      }
    }
    assert forall k | k in byKey && |byKey[k]| > 1 :: k in keys;
    assert forall j | 0 <= j < |groups| :: keys[j] in keys && groups[j] == Members(rows, answer, keys[j]);
    GroupsAreComplete(rows, filter, scope, answer, keys, groups);
  }

  lemma AnswerIsKeyed(rows: Table, filter: string, scope: Scope, answer: seq<Uuid>)
    requires IsAnswer(rows, filter, scope, answer)
    ensures Keyed(rows, answer)
  {}

  /** The map holds the rows of each key, in order, for the keys that occur. */
  ghost predicate Filled(rows: Table, ids: seq<Uuid>, byKey: map<string, seq<Uuid>>)
    requires Keyed(rows, ids)
  {
    && (forall k :: k in byKey <==> Members(rows, ids, k) != [])
    && (forall k | k in byKey :: byKey[k] == Members(rows, ids, k))
  }

  /** The loop over the result rows. */
  method FillByKey(rows: Table, answer: seq<Uuid>) returns (byKey: map<string, seq<Uuid>>, order: seq<string>)
    requires Keyed(rows, answer)
    ensures NoRepeats(order) && forall k :: k in order <==> k in byKey
    ensures Filled(rows, answer, byKey)
  {
    hide GroupKey, Filled, Keyed;
    byKey, order := map[], [];
    NoMembers(rows);
    for i := 0 to |answer|
      invariant NoRepeats(order) && forall k :: k in order <==> k in byKey
      invariant Keyed(rows, answer[..i]) && Filled(rows, answer[..i], byKey)
    {
      var id := answer[i];
      assert id in rows && IdentityExtra(rows[id]).Some? by { KeyedAt(rows, answer, i); }
      var gk := GroupKey(rows[id]);
      FilledStep(rows, answer, i, byKey);
      ghost var before := byKey;
      if gk !in byKey {
        byKey := byKey[gk := []];
        order := order + [gk];
      }
      byKey := byKey[gk := byKey[gk] + [id]];
      assert byKey == before[gk := (if gk in before then before[gk] else []) + [id]];
    }
    assert answer[..|answer|] == answer;
  }

  lemma KeyedAt(rows: Table, ids: seq<Uuid>, i: nat)
    requires Keyed(rows, ids) && i < |ids|
    ensures ids[i] in rows && IdentityExtra(rows[ids[i]]).Some?
  {}

  lemma FilledStep(rows: Table, ids: seq<Uuid>, i: nat, byKey: map<string, seq<Uuid>>)
    requires Keyed(rows, ids) && i < |ids| && Keyed(rows, ids[..i]) && Filled(rows, ids[..i], byKey)
    requires ids[i] in rows && IdentityExtra(rows[ids[i]]).Some?
    ensures var gk := GroupKey(rows[ids[i]]);
            && Keyed(rows, ids[..i + 1])
            && Filled(rows, ids[..i + 1], byKey[gk := (if gk in byKey then byKey[gk] else []) + [ids[i]]])
  {
    hide GroupKey, Members;
    var gk := GroupKey(rows[ids[i]]);
    MembersStep(rows, ids, i, gk);
    forall k ensures Members(rows, ids[..i + 1], k) == Members(rows, ids[..i], k) + if gk == k then [ids[i]] else [] {
      MembersStep(rows, ids, i, k);
    }
  }

  lemma GroupsAreComplete(rows: Table, filter: string, scope: Scope, answer: seq<Uuid>, keys: seq<string>, groups: seq<seq<Uuid>>)
    requires IsAnswer(rows, filter, scope, answer) && Keyed(rows, answer)
    requires |keys| == |groups| && NoRepeats(keys)
    requires forall j | 0 <= j < |groups| :: |groups[j]| > 1 && groups[j] == Members(rows, answer, keys[j])
    requires forall k | |Members(rows, answer, k)| > 1 :: k in keys
    ensures AreGroups(rows, filter, {scope}, groups)
  {
    hide Members, GroupKey, Considered, NewestFirst, SameIdentity;
    forall j | 0 <= j < |groups| ensures IsGroup(rows, filter, groups[j]) && rows[groups[j][0]].scope == scope {
      MembersAreGroup(rows, filter, scope, answer, keys[j]);
    }
    forall i, j | 0 <= i < j < |groups| ensures Apart(rows, filter, groups[i], groups[j]) {
      assert groups[i][0] in groups[i] && groups[j][0] in groups[j];
      GroupKeyIff(rows[groups[i][0]], rows[groups[j][0]]);
    }
    forall id | Considered(rows, filter, id) && InScopes(rows, {scope}, id) && Contested(rows, filter, id)
      ensures exists i :: 0 <= i < |groups| && id in groups[i]
    {
      ContestedHasMembers(rows, filter, scope, answer, id);
      var i :| 0 <= i < |keys| && keys[i] == GroupKey(rows[id]);
    }
  }

  lemma MembersAreGroup(rows: Table, filter: string, scope: Scope, answer: seq<Uuid>, key: string)
    requires IsAnswer(rows, filter, scope, answer) && Keyed(rows, answer) && |Members(rows, answer, key)| > 1
    ensures var g := Members(rows, answer, key);
            IsGroup(rows, filter, g) && rows[g[0]].scope == scope
  {
    hide Members, GroupKey, NewestFirst, SameIdentity, Considered;
    var g := Members(rows, answer, key);
    MembersAreOrdered(rows, answer, scope, key);
    assert g[0] in g;
    forall id ensures id in g <==> Rivals(rows, filter, g[0], id) {
      if id in answer { GroupKeyIff(rows[g[0]], rows[id]); }
      if Rivals(rows, filter, g[0], id) { RivalsShareScope(rows, filter, g[0], id); }
    }
    forall i, j | 0 <= i < j < |g| ensures g[i] in rows && g[j] in rows && Newer(rows, g[i], g[j]) {
      assert g[i] in g && g[j] in g;
    }
  }

  lemma RivalsShareScope(rows: Table, filter: string, a: Uuid, b: Uuid)
    requires Rivals(rows, filter, a, b)
    ensures Considered(rows, filter, a) && Considered(rows, filter, b) && a in rows && b in rows && rows[a].scope == rows[b].scope
  {}

  lemma ContestedHasMembers(rows: Table, filter: string, scope: Scope, answer: seq<Uuid>, id: Uuid)
    requires IsAnswer(rows, filter, scope, answer) && Keyed(rows, answer)
    requires Considered(rows, filter, id) && rows[id].scope == scope && Contested(rows, filter, id)
    ensures id in Members(rows, answer, GroupKey(rows[id])) && |Members(rows, answer, GroupKey(rows[id]))| > 1
  {
    hide Members, GroupKey, NewestFirst, SameIdentity, Considered;
    var other :| other in rows && other != id && Rivals(rows, filter, id, other);
    RivalsShareScope(rows, filter, id, other);
    assert other in answer;
    GroupKeyIff(rows[id], rows[other]);
    var g := Members(rows, answer, GroupKey(rows[id]));
    var i :| 0 <= i < |g| && g[i] == id;
    var j :| 0 <= j < |g| && g[j] == other;
  }

  /** The three scopes in turn. */
  method LoadDuplicateGroups(rows: Table, ghost filter: string, ws: seq<Uuid>, pr: seq<Uuid>, ag: seq<Uuid>)
    returns (groups: seq<seq<Uuid>>)
    requires IsAnswer(rows, filter, Workspace, ws) && IsAnswer(rows, filter, Project, pr) && IsAnswer(rows, filter, Agent, ag)
    ensures AreGroups(rows, filter, {Workspace, Project, Agent}, groups)
  {
    hide IsAnswer, AreGroups;
    groups := LoadDuplicateGroupsForScope(rows, filter, Workspace, ws);
    var more := LoadDuplicateGroupsForScope(rows, filter, Project, pr);
    GroupsJoin(rows, filter, {Workspace}, groups, {Project}, more);
    groups := groups + more;
    more := LoadDuplicateGroupsForScope(rows, filter, Agent, ag);
    GroupsJoin(rows, filter, {Workspace} + {Project}, groups, {Agent}, more);
    groups := groups + more;
    assert {Workspace} + {Project} + {Agent} == {Workspace, Project, Agent};
  }

  lemma InScopesJoin(rows: Table, filter: string, s: set<Scope>, t: set<Scope>)
    ensures forall g :: Grouped(rows, filter, s + t, g) <==> Grouped(rows, filter, s, g) || Grouped(rows, filter, t, g)
    ensures forall id :: InScopes(rows, s + t, id) <==> InScopes(rows, s, id) || InScopes(rows, t, id)
  {}

  lemma GroupsJoin(rows: Table, filter: string, s: set<Scope>, a: seq<seq<Uuid>>, t: set<Scope>, b: seq<seq<Uuid>>)
    requires AreGroups(rows, filter, s, a) && AreGroups(rows, filter, t, b) && s !! t
    ensures AreGroups(rows, filter, s + t, a + b)
  {
    hide Grouped, Apart, InScopes, Considered, Contested;
    InScopesJoin(rows, filter, s, t);
    JoinedApart(rows, filter, s, a, t, b);
    JoinedCover(rows, filter, s, a, t, b);
  }

  lemma JoinedApart(rows: Table, filter: string, s: set<Scope>, a: seq<seq<Uuid>>, t: set<Scope>, b: seq<seq<Uuid>>)
    requires AreGroups(rows, filter, s, a) && AreGroups(rows, filter, t, b) && s !! t
    ensures forall i, j | 0 <= i < j < |a + b| :: Apart(rows, filter, (a + b)[i], (a + b)[j])
  {}

  lemma JoinedCover(rows: Table, filter: string, s: set<Scope>, a: seq<seq<Uuid>>, t: set<Scope>, b: seq<seq<Uuid>>)
    requires AreGroups(rows, filter, s, a) && AreGroups(rows, filter, t, b)
    ensures forall id | Considered(rows, filter, id) && InScopes(rows, s + t, id) && Contested(rows, filter, id) ::
              exists i :: 0 <= i < |a + b| && id in (a + b)[i]
  {
    hide Grouped, Apart, Considered, Contested;
    forall id | Considered(rows, filter, id) && InScopes(rows, s + t, id) && Contested(rows, filter, id)
      ensures exists i :: 0 <= i < |a + b| && id in (a + b)[i]
    {
      if InScopes(rows, s, id) {
        var i :| 0 <= i < |a| && id in a[i];
        assert (a + b)[i] == a[i];
      } else {
        var i :| 0 <= i < |b| && id in b[i];
        assert (a + b)[|a| + i] == b[i];
      }
    }
  }
}
