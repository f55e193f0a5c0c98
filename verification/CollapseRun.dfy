/** The collapse-memories run: supersede the losers, merge tags, clear stray projects, check the counts. */
module CollapseRun {
  import opened Options
  import opened Ordering
  import opened MemoryCollapse
  import opened CollapseGroups

  class MemoryTable {
    var rows: Table

    constructor (initial: Table)
      ensures rows == initial
    {
      rows := initial;
    }

    /** UPDATE ... SET status, superseded_by WHERE id = ANY(ids) AND current. */
    method Supersede(winner: Uuid, ids: seq<Uuid>)
      modifies this
      ensures rows.Keys == old(rows).Keys
      ensures forall id | id in old(rows) ::
                rows[id] == if id in ids && Current(old(rows)[id]) then Superseded(old(rows)[id], winner) else old(rows)[id]
    {
      rows := map id | id in rows :: if id in ids && Current(rows[id]) then Superseded(rows[id], winner) else rows[id];
    }

    /** UPDATE ... SET tags WHERE id = id. */
    method SetTags(id: Uuid, tags: seq<string>)
      modifies this
      ensures rows == if id in old(rows) then old(rows)[id := old(rows)[id].(tags := tags)] else old(rows)
    {
      if id in rows {
        rows := rows[id := rows[id].(tags := tags)];
      }
    }

    /** UPDATE ... SET project_id = NULL WHERE id = ANY(ids) AND scope = 'workspace' AND current. */
    method ClearProjects(ids: seq<Uuid>)
      modifies this
      ensures rows.Keys == old(rows).Keys
      ensures forall id | id in old(rows) ::
                rows[id] == if id in ids && old(rows)[id].scope == Workspace && Current(old(rows)[id])
                            then old(rows)[id].(projectID := None) else old(rows)[id]
    {
      rows := map id | id in rows ::
                if id in ids && rows[id].scope == Workspace && Current(rows[id]) then rows[id].(projectID := None) else rows[id];
    }
  }

  function Superseded(m: Memory, winner: Uuid): Memory {
    m.(status := "superseded", supersededBy := Some(winner))
  }

  predicate IsStray(rows: Table, filter: string, id: Uuid) {
    id in rows && rows[id].scope == Workspace && Current(rows[id]) && rows[id].projectID.Some?
    && (filter == "" || rows[id].workspaceID == filter)
  }

  // ----- tags -----

  ghost function UnionTags(rows: Table, g: seq<Uuid>): set<string>
    requires forall id | id in g :: id in rows
  {
    set id, t | id in g && t in rows[id].tags :: t
  }

  method MergeTags(rows: Table, g: seq<Uuid>) returns (merged: seq<string>)
    requires forall id | id in g :: id in rows
    ensures merged == SortedSet(UnionTags(rows, g))
  {
    hide SortedSet, StrictlySorted;
    var tags: set<string> := {};
    for i := 0 to |g|
      invariant forall t :: t in tags <==> exists j :: 0 <= j < i && t in rows[g[j]].tags
    {
      assert g[i] in g;
      tags := tags + set t | t in rows[g[i]].tags;
    }
    assert forall t | t in tags :: t in UnionTags(rows, g);
    assert forall t | t in UnionTags(rows, g) :: t in tags;
    assert tags == UnionTags(rows, g);
    merged := SortedMembers(tags);
    StrictlySortedIsUnique(merged, SortedSet(tags));
  }

  method TagsEqual(a: seq<string>, b: seq<string>) returns (equal: bool)
    ensures equal <==> multiset(a) == multiset(b)
  {
    hide Sort, Sorted;
    SameWhenSorted(a, b);
    if |a| != |b| {
      return false;
    }
    var sa, sb := Sort(a), Sort(b);
    for i := 0 to |sa|
      invariant sa[..i] == sb[..i]
    {
      if sa[i] != sb[i] {
        return false;
      }
    }
    assert sa == sa[..|sa|] && sb == sb[..|sb|];
    return true;
  }

  lemma SameWhenSorted(a: seq<string>, b: seq<string>)
    ensures Sort(a) == Sort(b) <==> multiset(a) == multiset(b)
    ensures |Sort(a)| == |a| && |Sort(b)| == |b|
  {
    hide Sort;
    SortKeepsMembers(a);
    SortKeepsMembers(b);
    if multiset(a) == multiset(b) { SortedIsUnique(Sort(a), Sort(b)); }
  }

  // ----- applying -----

  /** A group's row after its two statements. */
  ghost function Collapsed(rows: Table, g: seq<Uuid>, k: nat): Memory
    requires k < |g| && forall id | id in g :: id in rows
  {
    if k == 0 then rows[g[0]].(tags := Merged(rows[g[0]].tags, SortedSet(UnionTags(rows, g))))
    else Superseded(rows[g[k]], g[0])
  }

  /** The rows of one group, on a table that holds them as loaded. */
  method ApplyGroup(table: MemoryTable, rows: Table, ghost filter: string, g: seq<Uuid>)
    requires IsGroup(rows, filter, g) && forall id | id in g :: id in rows && id in table.rows && table.rows[id] == rows[id]
    modifies table
    ensures table.rows.Keys == old(table.rows).Keys
    ensures forall k: nat | k < |g| :: table.rows[g[k]] == Collapsed(rows, g, k)
    ensures forall id | id in old(table.rows) && id !in g :: table.rows[id] == old(table.rows)[id]
  {
    hide SortedSet, UnionTags, Newer;
    var winner := g[0];
    var merged := MergeTags(rows, g);
    GroupIsCurrent(rows, filter, g);
    table.Supersede(winner, g[1..]);
    assert winner !in g[1..] && forall k | 0 < k < |g| :: g[k] in g[1..];
    var equal := TagsEqual(rows[winner].tags, merged);
    if !equal {
      table.SetTags(winner, merged);
    }
  }

  lemma GroupIsCurrent(rows: Table, filter: string, g: seq<Uuid>)
    requires IsGroup(rows, filter, g)
    ensures forall id | id in g :: id in rows && Current(rows[id])
  {}

  /** What the rows are once some groups are done. */
  ghost predicate Applied(rows: Table, groups: seq<seq<Uuid>>, now: Table) {
    && now.Keys == rows.Keys
    && (forall j, k: nat | 0 <= j < |groups| && k < |groups[j]| && (forall id | id in groups[j] :: id in rows) ::
          groups[j][k] in now && now[groups[j][k]] == Collapsed(rows, groups[j], k))
    && (forall id | id in rows && (forall j | 0 <= j < |groups| :: id !in groups[j]) :: now[id] == rows[id])
  }

  method ApplyCollapse(table: MemoryTable, ghost filter: string, groups: seq<seq<Uuid>>)
    requires AreGroups(table.rows, filter, {Workspace, Project, Agent}, groups)
    modifies table
    ensures Applied(old(table.rows), groups, table.rows)
  {
    hide Collapsed, IsGroup, Applied, Contested, Considered;
    var rows := table.rows;
    AppliedNone(rows);
    for i := 0 to |groups|
      invariant Applied(rows, groups[..i], table.rows)
    {
      GroupUntouched(rows, filter, groups, i, table.rows);
      ghost var before := table.rows;
      ApplyGroup(table, rows, filter, groups[i]);
      AppliedStep(rows, filter, groups, i, before, table.rows);
    }
    assert groups[..|groups|] == groups;
  }

  lemma AppliedNone(rows: Table)
    ensures Applied(rows, [], rows)
  {}

  lemma GroupUntouched(rows: Table, filter: string, groups: seq<seq<Uuid>>, i: nat, now: Table)
    requires AreGroups(rows, filter, {Workspace, Project, Agent}, groups) && i < |groups| && Applied(rows, groups[..i], now)
    ensures IsGroup(rows, filter, groups[i])
    ensures forall id | id in groups[i] :: id in rows && id in now && now[id] == rows[id]
  {}

  lemma ApartIsDisjoint(rows: Table, filter: string, g: seq<Uuid>, h: seq<Uuid>, id: Uuid)
    requires IsGroup(rows, filter, g) && IsGroup(rows, filter, h) && Apart(rows, filter, g, h)
    ensures id !in g || id !in h
  {}

  lemma AppliedStep(rows: Table, filter: string, groups: seq<seq<Uuid>>, i: nat, before: Table, after: Table)
    requires AreGroups(rows, filter, {Workspace, Project, Agent}, groups) && i < |groups|
    requires Applied(rows, groups[..i], before) && after.Keys == before.Keys
    requires forall id | id in groups[i] :: id in rows
    requires forall k: nat | k < |groups[i]| :: groups[i][k] in after && after[groups[i][k]] == Collapsed(rows, groups[i], k)
    requires forall id | id in before && id !in groups[i] :: after[id] == before[id]
    ensures Applied(rows, groups[..i + 1], after)
  {
    hide Collapsed, Contested, Considered, Newer, IsGroup;
    var done := groups[..i + 1];
    forall j, k: nat | 0 <= j < |done| && k < |done[j]| && (forall id | id in done[j] :: id in rows)
      ensures done[j][k] in after && after[done[j][k]] == Collapsed(rows, done[j], k)
    {
      if j < i {
        assert groups[..i][j] == done[j] && done[j][k] in done[j];
        assert Grouped(rows, filter, {Workspace, Project, Agent}, groups[i]) && Grouped(rows, filter, {Workspace, Project, Agent}, groups[j]);
        assert Apart(rows, filter, groups[j], groups[i]);
        ApartIsDisjoint(rows, filter, groups[j], groups[i], done[j][k]);
        assert before[done[j][k]] == Collapsed(rows, groups[..i][j], k);
      }
    }
    forall id | id in rows && (forall j | 0 <= j < |done| :: id !in done[j]) ensures after[id] == rows[id] {
      assert id !in done[i];
      forall j | 0 <= j < |groups[..i]| ensures id !in groups[..i][j] { assert groups[..i][j] == done[j]; }
    }
  }

  // ----- from groups to contests -----

  /** What a row is between the two updates: its final form, except that its project is still there. */
  ghost function BeforeClearing(rows: Table, filter: string, id: Uuid): Memory
    requires id in rows
  {
    RowAfter(rows, filter, id).(projectID := rows[id].projectID)
  }

  lemma AppliedIsBeforeClearing(rows: Table, filter: string, groups: seq<seq<Uuid>>, now: Table, id: Uuid)
    requires AreGroups(rows, filter, {Workspace, Project, Agent}, groups) && Applied(rows, groups, now) && id in rows
    ensures id in now && now[id] == BeforeClearing(rows, filter, id)
    ensures (exists j, k | 0 <= j < |groups| && 0 < k < |groups[j]| :: groups[j][k] == id) <==>
              Considered(rows, filter, id) && !Wins(rows, filter, id)
  {
    hide Collapsed, Newer, Rivals, Considered, Wins, Winner, GroupTags, SortedSet, IsGroup, RowAfter;
    if j, k: nat :| 0 <= j < |groups| && k < |groups[j]| && groups[j][k] == id {
      assert Grouped(rows, filter, {Workspace, Project, Agent}, groups[j]);
      GroupMember(rows, filter, groups[j], k);
      forall i, l | 0 <= i < |groups| && 0 < l < |groups[i]| && groups[i][l] == id ensures !Wins(rows, filter, id) {
        assert Grouped(rows, filter, {Workspace, Project, Agent}, groups[i]);
        GroupMember(rows, filter, groups[i], l);
      }
    } else {
      if Considered(rows, filter, id) {
        ConsideredScope(rows, filter, id);
      }
      LoneRow(rows, filter, id);
      forall j | 0 <= j < |groups| ensures id !in groups[j] {}
      forall j, k | 0 <= j < |groups| && 0 < k < |groups[j]| ensures groups[j][k] != id { assert groups[j][k] in groups[j]; }
    }
  }

  lemma ConsideredScope(rows: Table, filter: string, id: Uuid)
    requires Considered(rows, filter, id)
    ensures InScopes(rows, {Workspace, Project, Agent}, id)
  {}

  /** A row outside every contest keeps everything but a stray project. */
  lemma LoneRow(rows: Table, filter: string, id: Uuid)
    requires id in rows && (Considered(rows, filter, id) ==> !Contested(rows, filter, id))
    ensures BeforeClearing(rows, filter, id) == rows[id]
    ensures Considered(rows, filter, id) ==> Wins(rows, filter, id)
  {}

  /** A group's first row is the winner of its contest, the others lose to it. */
  lemma GroupMember(rows: Table, filter: string, g: seq<Uuid>, k: nat)
    requires IsGroup(rows, filter, g) && k < |g|
    ensures forall id | id in g :: id in rows
    ensures Collapsed(rows, g, k) == BeforeClearing(rows, filter, g[k])
    ensures Considered(rows, filter, g[k]) && (Wins(rows, filter, g[k]) <==> k == 0)
  {
    hide Newer, SortedSet, UnionTags, GroupTags, Winner;
    assert g[k] in g && g[0] in g && g[1] in g;
    forall id | id in g ensures id in rows && Rivals(rows, filter, g[k], id) {}
    FirstWins(rows, filter, g);
    GroupTagsAreUnion(rows, filter, g);
    if k > 0 {
      if Wins(rows, filter, g[k]) { WinnerIsUnique(rows, filter, g[0], g[k]); }
      WinnerIsUnique(rows, filter, g[0], Winner(rows, filter, g[k]));
    } else {
      assert Contested(rows, filter, g[0]);
    }
  }

  lemma FirstWins(rows: Table, filter: string, g: seq<Uuid>)
    requires IsGroup(rows, filter, g)
    ensures Wins(rows, filter, g[0])
  {
    hide Newer;
    assert g[0] in g;
    forall other | other in rows && Rivals(rows, filter, g[0], other) ensures other == g[0] || Newer(rows, g[0], other) {
      var j :| 0 <= j < |g| && g[j] == other;
    }
  }

  lemma GroupTagsAreUnion(rows: Table, filter: string, g: seq<Uuid>)
    requires IsGroup(rows, filter, g) && forall id | id in g :: id in rows
    ensures UnionTags(rows, g) == GroupTags(rows, filter, g[0])
  {}

  // ----- the run -----

  /** GROUP BY workspace_id, identity || key HAVING count(*) > 1, in one scope. */
  function DuplicateKeys(rows: Table, scope: Scope): set<(Uuid, string)> {
    set a, b | a in rows && b in rows && a != b && Counted(rows[a], scope) && Counted(rows[b], scope)
               && CountKey(rows[a]) == CountKey(rows[b]) :: CountKey(rows[a])
  }

  predicate Counted(m: Memory, scope: Scope) {
    m.scope == scope && Current(m) && IdentityExtra(m).Some?
  }

  function CountKey(m: Memory): (Uuid, string)
    requires IdentityExtra(m).Some?
  {
    (m.workspaceID, IdentityExtra(m).value + m.key)
  }

  function CountActiveDuplicates(rows: Table): nat {
    |DuplicateKeys(rows, Workspace)| + |DuplicateKeys(rows, Project)| + |DuplicateKeys(rows, Agent)|
  }

  function CountActiveWorkspaceWithProjectID(rows: Table): nat {
    |set id | id in rows && rows[id].scope == Workspace && rows[id].projectID.Some? && Current(rows[id])|
  }

  /** The separator-free count key still tells identities apart. */
  lemma DuplicateCountIff(rows: Table)
    ensures CountActiveDuplicates(rows) == 0 <==> forall a, b | Rivals(rows, "", a, b) :: a == b
  {
    hide CountKey, SameIdentity;
    forall a, b | Rivals(rows, "", a, b) && a != b ensures CountKey(rows[a]) in DuplicateKeys(rows, rows[a].scope) {
      RivalsShareScope(rows, "", a, b);
      CountKeyIff(rows[a], rows[b]);
    }
    forall scope | DuplicateKeys(rows, scope) != {} ensures exists a, b :: Rivals(rows, "", a, b) && a != b {
      var key :| key in DuplicateKeys(rows, scope);
      var a, b :| a in rows && b in rows && a != b && Counted(rows[a], scope) && Counted(rows[b], scope)
                  && CountKey(rows[a]) == CountKey(rows[b]) && CountKey(rows[a]) == key;
      CountKeyIff(rows[a], rows[b]);
      assert Rivals(rows, "", a, b);
    }
  }

  lemma StrayCountIff(rows: Table)
    ensures CountActiveWorkspaceWithProjectID(rows) == 0 <==>
              forall id | id in rows && rows[id].scope == Workspace && Current(rows[id]) :: rows[id].projectID.None?
  {
    var stray := set id | id in rows && rows[id].scope == Workspace && rows[id].projectID.Some? && Current(rows[id]);
    if stray == {} {
      forall id | id in rows && rows[id].scope == Workspace && Current(rows[id]) ensures rows[id].projectID.None? {
        assert id !in stray;
      }
    } else {
      var id :| id in stray;
    }
  }

  lemma CountKeyIff(a: Memory, b: Memory)
    requires a.scope == b.scope && IdentityExtra(a).Some? && IdentityExtra(b).Some?
    ensures CountKey(a) == CountKey(b) <==> SameIdentity(a, b)
  {
    var x, y := CountKey(a).1, CountKey(b).1;
    var n := |IdentityExtra(a).value|;
    assert n == |IdentityExtra(b).value|;
    assert IdentityExtra(a).value == x[..n] && IdentityExtra(b).value == y[..n] && a.key == x[n..] && b.key == y[n..];
  }

  /** One run against any answers its queries may get. It never reports a failed check, and without dry-run the table
      ends as the specification says. */
  method Run(table: MemoryTable, filter: string, dryRun: bool, ws: seq<Uuid>, pr: seq<Uuid>, ag: seq<Uuid>, nulls: seq<Uuid>)
    returns (fatal: bool)
    requires IsAnswer(table.rows, filter, Workspace, ws)
    requires IsAnswer(table.rows, filter, Project, pr)
    requires IsAnswer(table.rows, filter, Agent, ag)
    requires forall id :: id in nulls <==> IsStray(table.rows, filter, id)
    modifies table
    ensures table.rows == if dryRun then old(table.rows) else After(old(table.rows), filter)
    ensures !fatal
  {
    hide IsAnswer, AreGroups, Applied, After, RowAfter, IsStray, Considered, Wins;
    var rows := table.rows;
    var totalBefore := |rows|;
    var groups := LoadDuplicateGroups(rows, filter, ws, pr, ag);
    var losers := Losers(groups);
    var surviving: seq<Uuid> := [];
    for i := 0 to |nulls|
      invariant forall id :: id in surviving <==> id in nulls[..i] && id !in losers
    {
      assert nulls[..i + 1] == nulls[..i] + [nulls[i]];
      if nulls[i] !in losers {
        surviving := surviving + [nulls[i]];
      }
    }
    assert nulls[..|nulls|] == nulls;
    if dryRun {
      return false;
    }
    ApplyCollapse(table, filter, groups);
    ghost var applied := table.rows;
    forall id | id in rows
      ensures id in applied && applied[id] == BeforeClearing(rows, filter, id)
      ensures id in surviving <==> IsStray(rows, filter, id) && !(Considered(rows, filter, id) && !Wins(rows, filter, id))
    {
      AppliedIsBeforeClearing(rows, filter, groups, applied, id);
    }
    assert applied.Keys == rows.Keys by { AppliedKeys(rows, groups, applied); }
    table.ClearProjects(surviving);
    ClearedIsAfter(rows, filter, applied, surviving, table.rows);
    RunIsClean(rows, filter);
    var totalAfter := |table.rows|;
    var dupLeft := CountActiveDuplicates(table.rows);
    var nullLeft := CountActiveWorkspaceWithProjectID(table.rows);
    fatal := totalBefore != totalAfter || (filter == "" && (dupLeft != 0 || nullLeft != 0));
  }

  lemma AppliedKeys(rows: Table, groups: seq<seq<Uuid>>, now: Table)
    requires Applied(rows, groups, now)
    ensures now.Keys == rows.Keys
  {}

  /** The loop that collects every group's rows but the first. */
  method Losers(groups: seq<seq<Uuid>>) returns (losers: set<Uuid>)
    ensures forall id :: id in losers <==> exists j, k | 0 <= j < |groups| && 0 < k < |groups[j]| :: groups[j][k] == id
  {
    losers := {};
    for i := 0 to |groups|
      invariant forall id :: id in losers <==> exists j, k | 0 <= j < i && 0 < k < |groups[j]| :: groups[j][k] == id
    {
      var g := groups[i];
      losers := losers + set k | 0 < k < |g| :: g[k];
    }
  }

  lemma ClearedIsAfter(rows: Table, filter: string, applied: Table, surviving: seq<Uuid>, now: Table)
    requires applied.Keys == rows.Keys && now.Keys == rows.Keys
    requires forall id | id in rows :: applied[id] == BeforeClearing(rows, filter, id)
    requires forall id | id in rows ::
      (id in surviving <==> IsStray(rows, filter, id) && !(Considered(rows, filter, id) && !Wins(rows, filter, id)))
    requires forall id | id in rows ::
      now[id] == if id in surviving && applied[id].scope == Workspace && Current(applied[id])
                 then applied[id].(projectID := None) else applied[id]
    ensures now == After(rows, filter)
  {
    forall id | id in rows ensures now[id] == RowAfter(rows, filter, id) {
      hide Wins, Contested, Winner, GroupTags, SortedSet;
    }
  }

  lemma RunIsClean(rows: Table, filter: string)
    ensures |After(rows, filter)| == |rows|
    ensures filter == "" ==>
              CountActiveDuplicates(After(rows, filter)) == 0 && CountActiveWorkspaceWithProjectID(After(rows, filter)) == 0
  {
    hide After, Rivals, CountActiveDuplicates, CountActiveWorkspaceWithProjectID;
    RowsAreConserved(rows, filter);
    if filter == "" {
      var after := After(rows, filter);
      forall a, b | Rivals(after, "", a, b) ensures a == b { NoDuplicatesLeft(rows, filter, a, b); }
      forall id | id in after && after[id].scope == Workspace && Current(after[id]) ensures after[id].projectID.None? {
        NoStrayProjectLeft(rows, filter, id);
      }
      DuplicateCountIff(after);
      StrayCountIff(after);
    }
  }
}
