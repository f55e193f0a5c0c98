/** Collapsing the memories table: what one run makes of it, and the laws of that. */
module MemoryCollapse {
  import opened Options
  import opened Ordering

  /** A UUID column's text. */
  type Uuid = s: string | |s| == 36 witness "00000000-0000-0000-0000-000000000000"

  datatype Scope = Workspace | Project | Agent

  datatype Memory = Memory(
    scope: Scope,
    workspaceID: Uuid,
    projectID: Option<Uuid>,
    agentID: Option<Uuid>,
    key: string,
    content: string,
    tags: seq<string>,
    status: string,
    archived: bool,
    supersededBy: Option<Uuid>,
    updatedAt: int)

  type Table = map<Uuid, Memory>

  /** The condition every read path shares. */
  predicate Current(m: Memory) {
    m.status != "superseded" && !m.archived
  }

  /** The column that completes a scope's identity, if it is set. */
  function IdentityExtra(m: Memory): Option<string> {
    match m.scope
    case Workspace => Some("")
    case Project => if m.projectID.Some? then Some(m.projectID.value) else None
    case Agent => if m.agentID.Some? then Some(m.agentID.value) else None
  }

  predicate SameIdentity(a: Memory, b: Memory) {
    a.scope == b.scope && a.workspaceID == b.workspaceID && a.key == b.key && IdentityExtra(a) == IdentityExtra(b)
  }

  /** A row the run looks at: current, with a whole identity, in the chosen workspace (empty: all). */
  predicate Considered(rows: Table, filter: string, id: Uuid) {
    && id in rows && Current(rows[id]) && IdentityExtra(rows[id]).Some?
    && (filter == "" || rows[id].workspaceID == filter)
  }

  predicate Rivals(rows: Table, filter: string, a: Uuid, b: Uuid) {
    Considered(rows, filter, a) && Considered(rows, filter, b) && SameIdentity(rows[a], rows[b])
  }

  /** updated_at DESC, id DESC. */
  predicate Newer(rows: Table, a: Uuid, b: Uuid)
    requires a in rows && b in rows
  {
    rows[a].updatedAt > rows[b].updatedAt || (rows[a].updatedAt == rows[b].updatedAt && Less(b, a))
  }

  predicate Wins(rows: Table, filter: string, id: Uuid) {
    && Considered(rows, filter, id)
    && forall other | other in rows && Rivals(rows, filter, id, other) :: other == id || Newer(rows, id, other)
  }

  predicate Contested(rows: Table, filter: string, id: Uuid) {
    exists other | other in rows :: other != id && Rivals(rows, filter, id, other)
  }

  // ----- every contest has one winner -----

  lemma NewerIsTotal(rows: Table, a: Uuid, b: Uuid)
    requires a in rows && b in rows
    ensures a == b || Newer(rows, a, b) || Newer(rows, b, a)
  {
    LessIsTotal(a, b);
  }

  lemma NewerIsTransitive(rows: Table, a: Uuid, b: Uuid, c: Uuid)
    requires a in rows && b in rows && c in rows && Newer(rows, a, b) && Newer(rows, b, c)
    ensures Newer(rows, a, c)
  {
    if rows[a].updatedAt == rows[c].updatedAt { LessIsTransitive(c, b, a); }
  }

  lemma NewerIsIrreflexive(rows: Table, a: Uuid)
    requires a in rows
    ensures !Newer(rows, a, a)
  {
    LessIsIrreflexive(a);
  }

  lemma {:induction false} NewestOf(rows: Table, ids: set<Uuid>) returns (top: Uuid)
    requires ids != {} && ids <= rows.Keys
    ensures top in ids && forall id | id in ids :: id == top || Newer(rows, top, id)
    decreases |ids|
  {
    var some :| some in ids;
    var rest := ids - {some};
    if rest == {} {
      assert ids <= {some} + rest;
      return some;
    }
    var best := NewestOf(rows, rest);
    NewerIsTotal(rows, some, best);
    top := if Newer(rows, some, best) then some else best;
    forall id | id in ids ensures id == top || Newer(rows, top, id) {
      if id in rest && id != best && top == some { NewerIsTransitive(rows, some, best, id); }
    }
  }

  lemma WinnerExists(rows: Table, filter: string, id: Uuid)
    requires Considered(rows, filter, id)
    ensures exists top: Uuid :: top in rows && Rivals(rows, filter, top, id) && Wins(rows, filter, top)
  {
    var group := set other | other in rows && Rivals(rows, filter, id, other);
    assert id in group;
    var top := NewestOf(rows, group);
    assert Rivals(rows, filter, top, id) && Wins(rows, filter, top);
  }

  lemma WinnerIsUnique(rows: Table, filter: string, a: Uuid, b: Uuid)
    requires Rivals(rows, filter, a, b) && Wins(rows, filter, a) && Wins(rows, filter, b)
    ensures a == b
  {
    if a != b {
      assert Rivals(rows, filter, b, a);
      assert Newer(rows, a, b) && Newer(rows, b, a);
      NewerIsTransitive(rows, a, b, a);
      NewerIsIrreflexive(rows, a);
    }
  }

  ghost function Winner(rows: Table, filter: string, id: Uuid): (top: Uuid)
    requires Considered(rows, filter, id)
    ensures top in rows && Rivals(rows, filter, top, id) && Wins(rows, filter, top)
  {
    WinnerExists(rows, filter, id);
    var top: Uuid :| top in rows && Rivals(rows, filter, top, id) && Wins(rows, filter, top);
    top
  }

  // ----- the tags of a group -----

  ghost function GroupTags(rows: Table, filter: string, id: Uuid): set<string> {
    set other, t | other in rows && Rivals(rows, filter, id, other) && t in rows[other].tags :: t
  }

  /** The union replaces a winner's tags unless they are the union already, in some order. */
  function Merged(tags: seq<string>, union: seq<string>): seq<string> {
    if multiset(tags) == multiset(union) then tags else union
  }

  // ----- one run -----

  ghost function RowAfter(rows: Table, filter: string, id: Uuid): Memory
    requires id in rows
  {
    var m := rows[id];
    if !Considered(rows, filter, id) then m
    else if !Wins(rows, filter, id) then
      m.(status := "superseded", supersededBy := Some(Winner(rows, filter, id)))
    else
      m.(tags := if Contested(rows, filter, id) then Merged(m.tags, SortedSet(GroupTags(rows, filter, id))) else m.tags,
         projectID := if m.scope == Workspace then None else m.projectID)
  }

  ghost function After(rows: Table, filter: string): Table {
    map id | id in rows :: RowAfter(rows, filter, id)
  }

  // ----- its laws -----

  /** No row is lost or added, and no row's key, content, owner or time changes. */
  lemma RowsAreConserved(rows: Table, filter: string)
    ensures |After(rows, filter)| == |rows| && After(rows, filter).Keys == rows.Keys
    ensures forall id | id in rows ::
              var m, n := rows[id], After(rows, filter)[id];
              && n.scope == m.scope && n.workspaceID == m.workspaceID && n.agentID == m.agentID
              && n.key == m.key && n.content == m.content && n.archived == m.archived && n.updatedAt == m.updatedAt
              && (n.projectID == m.projectID || (m.scope == Workspace && n.projectID == None))
              && (n.status == m.status || n.status == "superseded")
  {
    hide Considered, Wins, Contested, SortedSet, Winner, GroupTags;
    var after := After(rows, filter);
    assert after.Keys == rows.Keys;
    assert |after| == |after.Keys| && |rows| == |rows.Keys|;
  }

  /** Exactly the winners are still considered, each with its identity. */
  lemma WinnersRemain(rows: Table, filter: string, id: Uuid)
    requires id in rows
    ensures Considered(After(rows, filter), filter, id) <==> Wins(rows, filter, id)
    ensures SameIdentity(After(rows, filter)[id], rows[id])
    ensures Wins(rows, filter, id) ==> Current(After(rows, filter)[id])
  {}

  /** No two current rows of the chosen workspaces share an identity. */
  lemma NoDuplicatesLeft(rows: Table, filter: string, a: Uuid, b: Uuid)
    requires Rivals(After(rows, filter), filter, a, b)
    ensures a == b
  {
    hide RowAfter, Considered, Wins, Current;
    var after := After(rows, filter);
    assert a in after && b in after by { RivalsAreRows(after, filter, a, b); }
    WinnersRemain(rows, filter, a);
    WinnersRemain(rows, filter, b);
    WinnersAreRivals(rows, filter, a, b);
    WinnerIsUnique(rows, filter, a, b);
  }

  lemma RivalsAreRows(rows: Table, filter: string, a: Uuid, b: Uuid)
    requires Rivals(rows, filter, a, b)
    ensures a in rows && b in rows && Considered(rows, filter, a) && Considered(rows, filter, b)
  {}

  lemma WinnersAreRivals(rows: Table, filter: string, a: Uuid, b: Uuid)
    requires Wins(rows, filter, a) && Wins(rows, filter, b) && SameIdentity(rows[a], rows[b])
    ensures Rivals(rows, filter, a, b)
  {}

  /** No current workspace row of the chosen workspaces keeps a project. */
  lemma NoStrayProjectLeft(rows: Table, filter: string, id: Uuid)
    requires Considered(After(rows, filter), filter, id) && rows[id].scope == Workspace
    ensures After(rows, filter)[id].projectID == None
  {}

  /** Of every contest the newest row stays current and carries the tags of all, no more; the others point to it. */
  lemma SurvivorCarriesTheGroup(rows: Table, filter: string, id: Uuid)
    requires Considered(rows, filter, id)
    ensures var after, top := After(rows, filter), Winner(rows, filter, id);
            && Current(after[top]) && !after[top].archived && after[top].status != "superseded"
            && (forall t :: t in after[top].tags <==> t in GroupTags(rows, filter, id))
            && (id != top ==> after[id].status == "superseded" && after[id].supersededBy == Some(top) && Newer(rows, top, id))
  {
    var after, top := After(rows, filter), Winner(rows, filter, id);
    WinnersRemain(rows, filter, top);
    GroupTagsShared(rows, filter, id, top);
    TagsAfter(rows, filter, top);
    hide Contested, SortedSet, GroupTags, Merged;
    if id != top && Wins(rows, filter, id) { WinnerIsUnique(rows, filter, top, id); }
  }

  lemma GroupTagsShared(rows: Table, filter: string, a: Uuid, b: Uuid)
    requires Rivals(rows, filter, a, b) || Rivals(rows, filter, b, a)
    ensures GroupTags(rows, filter, a) == GroupTags(rows, filter, b)
  {}

  lemma TagsAfter(rows: Table, filter: string, top: Uuid)
    requires Wins(rows, filter, top)
    ensures forall t :: t in After(rows, filter)[top].tags <==> t in GroupTags(rows, filter, top)
  {
    hide Winner;
    var union, tags := SortedSet(GroupTags(rows, filter, top)), rows[top].tags;
    hide SortedSet;
    if Contested(rows, filter, top) {
      if multiset(tags) == multiset(union) {
        forall t ensures t in tags <==> t in union { assert t in multiset(tags) <==> t in multiset(union); }
      }
    } else {
      hide GroupTags;
      LoneTags(rows, filter, top);
    }
  }

  lemma LoneTags(rows: Table, filter: string, top: Uuid)
    requires Considered(rows, filter, top) && !Contested(rows, filter, top)
    ensures GroupTags(rows, filter, top) == set t | t in rows[top].tags
  {}

  /** Following superseded_by from a row that is not current, at most n times, reaches a current row. */
  ghost predicate EndsAtCurrent(rows: Table, id: Uuid, n: nat)
    decreases n
  {
    && id in rows
    && (Current(rows[id]) ||
        (n > 0 && rows[id].supersededBy.Some? && EndsAtCurrent(rows, rows[id].supersededBy.value, n - 1)))
  }

  /** Every chain that ended at a current row still does, at most one step later. */
  lemma {:induction false} ChainsStillEnd(rows: Table, filter: string, id: Uuid, n: nat)
    requires EndsAtCurrent(rows, id, n)
    ensures EndsAtCurrent(After(rows, filter), id, n + 1)
    decreases n
  {
    hide Wins, Contested, SortedSet, GroupTags;
    var after := After(rows, filter);
    if Current(rows[id]) {
      if Considered(rows, filter, id) && !Wins(rows, filter, id) {
        var top := Winner(rows, filter, id);
        WinnersRemain(rows, filter, top);
        assert EndsAtCurrent(after, top, n);
      }
    } else {
      ChainsStillEnd(rows, filter, rows[id].supersededBy.value, n - 1);
    }
  }

  /** A second run changes nothing. */
  lemma SecondRunChangesNothing(rows: Table, filter: string)
    ensures After(After(rows, filter), filter) == After(rows, filter)
  {
    var after := After(rows, filter);
    forall id | id in after ensures RowAfter(after, filter, id) == after[id] {
      hide *;
      SecondRunKeeps(rows, filter, id);
    }
  }

  lemma SecondRunKeeps(rows: Table, filter: string, id: Uuid)
    requires id in rows
    ensures id in After(rows, filter) && RowAfter(After(rows, filter), filter, id) == After(rows, filter)[id]
  {
    var after := After(rows, filter);
    assert id in after;
    if Considered(after, filter, id) {
      assert after[id].scope == Workspace ==> after[id].projectID == None by {
        if rows[id].scope == Workspace { NoStrayProjectLeft(rows, filter, id); }
        RowsAreConserved(rows, filter);
      }
      hide After, SortedSet, Winner, GroupTags, Merged, Considered;
      forall other | other in after && Rivals(after, filter, id, other) ensures other == id {
        NoDuplicatesLeft(rows, filter, id, other);
      }
    }
  }
}
