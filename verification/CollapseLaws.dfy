/** What a collapse run makes of each row, told in the columns of the table. */
module CollapseLaws {
  import opened Options
  import opened Ordering
  import opened MemoryCollapse
  import opened CollapseRun

  /** A row of the chosen workspaces (empty: all) that readers see and that has a whole identity. */
  predicate Live(rows: Table, filter: string, id: Uuid) {
    && id in rows && !rows[id].archived && rows[id].status != "superseded"
    && (filter == "" || rows[id].workspaceID == filter)
    && match rows[id].scope
       case Workspace => true
       case Project => rows[id].projectID.Some?
       case Agent => rows[id].agentID.Some?
  }

  /** Two rows for one fact: scope, workspace and key agree, and so does the project or the agent of that scope. */
  predicate OneFact(a: Memory, b: Memory) {
    && (a.scope, a.workspaceID, a.key) == (b.scope, b.workspaceID, b.key)
    && (a.scope == Project ==> a.projectID == b.projectID)
    && (a.scope == Agent ==> a.agentID == b.agentID)
  }

  /** Live rows for one fact. */
  predicate Versions(rows: Table, filter: string, a: Uuid, b: Uuid) {
    Live(rows, filter, a) && Live(rows, filter, b) && OneFact(rows[a], rows[b])
  }

  /** The latest of the live rows for its fact, by time and then by id. */
  predicate Latest(rows: Table, filter: string, top: Uuid) {
    && Live(rows, filter, top)
    && forall id | id in rows && Versions(rows, filter, top, id) && id != top ::
         rows[id].updatedAt < rows[top].updatedAt || (rows[id].updatedAt == rows[top].updatedAt && Less(id, top))
  }

  lemma VersionsAreRivals(rows: Table, filter: string, a: Uuid, b: Uuid)
    ensures Live(rows, filter, a) <==> Considered(rows, filter, a)
    ensures Versions(rows, filter, a, b) <==> Rivals(rows, filter, a, b)
  {}

  lemma LatestWins(rows: Table, filter: string, id: Uuid)
    ensures Latest(rows, filter, id) <==> Wins(rows, filter, id)
  {
    VersionsAreRivals(rows, filter, id, id);
    forall other ensures Versions(rows, filter, id, other) <==> Rivals(rows, filter, id, other) {
      VersionsAreRivals(rows, filter, id, other);
    }
    hide Versions, Rivals, Live, Considered;
  }

  /** Archived rows, superseded rows, rows of other workspaces and rows without a whole identity stay exactly as they are. */
  lemma RowsLeftAlone(rows: Table, filter: string, id: Uuid)
    requires id in rows
    requires || rows[id].archived || rows[id].status == "superseded" || (filter != "" && rows[id].workspaceID != filter)
             || (rows[id].scope == Project && rows[id].projectID == None) || (rows[id].scope == Agent && rows[id].agentID == None)
    ensures id in After(rows, filter) && After(rows, filter)[id] == rows[id]
  {
    VersionsAreRivals(rows, filter, id, id);
    hide Considered, Wins, Contested, Winner;
  }

  /** A live row that is not the latest for its fact is superseded by the one that is, and nothing else of it changes. */
  lemma OlderVersionIsSuperseded(rows: Table, filter: string, id: Uuid)
    requires Live(rows, filter, id) && !Latest(rows, filter, id)
    ensures exists top :: top in rows && Versions(rows, filter, top, id) && Latest(rows, filter, top)
                          && id in After(rows, filter)
                          && After(rows, filter)[id] == rows[id].(status := "superseded", supersededBy := Some(top))
  {
    VersionsAreRivals(rows, filter, id, id);
    LatestWins(rows, filter, id);
    var top := Winner(rows, filter, id);
    VersionsAreRivals(rows, filter, top, id);
    LatestWins(rows, filter, top);
    hide Considered, Wins, Rivals, Live, Versions, Latest, Winner;
  }

  /** The latest row for a fact stays as it is but for its tags, which become those of all versions together, and for the
      project of a workspace row. Tags that are these already, in whatever order, are not rewritten; others are sorted. */
  lemma LatestVersionStays(rows: Table, filter: string, top: Uuid)
    requires Latest(rows, filter, top)
    ensures top in After(rows, filter)
    ensures var m, n := rows[top], After(rows, filter)[top];
            && n == m.(tags := n.tags, projectID := if m.scope == Workspace then None else m.projectID)
            && !n.archived && n.status != "superseded"
            && (forall t :: t in n.tags <==> exists id :: id in rows && Versions(rows, filter, top, id) && t in rows[id].tags)
            && (n.tags == m.tags || StrictlySorted(n.tags))
            && ((forall id | id in rows && Versions(rows, filter, top, id) :: id == top) ==> n.tags == m.tags)
            && (NoRepeats(m.tags) && (forall t :: t in n.tags <==> t in m.tags) ==> n.tags == m.tags)
  {
    LatestWins(rows, filter, top);
    VersionsAreRivals(rows, filter, top, top);
    forall id ensures Versions(rows, filter, top, id) <==> Rivals(rows, filter, top, id) { VersionsAreRivals(rows, filter, top, id); }
    TagsAfter(rows, filter, top);
    forall t ensures t in GroupTags(rows, filter, top) <==> exists id :: id in rows && Versions(rows, filter, top, id) && t in rows[id].tags {}
    hide Versions, Rivals, Latest, Wins, Considered, SortedSet;
    SameTagsStay(rows[top].tags, SortedSet(GroupTags(rows, filter, top)));
  }

  /** Tags without repetition that are the union are kept. */
  lemma SameTagsStay(tags: seq<string>, union: seq<string>)
    requires StrictlySorted(union)
    ensures NoRepeats(tags) && (forall t :: t in Merged(tags, union) <==> t in tags) ==> Merged(tags, union) == tags
  {
    if NoRepeats(tags) && (forall t :: t in Merged(tags, union) <==> t in tags) && Merged(tags, union) == union {
      StrictlySortedHasNoRepeats(union);
      NoRepeatsIsMultiplicityOne(tags);
      NoRepeatsIsMultiplicityOne(union);
      forall t ensures multiset(tags)[t] == multiset(union)[t] {
        assert t in tags <==> t in multiset(tags);
        assert t in union <==> t in multiset(union);
      }
      assert multiset(tags) == multiset(union);
    }
  }

  // ----- the counts of the final check -----

  /** No duplicate is counted exactly when no fact has two live rows. */
  lemma DuplicateCountInWords(rows: Table)
    ensures CountActiveDuplicates(rows) == 0 <==> forall a, b | a in rows && b in rows && Versions(rows, "", a, b) :: a == b
  {
    DuplicateCountIff(rows);
    forall a, b ensures Versions(rows, "", a, b) <==> Rivals(rows, "", a, b) { VersionsAreRivals(rows, "", a, b); }
    forall a, b | Rivals(rows, "", a, b) ensures a in rows && b in rows {}
    hide Versions, Rivals, DuplicateKeys;
  }

  lemma StrayCountInWords(rows: Table)
    ensures CountActiveWorkspaceWithProjectID(rows) == 0 <==>
              forall id | id in rows && !rows[id].archived && rows[id].status != "superseded" && rows[id].scope == Workspace ::
                rows[id].projectID == None
  {
    StrayCountIff(rows);
    hide CountActiveWorkspaceWithProjectID;
  }
}
