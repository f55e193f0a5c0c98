/** What grouping does to a list of profiles, told in the fields of the catalog and the policy. */
module GroupLaws {
  import opened RuntimeCatalog
  import opened RuntimePreview
  import opened RuntimeGroups

  /** Provider and execution mode; what the catalog does not hold reads as empty. */
  function Lane(c: Catalog, ref: Ref): (string, string) {
    if ref !in c.profiles then (if "" in c.accounts then c.accounts[""].provider else "", "")
    else
      var p := c.profiles[ref];
      (if p.accountRef in c.accounts then c.accounts[p.accountRef].provider else "", p.executionMode)
  }

  /** The profile uses the account its provider prefers. */
  predicate Favoured(x: Inputs, ref: Ref) {
    var provider, preferred := Lane(x.catalog, ref).0, x.binding.policy.preferredAccounts;
    provider in preferred && preferred[provider] != "" && ref in x.catalog.profiles
    && x.catalog.profiles[ref].accountRef == preferred[provider]
  }

  /** The favoured profiles of a list, or the others, in order. */
  function Those(x: Inputs, refs: seq<Ref>, favoured: bool): seq<Ref> {
    if refs == [] then []
    else Those(x, refs[..|refs| - 1], favoured) + if Favoured(x, refs[|refs| - 1]) == favoured then [refs[|refs| - 1]] else []
  }

  lemma ClassIsLane(x: Inputs, ref: Ref)
    ensures ClassOf(x, ref) == Lane(x.catalog, ref)
  {}

  // ----- one group -----

  lemma {:induction false} ThoseAreUsing(x: Inputs, group: seq<Ref>, preferred: Ref, favoured: bool)
    requires forall r | r in group :: Favoured(x, r) <==> ProfileAt(x.catalog, r).accountRef == preferred
    ensures Those(x, group, favoured) == Using(x, group, preferred, favoured)
  {
    hide Favoured, ProfileAt;
    if group != [] { ThoseAreUsing(x, group[..|group| - 1], preferred, favoured); }
  }

  lemma FavouredInGroup(x: Inputs, group: seq<Ref>, r: Ref)
    requires OneClass(x, group) && PreferredFor(x, group) != "" && r in group
    ensures Favoured(x, r) <==> ProfileAt(x.catalog, r).accountRef == PreferredFor(x, group)
  {
    ClassIsLane(x, r);
    ClassIsLane(x, group[0]);
    hide Lane;
  }

  lemma NoneFavoured(x: Inputs, group: seq<Ref>, r: Ref)
    requires OneClass(x, group) && PreferredFor(x, group) == "" && r in group
    ensures !Favoured(x, r)
  {
    ClassIsLane(x, r);
    ClassIsLane(x, group[0]);
    hide Lane;
  }

  /** Ranking a group puts its favoured profiles first and keeps both orders. */
  lemma RankedInWords(x: Inputs, group: seq<Ref>, favoured: bool)
    requires OneClass(x, group)
    ensures var ranked := PreferFirst(x, group);
            && Those(x, ranked, favoured) == Those(x, group, favoured)
            && forall i, j | 0 <= i < j < |ranked| && Favoured(x, ranked[j]) :: Favoured(x, ranked[i])
  {
    var ranked, preferred := PreferFirst(x, group), PreferredFor(x, group);
    PreferFirstPermutes(x, group);
    forall r ensures r in ranked <==> r in group {
      assert r in ranked <==> r in multiset(ranked);
      assert r in group <==> r in multiset(group);
    }
    hide PreferFirst, Those, Using, ProfileAt, Favoured, OneClass;
    if preferred != "" {
      forall r | r in group { FavouredInGroup(x, group, r); }
      PreferredComeFirst(x, group);
      ThoseAreUsing(x, group, preferred, favoured);
      ThoseAreUsing(x, ranked, preferred, favoured);
      assert Using(x, ranked, preferred, favoured) == Using(x, group, preferred, favoured);
    } else {
      forall r | r in group { NoneFavoured(x, group, r); }
      assert ranked == group by { UnrankedStays(x, group); }
    }
  }

  lemma UnrankedStays(x: Inputs, group: seq<Ref>)
    requires PreferredFor(x, group) == ""
    ensures PreferFirst(x, group) == group
  {}

  // ----- all groups -----

  lemma {:induction false} ThoseConcat(x: Inputs, a: seq<Ref>, b: seq<Ref>, favoured: bool)
    ensures Those(x, a + b, favoured) == Those(x, a, favoured) + Those(x, b, favoured)
  {
    hide Favoured;
    if b == [] {
      assert a + b == a;
    } else {
      assert (a + b)[..|a + b| - 1] == a + b[..|b| - 1];
      ThoseConcat(x, a, b[..|b| - 1], favoured);
    }
  }

  lemma {:induction false} ThoseFlattened(x: Inputs, runs: seq<seq<Ref>>, groups: seq<seq<Ref>>, favoured: bool)
    requires Uniform(x, runs) && |groups| == |runs|
    requires forall i | 0 <= i < |runs| :: groups[i] == PreferFirst(x, runs[i])
    ensures Those(x, Flatten(groups), favoured) == Those(x, Flatten(runs), favoured)
  {
    FlattenNothing();
    if runs != [] {
      hide PreferFirst, OneClass, Flatten, Those;
      var n := |runs| - 1;
      ThoseFlattened(x, runs[..n], groups[..n], favoured);
      RankedInWords(x, runs[n], favoured);
      FlattenLast(groups);
      FlattenLast(runs);
      ThoseConcat(x, Flatten(groups[..n]), groups[n], favoured);
      ThoseConcat(x, Flatten(runs[..n]), runs[n], favoured);
    } else {
      assert groups == [];
    }
  }

  /** Flattened, the groups are the list again with the sequence of providers and modes unchanged and the favoured
      profiles, and the others, each in their order. */
  lemma GroupsInWords(x: Inputs, refs: seq<Ref>)
    ensures var flat := Flatten(GroupsOf(x, refs));
            && multiset(flat) == multiset(refs) && |flat| == |refs|
            && (forall i | 0 <= i < |refs| :: Lane(x.catalog, flat[i]) == Lane(x.catalog, refs[i]))
            && forall favoured :: Those(x, flat, favoured) == Those(x, refs, favoured)
  {
    var runs, groups := Runs(x, refs), GroupsOf(x, refs);
    RunsAreGrouping(x, refs);
    hide Runs, GroupsOf, Flatten, PreferFirst, Maximal;
    GroupingLaws(x, runs, groups);
    forall favoured { ThoseFlattened(x, runs, groups, favoured); }
    var flat := Flatten(groups);
    forall i | 0 <= i < |refs| ensures |Classes(x, flat)| == |Classes(x, refs)| && Lane(x.catalog, flat[i]) == Lane(x.catalog, refs[i]) {
      ClassIsLane(x, flat[i]);
      ClassIsLane(x, refs[i]);
      assert Classes(x, flat)[i] == Classes(x, refs)[i];
    }
  }

  /** A group is never empty, holds one provider and mode and has its favoured profiles in front; the next group is of
      another provider or mode. */
  lemma EachGroupInWords(x: Inputs, refs: seq<Ref>, k: nat)
    requires k < |GroupsOf(x, refs)|
    ensures var groups := GroupsOf(x, refs);
            var g := groups[k];
            && g != []
            && (forall i | 0 <= i < |g| :: Lane(x.catalog, g[i]) == Lane(x.catalog, g[0]))
            && (forall i, j | 0 <= i < j < |g| && Favoured(x, g[j]) :: Favoured(x, g[i]))
            && (k + 1 < |groups| && groups[k + 1] != [] ==> Lane(x.catalog, groups[k + 1][0]) != Lane(x.catalog, g[0]))
  {
    var runs, groups := Runs(x, refs), GroupsOf(x, refs);
    RunsAreGrouping(x, refs);
    hide Runs, GroupsOf, Flatten, PreferFirst, Favoured, Lane, ClassOf;
    GroupKeepsClass(x, runs[k], groups[k]);
    RankedInWords(x, runs[k], true);
    if k + 1 < |groups| {
      GroupKeepsClass(x, runs[k + 1], groups[k + 1]);
      assert FirstClass(x, runs[k]) != FirstClass(x, runs[k + 1]);
    }
  }

  lemma GroupKeepsClass(x: Inputs, run: seq<Ref>, group: seq<Ref>)
    requires OneClass(x, run) && group == PreferFirst(x, run)
    ensures group != [] && forall i | 0 <= i < |group| :: Lane(x.catalog, group[i]) == FirstClass(x, run)
  {
    PreferFirstPermutes(x, run);
    hide PreferFirst, ClassOf;
    assert |Classes(x, group)| == |Classes(x, run)|;
    forall i | 0 <= i < |group| ensures Lane(x.catalog, group[i]) == FirstClass(x, run) {
      ClassIsLane(x, group[i]);
      assert Classes(x, group)[i] == Classes(x, run)[i];
    }
  }
}
