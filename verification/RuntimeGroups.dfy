/** Account preference: an ordered list of profiles is cut into runs of one provider and execution mode, and
    inside each run the preferred account's profiles come first. */
module RuntimeGroups {
  import opened RuntimeCatalog
  import opened RuntimePreview

  /** What must not be reordered: the provider and the execution mode. */
  function ClassOf(x: Inputs, ref: Ref): (string, string) {
    var profile := ProfileAt(x.catalog, ref);
    (AccountAt(x.catalog, profile.accountRef).provider, profile.executionMode)
  }

  function Classes(x: Inputs, refs: seq<Ref>): seq<(string, string)> {
    seq(|refs|, i requires 0 <= i < |refs| => ClassOf(x, refs[i]))
  }

  ghost function Flatten(groups: seq<seq<Ref>>): seq<Ref> {
    if groups == [] then [] else Flatten(groups[..|groups| - 1]) + groups[|groups| - 1]
  }

  /** All the references in a list of groups. */
  ghost function Refs(groups: seq<seq<Ref>>): set<Ref> {
    set g, r | g in groups && r in g :: r
  }

  /** Nonempty, and all of one class. */
  ghost predicate OneClass(x: Inputs, group: seq<Ref>) {
    group != [] && forall i | 0 <= i < |group| :: ClassOf(x, group[i]) == ClassOf(x, group[0])
  }

  ghost predicate Uniform(x: Inputs, groups: seq<seq<Ref>>) {
    forall i | 0 <= i < |groups| :: OneClass(x, groups[i])
  }

  ghost function FirstClass(x: Inputs, group: seq<Ref>): (string, string) {
    if group == [] then ("", "") else ClassOf(x, group[0])
  }

  /** Neighbouring groups differ in class, so the groups are the maximal runs. */
  ghost predicate Maximal(x: Inputs, groups: seq<seq<Ref>>) {
    forall i, j | 0 <= i < j < |groups| && j == i + 1 :: FirstClass(x, groups[i]) != FirstClass(x, groups[j])
  }

  /** The members of a group that do, or do not, use the account `preferred`. */
  function Using(x: Inputs, group: seq<Ref>, preferred: Ref, yes: bool): (kept: seq<Ref>) {
    if group == [] then []
    else
      var init := Using(x, group[..|group| - 1], preferred, yes);
      var last := group[|group| - 1];
      if (ProfileAt(x.catalog, last).accountRef == preferred) == yes then init + [last] else init
  }

  /** The account this group's provider prefers, or the empty reference. */
  function PreferredFor(x: Inputs, group: seq<Ref>): Ref {
    if group == [] then "" else StringAt(x.Policy().preferredAccounts, ClassOf(x, group[0]).0)
  }

  /** What the stable sort leaves: the preferred account's profiles in their order, then the others in theirs. */
  function PreferFirst(x: Inputs, group: seq<Ref>): seq<Ref> {
    var preferred := PreferredFor(x, group);
    if preferred == "" then group else Using(x, group, preferred, true) + Using(x, group, preferred, false)
  }

  lemma {:induction false} UsingMembers(x: Inputs, group: seq<Ref>, preferred: Ref, yes: bool)
    ensures forall r | r in Using(x, group, preferred, yes) ::
              r in group && (ProfileAt(x.catalog, r).accountRef == preferred) == yes
  {
    if group != [] {
      hide ProfileAt;
      var init := group[..|group| - 1];
      UsingMembers(x, init, preferred, yes);
      assert forall r | r in init :: r in group;
    }
  }

  lemma {:induction false} UsingSplits(x: Inputs, group: seq<Ref>, preferred: Ref)
    ensures multiset(Using(x, group, preferred, true)) + multiset(Using(x, group, preferred, false)) == multiset(group)
  {
    if group != [] {
      hide ProfileAt;
      var init, last := group[..|group| - 1], group[|group| - 1];
      assert group == init + [last];
      UsingSplits(x, init, preferred);
    }
  }

  /** Ranking a group permutes it and keeps its class sequence. */
  lemma PreferFirstPermutes(x: Inputs, group: seq<Ref>)
    requires OneClass(x, group)
    ensures multiset(PreferFirst(x, group)) == multiset(group)
    ensures Classes(x, PreferFirst(x, group)) == Classes(x, group)
  {
    var ranked, preferred := PreferFirst(x, group), PreferredFor(x, group);
    UsingSplits(x, group, preferred);
    assert multiset(ranked) == multiset(group);
    assert |multiset(ranked)| == |ranked| && |multiset(group)| == |group|;
    hide ClassOf, PreferFirst;
    forall i | 0 <= i < |group| ensures Classes(x, ranked)[i] == Classes(x, group)[i] {
      assert ranked[i] in multiset(group);
      var k :| 0 <= k < |group| && group[k] == ranked[i];
    }
  }

  /** No profile of another account stands before one of the preferred account; each kind keeps its own order. */
  lemma PreferredComeFirst(x: Inputs, group: seq<Ref>)
    requires PreferredFor(x, group) != ""
    ensures var ranked, preferred := PreferFirst(x, group), PreferredFor(x, group);
            && (forall i, j | 0 <= i < j < |ranked| && ProfileAt(x.catalog, ranked[j]).accountRef == preferred ::
                  ProfileAt(x.catalog, ranked[i]).accountRef == preferred)
            && forall yes :: Using(x, ranked, preferred, yes) == Using(x, group, preferred, yes)
  {
    var ranked, preferred := PreferFirst(x, group), PreferredFor(x, group);
    var first, others := Using(x, group, preferred, true), Using(x, group, preferred, false);
    UsingMembers(x, group, preferred, true);
    UsingMembers(x, group, preferred, false);
    assert forall k | 0 <= k < |others| :: others[k] in others && ProfileAt(x.catalog, others[k]).accountRef != preferred;
    forall i, j | 0 <= i < j < |ranked| && ProfileAt(x.catalog, ranked[j]).accountRef == preferred
      ensures ProfileAt(x.catalog, ranked[i]).accountRef == preferred
    {
      assert ranked[i] == first[i] && ranked[i] in first;
    }
    forall yes ensures Using(x, ranked, preferred, yes) == Using(x, group, preferred, yes) {
      UsingConcat(x, first, others, preferred, yes);
      UsingAll(x, first, preferred, true, yes);
      UsingAll(x, others, preferred, false, yes);
    }
  }

  lemma {:induction false} UsingConcat(x: Inputs, a: seq<Ref>, b: seq<Ref>, preferred: Ref, yes: bool)
    ensures Using(x, a + b, preferred, yes) == Using(x, a, preferred, yes) + Using(x, b, preferred, yes)
  {
    if b == [] {
      assert a + b == a;
    } else {
      assert (a + b)[..|a + b| - 1] == a + b[..|b| - 1];
      UsingConcat(x, a, b[..|b| - 1], preferred, yes);
    }
  }

  lemma {:induction false} UsingAll(x: Inputs, group: seq<Ref>, preferred: Ref, are: bool, yes: bool)
    requires forall r | r in group :: (ProfileAt(x.catalog, r).accountRef == preferred) == are
    ensures Using(x, group, preferred, yes) == if are == yes then group else []
  {
    if group != [] {
      UsingAll(x, group[..|group| - 1], preferred, are, yes);
    }
  }

  /** The runs of one class, each as long as it can be. */
  function Runs(x: Inputs, refs: seq<Ref>): seq<seq<Ref>> {
    if refs == [] then []
    else AddToRuns(x, Runs(x, refs[..|refs| - 1]), refs[|refs| - 1])
  }

  function AddToRuns(x: Inputs, runs: seq<seq<Ref>>, ref: Ref): seq<seq<Ref>> {
    if runs == [] || runs[|runs| - 1] == [] || ClassOf(x, runs[|runs| - 1][0]) != ClassOf(x, ref) then runs + [[ref]]
    else runs[|runs| - 1 := runs[|runs| - 1] + [ref]]
  }

  function GroupsOf(x: Inputs, refs: seq<Ref>): seq<seq<Ref>> {
    var runs := Runs(x, refs);
    seq(|runs|, i requires 0 <= i < |runs| => PreferFirst(x, runs[i]))
  }

  /** One list's groups: the runs before ranking, and each of them ranked. */
  ghost predicate IsGrouping(x: Inputs, refs: seq<Ref>, runs: seq<seq<Ref>>, groups: seq<seq<Ref>>) {
    && Uniform(x, runs) && Flatten(runs) == refs && Maximal(x, runs)
    && |groups| == |runs| && forall i | 0 <= i < |runs| :: groups[i] == PreferFirst(x, runs[i])
  }

  lemma NewRun(x: Inputs, runs: seq<seq<Ref>>, ref: Ref)
    requires Uniform(x, runs) && Maximal(x, runs)
    requires runs != [] ==> FirstClass(x, runs[|runs| - 1]) != ClassOf(x, ref)
    ensures Uniform(x, runs + [[ref]]) && Maximal(x, runs + [[ref]])
    ensures Flatten(runs + [[ref]]) == Flatten(runs) + [ref]
  {
    var more := runs + [[ref]];
    FlattenLast(more);
    assert OneClass(x, [ref]) && FirstClass(x, [ref]) == ClassOf(x, ref);
    hide ClassOf, OneClass, FirstClass, Flatten;
    assert more[..|runs|] == runs;
  }

  lemma LongerRun(x: Inputs, runs: seq<seq<Ref>>, ref: Ref)
    requires Uniform(x, runs) && Maximal(x, runs) && runs != []
    requires FirstClass(x, runs[|runs| - 1]) == ClassOf(x, ref)
    ensures var longer := runs[|runs| - 1 := runs[|runs| - 1] + [ref]];
            Uniform(x, longer) && Maximal(x, longer) && Flatten(longer) == Flatten(runs) + [ref]
  {}

  method Groups(x: Inputs, refs: seq<Ref>) returns (groups: seq<seq<Ref>>, ghost runs: seq<seq<Ref>>)
    ensures IsGrouping(x, refs, runs, groups)
    ensures groups == GroupsOf(x, refs)
  {
    hide ClassOf, Flatten, PreferFirst, Runs;
    assert Runs(x, []) == [] by { NoRuns(x); }
    groups := [];
    assert Flatten([]) == [] by { FlattenNothing(); }
    for i := 0 to |refs|
      invariant Uniform(x, groups) && Flatten(groups) == refs[..i] && Maximal(x, groups)
      invariant groups == Runs(x, refs[..i])
    {
      var ref := refs[i];
      assert refs[..i + 1] == refs[..i] + [ref];
      NextRuns(x, refs, i);
      if |groups| == 0 {
        NewRun(x, groups, ref);
        assert groups + [[ref]] == [[ref]];
        groups := [[ref]];
      } else {
        var last := groups[|groups| - 1];
        assert OneClass(x, last) && FirstClass(x, last) == ClassOf(x, last[0]);
        if ClassOf(x, last[0]) != ClassOf(x, ref) {
          NewRun(x, groups, ref);
          groups := groups + [[ref]];
        } else {
          LongerRun(x, groups, ref);
          groups := groups[|groups| - 1 := last + [ref]];
        }
      }
    }
    assert refs[..|refs|] == refs;
    runs := groups;
    for i := 0 to |groups|
      invariant |groups| == |runs|
      invariant forall j | 0 <= j < i :: groups[j] == PreferFirst(x, runs[j])
      invariant forall j | i <= j < |runs| :: groups[j] == runs[j]
    {
      groups := groups[i := PreferFirst(x, groups[i])];
    }
  }

  /** The runs are the grouping's. */
  lemma {:induction false} RunsAreGrouping(x: Inputs, refs: seq<Ref>)
    ensures IsGrouping(x, refs, Runs(x, refs), GroupsOf(x, refs))
  {
    hide ClassOf, PreferFirst;
    if refs == [] {
      FlattenNothing();
    } else {
      var n := |refs| - 1;
      RunsAreGrouping(x, refs[..n]);
      var runs := Runs(x, refs[..n]);
      NextRuns(x, refs, n);
      assert refs[..n + 1] == refs && refs == refs[..n] + [refs[n]];
      hide Runs, Flatten;
      if runs != [] {
        assert OneClass(x, runs[|runs| - 1]);
        assert FirstClass(x, runs[|runs| - 1]) == ClassOf(x, runs[|runs| - 1][0]);
      }
      if runs == [] || FirstClass(x, runs[|runs| - 1]) != ClassOf(x, refs[n]) {
        NewRun(x, runs, refs[n]);
      } else {
        LongerRun(x, runs, refs[n]);
      }
    }
  }

  lemma NoRuns(x: Inputs)
    ensures Runs(x, []) == []
  {}

  lemma NextRuns(x: Inputs, refs: seq<Ref>, i: nat)
    requires i < |refs|
    ensures Runs(x, refs[..i + 1]) == AddToRuns(x, Runs(x, refs[..i]), refs[i])
  {
    hide AddToRuns;
    assert refs[..i + 1][..i] == refs[..i];
  }

  lemma FlattenNothing()
    ensures Flatten([]) == []
  {}

  /** Flattened, the groups are a permutation of the list that keeps the sequence of providers and modes. */
  lemma {:induction false} GroupingLaws(x: Inputs, runs: seq<seq<Ref>>, groups: seq<seq<Ref>>)
    requires Uniform(x, runs) && |groups| == |runs|
    requires forall i | 0 <= i < |runs| :: groups[i] == PreferFirst(x, runs[i])
    ensures multiset(Flatten(groups)) == multiset(Flatten(runs))
    ensures Classes(x, Flatten(groups)) == Classes(x, Flatten(runs))
  {
    FlattenNothing();
    if runs != [] {
      hide PreferFirst, OneClass, Classes, Flatten;
      var n := |runs| - 1;
      GroupingLaws(x, runs[..n], groups[..n]);
      PreferFirstPermutes(x, runs[n]);
      hide Uniform;
      FlattenLast(groups);
      FlattenLast(runs);
      SameTogether(x, Flatten(groups[..n]), groups[n], Flatten(runs[..n]), runs[n]);
    } else {
      assert groups == [];
    }
  }

  lemma FlattenLast(groups: seq<seq<Ref>>)
    requires groups != []
    ensures Flatten(groups) == Flatten(groups[..|groups| - 1]) + groups[|groups| - 1]
  {}

  lemma SameTogether(x: Inputs, a: seq<Ref>, b: seq<Ref>, c: seq<Ref>, d: seq<Ref>)
    requires multiset(a) == multiset(c) && multiset(b) == multiset(d)
    requires Classes(x, a) == Classes(x, c) && Classes(x, b) == Classes(x, d)
    ensures multiset(a + b) == multiset(c + d) && Classes(x, a + b) == Classes(x, c + d)
  {
    hide ClassOf;
    ClassesConcat(x, a, b);
    ClassesConcat(x, c, d);
  }

  lemma {:induction false} RefsAreFlattened(groups: seq<seq<Ref>>)
    ensures forall r :: r in Refs(groups) <==> r in Flatten(groups)
  {
    if groups != [] {
      var n := |groups| - 1;
      RefsAreFlattened(groups[..n]);
      assert forall g :: g in groups <==> g in groups[..n] || g == groups[n] by { assert groups == groups[..n] + [groups[n]]; }
    }
  }

  /** Grouping loses and adds no reference. */
  lemma GroupingKeepsRefs(x: Inputs, refs: seq<Ref>, runs: seq<seq<Ref>>, groups: seq<seq<Ref>>)
    requires IsGrouping(x, refs, runs, groups)
    ensures forall r :: r in Refs(groups) <==> r in refs
    ensures forall g | g in groups :: g != []
  {
    hide PreferFirst, ClassOf, Flatten;
    GroupingLaws(x, runs, groups);
    RefsAreFlattened(groups);
    forall r ensures r in Flatten(groups) <==> r in refs {
      assert r in Flatten(groups) <==> r in multiset(Flatten(groups));
      assert r in refs <==> r in multiset(refs);
    }
    forall g | g in groups ensures g != [] {
      var i :| 0 <= i < |groups| && groups[i] == g;
      PreferFirstPermutes(x, runs[i]);
      assert OneClass(x, runs[i]) && |Classes(x, g)| == |Classes(x, runs[i])| by { assert Uniform(x, runs); }
    }
  }

  lemma ClassesConcat(x: Inputs, a: seq<Ref>, b: seq<Ref>)
    ensures Classes(x, a + b) == Classes(x, a) + Classes(x, b)
  {}
}
