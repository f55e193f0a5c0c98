/** A catalog the parser lets through whose slice for one controller fails the reference check. */
module StraySlice {
  import opened Ordering
  import opened RuntimeCatalog
  import opened RuntimeSchema
  import opened CatalogReferences
  import opened CatalogProjection
  import opened ProjectionLaws

  /** The binding prefers account B through the other controller's p2, while p3, which it does not permit, brings B
      into the slice. */
  function StrayExample(): Catalog {
    var controller := Controller("h", "v1", ExampleId(), [], true, 60);
    var account := Account("x", "cred:a", map["api" := ["q"]]);
    var profile := Profile("k", "A", "cli", "m1", "dev", "fam", "api", [], true);
    var policy := Policy(["p1"], map[], map["x" := "B"], [], 1, 60, QA("off", false));
    Catalog(
      map["k" := controller, "l" := controller],
      map["A" := account, "B" := account],
      map["q" := Pool("x", "r", [], 1, "")],
      map["p1" := profile, "p2" := profile.(controllerRef := "l", accountRef := "B"), "p3" := profile.(accountRef := "B")],
      map["b" := Binding(Identity(ExampleId(), ExampleId(), ExampleId()), ["p1", "p2"], policy, true)])
  }

  function ExampleId(): string {
    "1b4e28ba-2fa1-4d2f-883f-0016d3cca427"
  }

  lemma StrayExampleIsValid()
    ensures ReferencesOk(StrayExample())
  {
    forall f ensures !Bad(StrayExample(), f) {
      if OfBinding(f) {
        StrayExampleBindings(f);
      } else if OfProfile(f) {
        StrayExampleProfiles(f);
      } else {
        StrayExamplePools(f);
      }
    }
  }

  lemma StrayExampleBindings(f: Field)
    requires OfBinding(f)
    ensures !Bad(StrayExample(), f)
  {
    hide Less, ExampleId;
    var c := StrayExample();
    LessIsIrreflexive("b");
    assert ProfileAt(c, "p2").accountRef == "B" && "p2" in c.bindings["b"].permittedProfiles;
    assert UsedByPermitted(c, c.bindings["b"], "B");
  }

  lemma StrayExampleProfiles(f: Field)
    requires OfProfile(f)
    ensures !Bad(StrayExample(), f)
  {
    hide ExampleId;
  }

  lemma StrayExamplePools(f: Field)
    requires !OfBinding(f) && !OfProfile(f)
    ensures !Bad(StrayExample(), f)
  {
    hide Less, PhysicalKey, ExampleId;
    var c := StrayExample();
    LessIsIrreflexive("q");
    assert ResolvesTo(c.pools, "q", "q") && LeadsToProvider(c, "q", "x");
  }

  lemma StrayExampleFits()
    ensures SchemaFits(StrayExample())
  {
    StrayResourcesFit();
    StrayBindingFits();
    StrayNamesFit();
    hide ControllerFits, AccountFits, ProfileFits, PoolFits, BindingFits, AreNames, ExampleId;
  }

  lemma StrayNamesFit()
    ensures var c := StrayExample();
            && AreNames(c.controllers) && AreNames(c.accounts) && AreNames(c.pools) && AreNames(c.profiles) && AreNames(c.bindings)
  {
    ExampleTexts();
    hide IsRef, ExampleId;
    var c := StrayExample();
    NamesFit(c.controllers, ["k", "l"]);
    NamesFit(c.accounts, ["A", "B"]);
    NamesFit(c.pools, ["q"]);
    NamesFit(c.profiles, ["p1", "p2", "p3"]);
    NamesFit(c.bindings, ["b"]);
  }

  lemma NamesFit<V>(m: map<Ref, V>, names: seq<Ref>)
    requires |names| <= 256 && (forall n | n in m :: n in names) && forall n | n in names :: IsRef(n)
    ensures AreNames(m)
  {
    hide IsRef;
    AtMostListed(m.Keys, names);
    assert |m| == |m.Keys|;
  }

  lemma {:induction false} AtMostListed<T>(s: set<T>, list: seq<T>)
    requires forall x | x in s :: x in list
    ensures |s| <= |list|
    decreases |list|
  {
    if list != [] {
      assert forall x | x in s - {list[0]} :: x in list[1..];
      AtMostListed(s - {list[0]}, list[1..]);
    }
  }

  lemma StrayResourcesFit()
    ensures var c := StrayExample();
            && (forall n | n in c.controllers :: ControllerFits(c.controllers[n]))
            && (forall n | n in c.accounts :: AccountFits(c.accounts[n]))
            && (forall n | n in c.pools :: PoolFits(c.pools[n]))
            && (forall n | n in c.profiles :: ProfileFits(c.profiles[n]))
  {
    ExampleTexts();
    hide IsRef, IsUuid, IsCredential, ExampleId;
    assert |map["api" := ["q"]]| == 1;
  }

  lemma StrayBindingFits()
    ensures BindingFits(StrayExample().bindings["b"])
  {
    ExampleTexts();
    hide IsRef, IsUuid, IsCredential, ExampleId;
    var policy := StrayExample().bindings["b"].policy;
    assert AreNames(policy.quotaEdges) && AreNames(policy.preferredAccounts) && AreRefs(policy.primaryProfiles, 1);
  }

  lemma ExampleTexts()
    ensures IsUuid(ExampleId()) && IsCredential("cred:a")
    ensures IsRef("h") && IsRef("v1") && IsRef("x") && IsRef("q") && IsRef("r") && IsRef("k") && IsRef("l") && IsRef("A") && IsRef("B")
    ensures IsRef("cli") && IsRef("m1") && IsRef("dev") && IsRef("fam") && IsRef("p1") && IsRef("p2") && IsRef("p3") && IsRef("b")
  {
    ExampleIdFits();
    hide ExampleId, IsUuid;
  }

  lemma ExampleIdFits()
    ensures IsUuid(ExampleId())
  {}

  /** A catalog the parser lets through, schema and references, and a slice of it that fails the reference check. */
  lemma SliceOfValidCanBeInvalid()
    ensures Accepted(StrayExample()) && "k" in StrayExample().controllers && !ReferencesOk(Slice(StrayExample(), "k"))
  {
    var c := StrayExample();
    StrayExampleFits();
    StrayExampleIsValid();
    hide ExampleId, SchemaFits;
    var own, b := OwnProfiles(c.profiles, "k"), c.bindings["b"];
    assert "p3" in own && own["p3"].accountRef == "B";
    assert StrayAccount(own, b.permittedProfiles, b.policy.preferredAccounts["x"]);
    assert "p1" in b.permittedProfiles && c.profiles["p1"].controllerRef == "k";
    assert Serves(c, "k", b) && Stray(c, "k", b);
    assert Accepted(c);
    hide *;
    SliceIsValidIff(c, "k");
  }
}
