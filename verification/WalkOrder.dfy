/** The order of the worklist: with new edges in front it is a depth-first recursion, with new edges behind it goes layer
    by layer. */
module WalkOrder {
  import opened Options
  import opened RuntimeCatalog
  import opened RuntimePreview
  import opened RuntimeWalk

  // ----- new edges in front -----

  /** A group, then everything its edges lead to, then the next group; n bounds the recursion. */
  ghost function Dive(x: Inputs, filter: bool, m: Machine, groups: seq<seq<Ref>>, n: nat): Option<(Machine, Stop)>
    requires x.Valid()
    decreases n
  {
    if groups == [] then Some((m, Running))
    else if n == 0 then None
    else
      var t := TurnAll(x, filter, m, groups[0]);
      if !t.stop.Running? then Some((t.m, t.stop))
      else
        match Dive(x, filter, t.m, t.children, n - 1)
        case None => None
        case Some(below) =>
          if !below.1.Running? then Some(below) else Dive(x, filter, below.0, groups[1..], n - 1)
  }

  lemma {:induction false} DeeperDive(x: Inputs, filter: bool, m: Machine, groups: seq<seq<Ref>>, n: nat, k: nat)
    requires x.Valid() && n <= k && Dive(x, filter, m, groups, n).Some?
    ensures Dive(x, filter, m, groups, k) == Dive(x, filter, m, groups, n)
    decreases n
  {
    hide TurnAll;
    if groups != [] {
      var t := TurnAll(x, filter, m, groups[0]);
      if t.stop.Running? {
        DeeperDive(x, filter, t.m, t.children, n - 1, k - 1);
        var below := Dive(x, filter, t.m, t.children, n - 1).value;
        if below.1.Running? { DeeperDive(x, filter, below.0, groups[1..], n - 1, k - 1); }
      }
    }
  }

  /** A walk over `a + b` dives into a and, unless that stops it, walks on over b. */
  lemma {:induction false} WalkDives(x: Inputs, filter: bool, m: Machine, a: seq<seq<Ref>>, b: seq<seq<Ref>>, n: nat)
    returns (k: nat, j: nat)
    requires x.Valid() && WalkN(x, filter, false, m, a + b, n).Some?
    ensures j <= n && Dive(x, filter, m, a, k).Some?
    ensures var w := Dive(x, filter, m, a, k).value;
            WalkN(x, filter, false, m, a + b, n) == if w.1.Running? then WalkN(x, filter, false, w.0, b, j) else Some(w)
    decreases n, |a|
  {
    hide TurnAll;
    if a == [] {
      assert a + b == b;
      k, j := 0, n;
    } else {
      assert (a + b)[0] == a[0] && (a + b)[1..] == a[1..] + b;
      var t := TurnAll(x, filter, m, a[0]);
      if !t.stop.Running? {
        k, j := 1, 0;
      } else {
        var k1, j1 := WalkDives(x, filter, t.m, t.children, a[1..] + b, n - 1);
        var below := Dive(x, filter, t.m, t.children, k1).value;
        if !below.1.Running? {
          k, j := k1 + 1, 0;
        } else {
          var k2;
          k2, j := WalkDives(x, filter, below.0, a[1..], b, j1);
          DeeperDive(x, filter, t.m, t.children, k1, k1 + k2);
          DeeperDive(x, filter, below.0, a[1..], k2, k1 + k2);
          k := k1 + k2 + 1;
        }
      }
    }
  }

  /** A dive is a walk, whatever else is pending behind it. */
  lemma {:induction false} DiveWalks(x: Inputs, filter: bool, m: Machine, a: seq<seq<Ref>>, b: seq<seq<Ref>>, k: nat, w: (Machine, Stop))
    requires x.Valid() && Dive(x, filter, m, a, k).Some?
    requires var d := Dive(x, filter, m, a, k).value;
             if d.1.Running? then Walks(x, filter, false, d.0, b, w) else w == d
    ensures Walks(x, filter, false, m, a + b, w)
    decreases k
  {
    hide TurnAll, Walks;
    if a == [] {
      assert a + b == b;
    } else {
      assert (a + b)[0] == a[0] && (a + b)[1..] == a[1..] + b;
      var t := TurnAll(x, filter, m, a[0]);
      if t.stop.Running? {
        var below := Dive(x, filter, t.m, t.children, k - 1).value;
        if below.1.Running? { DiveWalks(x, filter, below.0, a[1..], b, k - 1, w); }
        DiveWalks(x, filter, t.m, t.children, a[1..] + b, k - 1, w);
      }
      WalkGoesOn(x, filter, false, m, a + b, w);
    }
  }

  /** With new edges in front the worklist is the depth-first recursion. */
  lemma FrontIsDepthFirst(x: Inputs, filter: bool, m: Machine, groups: seq<seq<Ref>>, w: (Machine, Stop))
    requires x.Valid()
    ensures Walks(x, filter, false, m, groups, w) <==> exists k: nat :: Dive(x, filter, m, groups, k) == Some(w)
  {
    hide TurnAll, Dive;
    assert groups + [] == groups;
    if Walks(x, filter, false, m, groups, w) {
      var n: nat :| WalkN(x, filter, false, m, groups, n) == Some(w);
      var k, j := WalkDives(x, filter, m, groups, [], n);
      assert Dive(x, filter, m, groups, k) == Some(w);
    }
    if k: nat :| Dive(x, filter, m, groups, k) == Some(w) {
      if w.1.Running? { WalkEnds(x, filter, false, w.0); }
      DiveWalks(x, filter, m, groups, [], k, w);
    }
  }

  // ----- new edges behind -----

  /** All groups of one layer in order, with the groups of the next one. */
  ghost function Layer(x: Inputs, filter: bool, m: Machine, groups: seq<seq<Ref>>): Turn
    requires x.Valid()
    decreases groups
  {
    if groups == [] then Turn(m, [], Running)
    else
      var t := TurnAll(x, filter, m, groups[0]);
      if !t.stop.Running? then t
      else
        var rest := Layer(x, filter, t.m, groups[1..]);
        Turn(rest.m, t.children + rest.children, rest.stop)
  }

  /** Layer after layer; n bounds their number. */
  ghost function Layers(x: Inputs, filter: bool, m: Machine, groups: seq<seq<Ref>>, n: nat): Option<(Machine, Stop)>
    requires x.Valid()
    decreases n
  {
    if groups == [] then Some((m, Running))
    else if n == 0 then None
    else
      var t := Layer(x, filter, m, groups);
      if !t.stop.Running? then Some((t.m, t.stop)) else Layers(x, filter, t.m, t.children, n - 1)
  }

  /** A walk over `a + b` is through with a when it has taken a as a layer. */
  lemma {:induction false} WalkLayer(x: Inputs, filter: bool, m: Machine, a: seq<seq<Ref>>, b: seq<seq<Ref>>, n: nat) returns (j: nat)
    requires x.Valid() && WalkN(x, filter, true, m, a + b, n).Some?
    ensures j <= n && (a != [] && Layer(x, filter, m, a).stop.Running? ==> j < n)
    ensures var t := Layer(x, filter, m, a);
            WalkN(x, filter, true, m, a + b, n)
            == if t.stop.Running? then WalkN(x, filter, true, t.m, b + t.children, j) else Some((t.m, t.stop))
    decreases |a|
  {
    hide TurnAll;
    if a == [] {
      assert a + b == b && b + [] == b;
      j := n;
    } else {
      assert (a + b)[0] == a[0] && (a + b)[1..] == a[1..] + b;
      var t := TurnAll(x, filter, m, a[0]);
      if t.stop.Running? {
        assert a[1..] + b + t.children == a[1..] + (b + t.children);
        j := WalkLayer(x, filter, t.m, a[1..], b + t.children, n - 1);
        var rest := Layer(x, filter, t.m, a[1..]);
        assert b + t.children + rest.children == b + (t.children + rest.children);
      } else {
        j := 0;
      }
    }
  }

  lemma {:induction false} LayerWalks(x: Inputs, filter: bool, m: Machine, a: seq<seq<Ref>>, b: seq<seq<Ref>>, w: (Machine, Stop))
    requires x.Valid()
    requires var t := Layer(x, filter, m, a);
             if t.stop.Running? then Walks(x, filter, true, t.m, b + t.children, w) else w == (t.m, t.stop)
    ensures Walks(x, filter, true, m, a + b, w)
    decreases |a|
  {
    hide TurnAll, Walks;
    if a == [] {
      assert a + b == b && b + [] == b;
    } else {
      assert (a + b)[0] == a[0] && (a + b)[1..] == a[1..] + b;
      var t := TurnAll(x, filter, m, a[0]);
      if t.stop.Running? {
        var rest := Layer(x, filter, t.m, a[1..]);
        assert b + t.children + rest.children == b + (t.children + rest.children);
        LayerWalks(x, filter, t.m, a[1..], b + t.children, w);
        assert a[1..] + b + t.children == a[1..] + (b + t.children);
      }
      WalkGoesOn(x, filter, true, m, a + b, w);
    }
  }

  lemma {:induction false} WalkIsLayered(x: Inputs, filter: bool, m: Machine, groups: seq<seq<Ref>>, n: nat) returns (k: nat)
    requires x.Valid() && WalkN(x, filter, true, m, groups, n).Some?
    ensures Layers(x, filter, m, groups, k) == WalkN(x, filter, true, m, groups, n)
    decreases n
  {
    hide TurnAll;
    if groups == [] {
      k := 0;
    } else {
      assert groups + [] == groups;
      var j := WalkLayer(x, filter, m, groups, [], n);
      var t := Layer(x, filter, m, groups);
      hide Layer;
      assert [] + t.children == t.children;
      if t.stop.Running? {
        k := WalkIsLayered(x, filter, t.m, t.children, j);
        k := k + 1;
      } else {
        k := 1;
      }
    }
  }

  lemma {:induction false} LayersWalk(x: Inputs, filter: bool, m: Machine, groups: seq<seq<Ref>>, k: nat, w: (Machine, Stop))
    requires x.Valid() && Layers(x, filter, m, groups, k) == Some(w)
    ensures Walks(x, filter, true, m, groups, w)
    decreases k
  {
    hide Walks, Layer;
    if groups == [] {
      WalkEnds(x, filter, true, m);
    } else {
      var t := Layer(x, filter, m, groups);
      assert groups + [] == groups && [] + t.children == t.children;
      if t.stop.Running? { LayersWalk(x, filter, t.m, t.children, k - 1, w); }
      LayerWalks(x, filter, m, groups, [], w);
    }
  }

  /** With new edges behind, the worklist goes layer by layer. */
  lemma BehindIsLayerByLayer(x: Inputs, filter: bool, m: Machine, groups: seq<seq<Ref>>, w: (Machine, Stop))
    requires x.Valid()
    ensures Walks(x, filter, true, m, groups, w) <==> exists k: nat :: Layers(x, filter, m, groups, k) == Some(w)
  {
    hide TurnAll, Layers, WalkN;
    if Walks(x, filter, true, m, groups, w) {
      var n: nat :| WalkN(x, filter, true, m, groups, n) == Some(w);
      var k := WalkIsLayered(x, filter, m, groups, n);
      assert Layers(x, filter, m, groups, k) == Some(w);
    }
    if k: nat :| Layers(x, filter, m, groups, k) == Some(w) {
      LayersWalk(x, filter, m, groups, k, w);
    }
  }
}
