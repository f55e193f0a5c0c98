/** Lexicographic order on strings, and sorting by it: what Go's string `<`, sort.Strings and
    slices.Sort promise. The canonical text of a UUID is ordered the same way. */
module Ordering {

  predicate Less(a: string, b: string)
    decreases a
  {
    b != [] && (a == [] || a[0] < b[0] || (a[0] == b[0] && Less(a[1..], b[1..])))
  }

  lemma {:induction false} LessIsIrreflexive(a: string)
    ensures !Less(a, a)
  {
    if a != [] { LessIsIrreflexive(a[1..]); }
  }

  lemma {:induction false} LessIsTransitive(a: string, b: string, c: string)
    requires Less(a, b) && Less(b, c)
    ensures Less(a, c)
  {
    if a != [] && a[0] == b[0] && b[0] == c[0] { LessIsTransitive(a[1..], b[1..], c[1..]); }
  }

  lemma {:induction false} LessIsTotal(a: string, b: string)
    ensures a == b || Less(a, b) || Less(b, a)
  {
    if a != [] && b != [] && a[0] == b[0] {
      LessIsTotal(a[1..], b[1..]);
      assert a == [a[0]] + a[1..] && b == [b[0]] + b[1..];
    }
  }

  /** a ends where b goes on, or is smaller where they first differ. */
  lemma {:induction false} LessInWords(a: string, b: string)
    ensures Less(a, b) <==> exists n :: 0 <= n <= |a| && n < |b| && a[..n] == b[..n] && (n == |a| || a[n] < b[n])
  {
    forall n | 0 < n <= |a| && n < |b| && a[..n] == b[..n] ensures a[0] == b[0] { assert a[..n][0] == b[..n][0]; }
    if a != [] && b != [] && a[0] == b[0] {
      LessInWords(a[1..], b[1..]);
      if n :| 0 <= n <= |a[1..]| && n < |b[1..]| && a[1..][..n] == b[1..][..n] && (n == |a[1..]| || a[1..][n] < b[1..][n]) {
        assert a[..n + 1] == [a[0]] + a[1..][..n] && b[..n + 1] == [b[0]] + b[1..][..n];
      }
      if n :| 0 <= n <= |a| && n < |b| && a[..n] == b[..n] && (n == |a| || a[n] < b[n]) {
        assert a[1..][..n - 1] == a[..n][1..] && b[1..][..n - 1] == b[..n][1..];
      }
    } else if b != [] {
      assert a[..0] == b[..0];
    }
  }

  /** Sorted, repetitions allowed. */
  ghost predicate Sorted(xs: seq<string>) {
    forall i, j | 0 <= i < j < |xs| :: xs[i] == xs[j] || Less(xs[i], xs[j])
  }

  /** Sorted with no repetition. */
  ghost predicate StrictlySorted(xs: seq<string>) {
    forall i, j | 0 <= i < j < |xs| :: Less(xs[i], xs[j])
  }

  ghost predicate NoRepeats<T>(xs: seq<T>) {
    forall i, j | 0 <= i < j < |xs| :: xs[i] != xs[j]
  }

  function Insert(x: string, xs: seq<string>): (ys: seq<string>)
    requires Sorted(xs)
    ensures Sorted(ys)
    ensures multiset(ys) == multiset{x} + multiset(xs)
  {
    if xs == [] then [x]
    else if x == xs[0] || Less(x, xs[0]) then
      InsertFront(x, xs);
      [x] + xs
    else
      LessIsTotal(x, xs[0]);
      var rest := Insert(x, xs[1..]);
      InsertBehind(x, xs, rest);
      assert xs == [xs[0]] + xs[1..];
      [xs[0]] + rest
  }

  lemma InsertFront(x: string, xs: seq<string>)
    requires Sorted(xs) && xs != [] && (x == xs[0] || Less(x, xs[0]))
    ensures Sorted([x] + xs)
  {
    forall j | 0 < j < |xs| ensures x == xs[j] || Less(x, xs[j]) {
      if xs[0] != xs[j] && x != xs[0] { LessIsTransitive(x, xs[0], xs[j]); }
    }
  }

  lemma InsertBehind(x: string, xs: seq<string>, rest: seq<string>)
    requires Sorted(xs) && xs != [] && Less(xs[0], x) && Sorted(rest)
    requires multiset(rest) == multiset{x} + multiset(xs[1..])
    ensures Sorted([xs[0]] + rest)
  {
    forall j | 0 <= j < |rest| ensures xs[0] == rest[j] || Less(xs[0], rest[j]) {
      assert rest[j] in multiset(rest);
      if rest[j] != x { assert rest[j] in xs[1..]; }
    }
  }

  /** What sort.Strings and slices.Sort leave in their slice. */
  function Sort(xs: seq<string>): (ys: seq<string>)
    ensures Sorted(ys)
    ensures multiset(ys) == multiset(xs)
  {
    if xs == [] then []
    else
      assert xs == [xs[0]] + xs[1..];
      Insert(xs[0], Sort(xs[1..]))
  }

  /** The sorted sequence is the only one with these elements: sorting forgets the input order. */
  lemma {:induction false} SortedIsUnique(a: seq<string>, b: seq<string>)
    requires Sorted(a) && Sorted(b) && multiset(a) == multiset(b)
    ensures a == b
  {
    if a == [] || b == [] {
      assert |multiset(a)| == |a| && |multiset(b)| == |b|;
    } else {
      SameLeast(a, b);
      assert a == [a[0]] + a[1..] && b == [b[0]] + b[1..];
      assert multiset(a[1..]) == multiset(a) - multiset{a[0]};
      assert multiset(b[1..]) == multiset(b) - multiset{b[0]};
      SortedIsUnique(a[1..], b[1..]);
    }
  }

  lemma SameLeast(a: seq<string>, b: seq<string>)
    requires Sorted(a) && Sorted(b) && a != [] && b != [] && multiset(a) == multiset(b)
    ensures a[0] == b[0]
  {
    assert a[0] in multiset(b) && b[0] in multiset(a);
    var i :| 0 <= i < |b| && b[i] == a[0];
    var j :| 0 <= j < |a| && a[j] == b[0];
    if a[0] != b[0] {
      LessIsTransitive(a[0], b[0], a[0]);
      LessIsIrreflexive(a[0]);
    }
  }

  lemma SortKeepsMembers(xs: seq<string>)
    ensures |Sort(xs)| == |xs|
    ensures forall x :: x in Sort(xs) <==> x in xs
  {
    var ys := Sort(xs);
    assert |multiset(ys)| == |ys| && |multiset(xs)| == |xs|;
    forall x ensures x in ys <==> x in xs {
      assert x in ys <==> x in multiset(ys);
      assert x in xs <==> x in multiset(xs);
    }
  }

  lemma {:induction false} NoRepeatsIsMultiplicityOne<T>(xs: seq<T>)
    ensures NoRepeats(xs) <==> (forall x | x in multiset(xs) :: multiset(xs)[x] == 1)
  {
    if xs == [] {
    } else {
      var rest := xs[1..];
      assert xs == [xs[0]] + rest;
      NoRepeatsIsMultiplicityOne(rest);
      if NoRepeats(xs) {
        assert forall i, j | 0 <= i < j < |rest| :: rest[i] == xs[i + 1] && rest[j] == xs[j + 1];
        assert xs[0] !in rest;
        forall x | x in multiset(xs) ensures multiset(xs)[x] == 1 {
          if x != xs[0] { assert x in multiset(rest); }
        }
      } else {
        var i, j :| 0 <= i < j < |xs| && xs[i] == xs[j];
        if i == 0 {
          assert xs[j] == rest[j - 1];
          assert multiset(xs)[xs[0]] >= 2;
        } else {
          assert rest[i - 1] == rest[j - 1];
          var x :| x in multiset(rest) && multiset(rest)[x] != 1;
          assert multiset(xs)[x] != 1;
        }
      }
    }
  }

  /** Sorting distinct strings gives a strictly sorted sequence. */
  lemma SortIsStrict(xs: seq<string>)
    requires NoRepeats(xs)
    ensures StrictlySorted(Sort(xs))
  {
    NoRepeatsIsMultiplicityOne(xs);
    NoRepeatsIsMultiplicityOne(Sort(xs));
  }

  /** A strictly sorted sequence is determined by its members. */
  lemma StrictlySortedIsUnique(a: seq<string>, b: seq<string>)
    requires StrictlySorted(a) && StrictlySorted(b)
    requires forall x :: x in a <==> x in b
    ensures a == b
  {
    StrictlySortedHasNoRepeats(a);
    StrictlySortedHasNoRepeats(b);
    NoRepeatsIsMultiplicityOne(a);
    NoRepeatsIsMultiplicityOne(b);
    forall x ensures multiset(a)[x] == multiset(b)[x] {
      assert x in a <==> x in multiset(a);
      assert x in b <==> x in multiset(b);
    }
    assert multiset(a) == multiset(b);
    SortedIsUnique(a, b);
  }

  lemma StrictlySortedHasNoRepeats(a: seq<string>)
    requires StrictlySorted(a)
    ensures NoRepeats(a)
  {
    forall i, j | 0 <= i < j < |a| ensures a[i] != a[j] { LessIsIrreflexive(a[i]); }
  }

  // ----- sets in order -----

  /** The members of a set, in some order. */
  ghost function SomeOrder(s: set<string>): (r: seq<string>)
    ensures NoRepeats(r) && forall x :: x in r <==> x in s
  {
    if s == {} then []
    else
      var x :| x in s;
      [x] + SomeOrder(s - {x})
  }

  /** The members of a set, sorted. */
  ghost function SortedSet(s: set<string>): (r: seq<string>)
    ensures StrictlySorted(r) && forall x :: x in r <==> x in s
  {
    SortIsStrict(SomeOrder(s));
    SortKeepsMembers(SomeOrder(s));
    Sort(SomeOrder(s))
  }

  /** A map's keys collected in whatever order it is walked, then sorted. */
  method SortedMembers(s: set<string>) returns (r: seq<string>)
    ensures StrictlySorted(r) && forall x :: x in r <==> x in s
  {
    hide Sort, StrictlySorted;
    r := [];
    var rest := s;
    while rest != {}
      invariant rest <= s && NoRepeats(r) && forall x :: x in r <==> x in s - rest
      decreases rest
    {
      var x :| x in rest;
      assert x !in r;
      rest := rest - {x};
      r := r + [x];
    }
    SortIsStrict(r);
    SortKeepsMembers(r);
    r := Sort(r);
  }
}
