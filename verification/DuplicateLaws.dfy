/** The two duplicate-key checks told of the values inside a document and how deep they lie. */
module DuplicateLaws {
  import opened Options
  import opened DuplicateKeys

  predicate Child(d: Doc, x: Doc) {
    match d
    case ArrayDoc(items) => x in items
    case ObjectDoc(members) => exists m | m in members :: m.1 == x
    case _ => false
  }

  lemma PartsAreChildren(d: Doc)
    ensures d.ArrayDoc? ==> forall x | x in d.items :: Child(d, x)
    ensures d.ObjectDoc? ==> forall m | m in d.members :: Child(d, m.1)
  {
    if d.ObjectDoc? { forall m | m in d.members ensures Child(d, m.1) {} }
  }

  /** x lies k levels inside d; d itself lies at level 0. */
  ghost predicate Inside(d: Doc, x: Doc, k: nat)
    decreases k
  {
    if k == 0 then d == x else exists c :: Child(d, c) && Inside(c, x, k - 1)
  }

  /** No member of an object has the key of an earlier one. */
  predicate KeysDiffer(x: Doc) {
    x.ObjectDoc? ==> forall i | 0 <= i < |x.members| :: forall j | 0 <= j < i :: x.members[j].0 != x.members[i].0
  }

  ghost predicate AllDiffer(d: Doc) {
    forall x, k: nat | Inside(d, x, k) :: KeysDiffer(x)
  }

  ghost predicate NoNull(d: Doc) {
    forall x, k: nat | Inside(d, x, k) :: x != NullDoc
  }

  ghost predicate NoDeeper(d: Doc, n: int) {
    forall x, k: nat | Inside(d, x, k) :: k <= n
  }

  lemma InsideChild(d: Doc, c: Doc, x: Doc, k: nat)
    requires Child(d, c) && Inside(c, x, k)
    ensures Inside(d, x, k + 1)
  {}

  /** What holds of every value inside: it holds of d, and of everything inside its children. */
  lemma {:induction false} CleanInside(d: Doc)
    ensures Clean(d) <==> AllDiffer(d)
    decreases d
  {
    forall c | Child(d, c) ensures Clean(c) <==> AllDiffer(c) {
      CleanInside(c);
    }
    CleanChildren(d);
    if Clean(d) {
      forall x, k: nat | Inside(d, x, k) ensures KeysDiffer(x) {
        if k > 0 { var c :| Child(d, c) && Inside(c, x, k - 1); }
      }
    } else {
      hide Clean;
      assert Inside(d, d, 0);
      if KeysDiffer(d) {
        var c :| Child(d, c) && !Clean(c);
        var x, k: nat :| Inside(c, x, k) && !KeysDiffer(x);
        InsideChild(d, c, x, k);
        assert !AllDiffer(d);
      }
    }
  }

  lemma CleanChildren(d: Doc)
    ensures Clean(d) ==> KeysDiffer(d) && forall c | Child(d, c) :: Clean(c)
    ensures Clean(d) <== KeysDiffer(d) && forall c | Child(d, c) :: Clean(c)
  {
    PartsAreChildren(d);
    if d.ObjectDoc? { assert NoRepeatedKey(d.members) <==> KeysDiffer(d); }
  }

  lemma {:induction false} NullFreeInside(d: Doc)
    ensures NullFree(d) <==> NoNull(d)
    decreases d
  {
    forall c | Child(d, c) ensures NullFree(c) <==> NoNull(c) {
      NullFreeInside(c);
    }
    NullFreeChildren(d);
    hide NullFree, Child;
    if NullFree(d) {
      forall x, k: nat | Inside(d, x, k) ensures x != NullDoc {
        if k > 0 { var c :| Child(d, c) && Inside(c, x, k - 1); }
      }
    } else {
      assert Inside(d, d, 0);
      if d != NullDoc {
        var c :| Child(d, c) && !NullFree(c);
        var x, k: nat :| Inside(c, x, k) && x == NullDoc;
        InsideChild(d, c, x, k);
        assert !NoNull(d);
      }
    }
  }

  lemma NullFreeChildren(d: Doc)
    ensures NullFree(d) ==> d != NullDoc && forall c | Child(d, c) :: NullFree(c)
    ensures NullFree(d) <== d != NullDoc && forall c | Child(d, c) :: NullFree(c)
  {
    PartsAreChildren(d);
  }

  lemma {:induction false} DepthInside(d: Doc, n: int)
    requires n >= 0
    ensures WithinDepth(d, n) <==> NoDeeper(d, n)
    decreases d
  {
    DepthChildren(d, n);
    if n > 0 {
      forall c | Child(d, c) ensures WithinDepth(c, n - 1) <==> NoDeeper(c, n - 1) {
        DepthInside(c, n - 1);
      }
    }
    hide WithinDepth, Child;
    if WithinDepth(d, n) {
      forall x, k: nat | Inside(d, x, k) ensures k <= n {
        if k > 0 { var c :| Child(d, c) && Inside(c, x, k - 1); }
      }
    } else {
      var c :| Child(d, c) && (n == 0 || !WithinDepth(c, n - 1));
      if n == 0 {
        assert Inside(c, c, 0);
        InsideChild(d, c, c, 0);
      } else {
        var x, k: nat :| Inside(c, x, k) && k > n - 1;
        InsideChild(d, c, x, k);
        assert !NoDeeper(d, n);
      }
    }
  }

  lemma DepthChildren(d: Doc, n: int)
    requires n >= 0
    ensures WithinDepth(d, n) ==> forall c | Child(d, c) :: n > 0 && WithinDepth(c, n - 1)
    ensures WithinDepth(d, n) <== forall c | Child(d, c) :: n > 0 && WithinDepth(c, n - 1)
  {
    PartsAreChildren(d);
    forall c | Child(d, c) && WithinDepth(d, n) ensures n > 0 && WithinDepth(c, n - 1) {
      if d.ObjectDoc? {
        var m :| m in d.members && m.1 == c;
        assert WithinDepth(m.1, n - 1);
      } else {
        assert c in d.items && WithinDepth(c, n - 1);
      }
    }
  }

  /** The scanner accepts a document exactly when no object anywhere inside repeats a key. */
  lemma ScannerAccepts(d: Doc)
    ensures Scan([], Tokens(d)) <==> AllDiffer(d)
  {
    ScanValue([], d, []);
    assert Tokens(d) + [] == Tokens(d);
    CleanInside(d);
    hide Scan, Clean, Inside, KeysDiffer;
  }

  /** The recursive checker consumes a document exactly when nothing lies more than 32 levels inside, no object repeats a
      key and, where null is not allowed, nothing is null. */
  lemma CheckerAccepts(d: Doc, allowNull: bool)
    ensures Check(Tokens(d), 0, allowNull) == Some([]) <==>
              NoDeeper(d, 32) && AllDiffer(d) && (allowNull || NoNull(d))
    ensures Check(Tokens(d), 0, allowNull) in {Some([]), None}
  {
    CheckValueIff(d, 0, allowNull, []);
    assert Tokens(d) + [] == Tokens(d);
    CleanInside(d);
    NullFreeInside(d);
    DepthInside(d, 32);
    hide Check, Clean, NullFree, WithinDepth, Inside, KeysDiffer;
  }
}
