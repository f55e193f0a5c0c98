/** UTF-8 as section 3 of RFC 3629 defines it. A Dafny `char` is a Unicode scalar value, so a
    `string` is exactly what a valid-UTF-8 Go string holds. */
module Utf8 {
  import opened Alphabet
  import opened Ordering

  function EncodeRune(c: char): (bs: seq<Byte>)
    ensures 1 <= |bs| <= 4
  {
    var n := c as int;
    if n < 0x80 then [n]
    else if n < 0x800 then [0xC0 + n / 64, 0x80 + n % 64]
    else if n < 0x1_0000 then [0xE0 + n / 4096, 0x80 + n / 64 % 64, 0x80 + n % 64]
    else [0xF0 + n / 262144, 0x80 + n / 4096 % 64, 0x80 + n / 64 % 64, 0x80 + n % 64]
  }

  function Encode(s: string): seq<Byte> {
    if s == [] then [] else EncodeRune(s[0]) + Encode(s[1..])
  }

  lemma {:induction false} EncodeConcat(s: string, t: string)
    ensures Encode(s + t) == Encode(s) + Encode(t)
  {
    if s == [] {
      assert s + t == t;
    } else {
      assert (s + t)[1..] == s[1..] + t;
      EncodeConcat(s[1..], t);
    }
  }

  lemma EncodeEmpty()
    ensures Encode([]) == []
  {}

  /** Go's order on strings: lexicographic on their bytes. */
  predicate BytesLess(x: seq<Byte>, y: seq<Byte>)
    decreases x
  {
    y != [] && (x == [] || x[0] < y[0] || (x[0] == y[0] && BytesLess(x[1..], y[1..])))
  }

  /** x is below y at a position both have. */
  predicate DecidedBelow(x: seq<Byte>, y: seq<Byte>)
    decreases x
  {
    x != [] && y != [] && (x[0] < y[0] || (x[0] == y[0] && DecidedBelow(x[1..], y[1..])))
  }

  lemma {:induction false} DecidedStays(x: seq<Byte>, y: seq<Byte>, u: seq<Byte>, v: seq<Byte>)
    requires DecidedBelow(x, y)
    ensures BytesLess(x + u, y + v) && !BytesLess(y + v, x + u)
  {
    if x[0] == y[0] {
      assert (x + u)[1..] == x[1..] + u && (y + v)[1..] == y[1..] + v;
      DecidedStays(x[1..], y[1..], u, v);
    }
  }

  lemma {:induction false} BytesLessIsIrreflexive(x: seq<Byte>)
    ensures !BytesLess(x, x)
  {
    if x != [] { BytesLessIsIrreflexive(x[1..]); }
  }

  lemma {:induction false} SamePrefix(p: seq<Byte>, x: seq<Byte>, y: seq<Byte>)
    ensures BytesLess(p + x, p + y) <==> BytesLess(x, y)
  {
    if p == [] {
      assert p + x == x && p + y == y;
    } else {
      assert (p + x)[1..] == p[1..] + x && (p + y)[1..] == p[1..] + y;
      SamePrefix(p[1..], x, y);
    }
  }

  lemma {:induction false} DecidedAt(x: seq<Byte>, y: seq<Byte>, i: nat)
    requires i < |x| && i < |y| && x[i] < y[i]
    requires forall k | 0 <= k < i :: x[k] == y[k]
    ensures DecidedBelow(x, y)
  {
    if i > 0 {
      assert forall k | 0 <= k < i - 1 :: x[1..][k] == x[k + 1] && y[1..][k] == y[k + 1];
      DecidedAt(x[1..], y[1..], i - 1);
    }
  }

  /** Comparing two numbers by their last base-64 digit and the rest. */
  lemma LastDigit(m: nat, n: nat)
    ensures m < n <==> m / 64 < n / 64 || (m / 64 == n / 64 && m % 64 < n % 64)
    ensures m / 4096 == m / 64 / 64 && m / 262144 == m / 64 / 64 / 64
  {}

  lemma RuneOrder(c: char, d: char)
    requires c < d
    ensures DecidedBelow(EncodeRune(c), EncodeRune(d))
  {
    var m, n := c as int, d as int;
    var x, y := EncodeRune(c), EncodeRune(d);
    if |x| < |y| {
      DecidedAt(x, y, 0);
    } else {
      RuneOrderSameLength(c, d);
    }
  }

  lemma RuneOrderSameLength(c: char, d: char)
    requires c < d && |EncodeRune(c)| == |EncodeRune(d)|
    ensures DecidedBelow(EncodeRune(c), EncodeRune(d))
  {
    hide DecidedBelow;
    var x, y := EncodeRune(c), EncodeRune(d);
    var i := FirstDifference(c, d);
    DecidedAt(x, y, i);
  }

  /** Two code points of one length first differ in a byte that is smaller in the smaller one. */
  lemma FirstDifference(c: char, d: char) returns (i: nat)
    requires c < d && |EncodeRune(c)| == |EncodeRune(d)|
    ensures i < |EncodeRune(c)| && EncodeRune(c)[..i] == EncodeRune(d)[..i] && EncodeRune(c)[i] < EncodeRune(d)[i]
  {
    var m, n := c as int, d as int;
    var x, y := EncodeRune(c), EncodeRune(d);
    LastDigit(m, n);
    LastDigit(n, m);
    LastDigit(m / 64, n / 64);
    LastDigit(n / 64, m / 64);
    LastDigit(m / 64 / 64, n / 64 / 64);
    i := if x[0] != y[0] then 0 else if x[1] != y[1] then 1 else if x[2] != y[2] then 2 else 3;
  }

  /** Byte order on UTF-8 is code-point order (section 1 of RFC 3629). */
  lemma {:induction false} ByteOrderIsCodePointOrder(a: string, b: string)
    ensures BytesLess(Encode(a), Encode(b)) <==> Less(a, b)
  {
    if a == [] || b == [] {
    } else if a[0] < b[0] {
      RuneOrder(a[0], b[0]);
      DecidedStays(EncodeRune(a[0]), EncodeRune(b[0]), Encode(a[1..]), Encode(b[1..]));
    } else if b[0] < a[0] {
      RuneOrder(b[0], a[0]);
      DecidedStays(EncodeRune(b[0]), EncodeRune(a[0]), Encode(b[1..]), Encode(a[1..]));
    } else {
      SamePrefix(EncodeRune(a[0]), Encode(a[1..]), Encode(b[1..]));
      ByteOrderIsCodePointOrder(a[1..], b[1..]);
    }
  }

  lemma EncodeInjective(a: string, b: string)
    requires Encode(a) == Encode(b)
    ensures a == b
  {
    LessIsTotal(a, b);
    ByteOrderIsCodePointOrder(a, b);
    ByteOrderIsCodePointOrder(b, a);
    BytesLessIsIrreflexive(Encode(a));
  }

  /** The bits a continuation byte carries. */
  function Tail(b: Byte): int { b - 0x80 }

  /** The four forms of section 3 of RFC 3629, each with its range, its leading bits and its continuation bytes. */
  lemma FormsInNumbers(c: char)
    ensures var n, b := c as int, EncodeRune(c);
            if n <= 0x7F then b == [n]
            else
              && (forall i | 1 <= i < |b| :: 0x80 <= b[i] <= 0xBF)
              && if n <= 0x7FF then |b| == 2 && 0xC2 <= b[0] <= 0xDF && n == 64 * (b[0] - 0xC0) + Tail(b[1])
                 else if n <= 0xFFFF then
                   |b| == 3 && 0xE0 <= b[0] <= 0xEF && n == 4096 * (b[0] - 0xE0) + 64 * Tail(b[1]) + Tail(b[2])
                 else
                   && |b| == 4 && 0xF0 <= b[0] <= 0xF4
                   && n == 262144 * (b[0] - 0xF0) + 4096 * Tail(b[1]) + 64 * Tail(b[2]) + Tail(b[3])
  {
    var n := c as int;
    assert n / 4096 == n / 64 / 64 && n / 262144 == n / 64 / 64 / 64;
  }
}
