/** The decoder against the grammar of RFC 8259: concrete syntax trees, white space and escapes included, whose texts the
    decoder reads as their values, and of which every text it reads is one. */
module JsonGrammar {
  import opened Options
  import opened JsonText
  import opened CanonicalText

  // ----- strings (section 7) -----

  /** A character as it stands, a two-character escape, or the four digits of a \u escape. */
  datatype Piece = Plain(c: char) | Short(e: char) | Unit(h: string)

  predicate IsHex(c: char) { '0' <= c <= '9' || 'a' <= c <= 'f' || 'A' <= c <= 'F' }

  predicate PieceOk(p: Piece) {
    match p
    case Plain(c) => '\U{20}' <= c && c != '"' && c != '\\'
    case Short(e) => e in {'"', '\\', '/', 'b', 'f', 'n', 'r', 't'}
    case Unit(h) => |h| == 4 && forall i | 0 <= i < 4 :: IsHex(h[i])
  }

  function PieceText(p: Piece): string {
    match p
    case Plain(c) => [c]
    case Short(e) => ['\\', e]
    case Unit(h) => ['\\', 'u'] + h
  }

  function PiecesText(ps: seq<Piece>): string {
    if ps == [] then [] else PieceText(ps[0]) + PiecesText(ps[1..])
  }

  predicate PiecesOk(ps: seq<Piece>) { forall i | 0 <= i < |ps| :: PieceOk(ps[i]) }

  function HexOf(c: char): int { if c <= '9' then c as int - 48 else if c <= 'F' then c as int - 55 else c as int - 87 }

  function UnitOf(h: string): int
    requires |h| == 4
  {
    4096 * HexOf(h[0]) + 256 * HexOf(h[1]) + 16 * HexOf(h[2]) + HexOf(h[3])
  }

  function ShortOf(e: char): char {
    match e
    case 'b' => '\U{8}'
    case 'f' => '\U{C}'
    case 'n' => '\U{A}'
    case 'r' => '\U{D}'
    case 't' => '\U{9}'
    case _ => e
  }

  predicate IsUnit(ps: seq<Piece>, low: int, high: int) {
    ps != [] && ps[0].Unit? && |ps[0].h| == 4 && low <= UnitOf(ps[0].h) < high
  }

  /** Two units that are a high and a low surrogate are one character; a surrogate left alone is U+FFFD. */
  function Means(ps: seq<Piece>): string
    requires PiecesOk(ps)
  {
    if ps == [] then []
    else
      match ps[0]
      case Plain(c) => [c] + Means(ps[1..])
      case Short(e) => [ShortOf(e)] + Means(ps[1..])
      case Unit(h) =>
        HexRange(h);
        if !IsUnit(ps, 0xD800, 0xE000) then [UnitOf(h) as char] + Means(ps[1..])
        else if IsUnit(ps, 0xD800, 0xDC00) && IsUnit(ps[1..], 0xDC00, 0xE000)
        then [(0x1_0000 + 0x400 * (UnitOf(h) - 0xD800) + (UnitOf(ps[1].h) - 0xDC00)) as char] + Means(ps[2..])
        else ['\U{FFFD}'] + Means(ps[1..])
  }

  lemma HexRange(h: string)
    requires |h| == 4 && forall i | 0 <= i < 4 :: IsHex(h[i])
    ensures 0 <= UnitOf(h) < 0x1_0000
  {
    assert forall i | 0 <= i < 4 :: 0 <= HexOf(h[i]) < 16;
  }

  lemma HexIsHexValue(c: char)
    ensures HexValue(c) == if IsHex(c) then Some(HexOf(c)) else None
  {}

  /** The decoder's four digits. */
  lemma Hex4IsUnit(s: string)
    ensures Hex4(s).Some? <==> |s| >= 4 && forall i | 0 <= i < 4 :: IsHex(s[i])
    ensures Hex4(s).Some? ==> Hex4(s) == Some(UnitOf(s[..4]))
  {
    if |s| >= 4 {
      HexIsHexValue(s[0]);
      HexIsHexValue(s[1]);
      HexIsHexValue(s[2]);
      HexIsHexValue(s[3]);
    }
  }

  // Reading a spelled string.

  lemma ReadPlainOrShort(p: Piece, tail: string)
    requires PieceOk(p) && !p.Unit?
    ensures var t := PieceText(p) + tail;
            t[0] != '"' && t[0] >= ' ' &&
            (if t[0] == '\\' then Escaped(t[1..]) else Some((t[0], t[1..])))
            == Some((if p.Plain? then p.c else ShortOf(p.e), tail))
  {}

  /** What a text of pieces starts with when it starts with a \u escape. */
  lemma StartsWithUnit(ps: seq<Piece>, rest: string)
    requires PiecesOk(ps)
    ensures var t := PiecesText(ps) + (['"'] + rest);
            (|t| >= 2 && t[0] == '\\' && t[1] == 'u') <==> (ps != [] && ps[0].Unit?)
    ensures ps != [] && ps[0].Unit? ==>
              var t := PiecesText(ps) + (['"'] + rest);
              |t| >= 6 && t[2..6] == ps[0].h && Hex4(t[2..]) == Some(UnitOf(ps[0].h)) && t[6..] == PiecesText(ps[1..]) + (['"'] + rest)
  {
    hide PiecesText, PiecesOk, Hex4, UnitOf;
    if ps != [] && ps[0].Unit? {
      UnitFirst(ps, ['"'] + rest);
    } else {
      NoUnitFirst(ps, rest);
    }
  }

  lemma UnitFirst(ps: seq<Piece>, end: string)
    requires PiecesOk(ps) && ps != [] && ps[0].Unit?
    ensures var t := PiecesText(ps) + end;
            && |t| >= 6 && t[0] == '\\' && t[1] == 'u' && t[2..6] == ps[0].h && |ps[0].h| == 4
            && Hex4(t[2..]) == Some(UnitOf(ps[0].h)) && t[6..] == PiecesText(ps[1..]) + end
  {
    var p, more := ps[0], PiecesText(ps[1..]) + end;
    assert PieceOk(p);
    HexedIs(p);
    FirstText(ps);
    hide PiecesText, PieceOk, PiecesOk, Hex4, UnitOf, IsHex, PieceText;
    assert PiecesText(ps) + end == PieceText(p) + more;
    UnitText(p.h, more);
    Hex4IsUnit(p.h + more);
  }

  lemma NoUnitFirst(ps: seq<Piece>, rest: string)
    requires PiecesOk(ps) && (ps == [] || !ps[0].Unit?)
    ensures var t := PiecesText(ps) + (['"'] + rest); !(|t| >= 2 && t[0] == '\\' && t[1] == 'u')
  {
    if ps != [] {
      var more := PiecesText(ps[1..]) + (['"'] + rest);
      assert PieceOk(ps[0]);
      FirstText(ps);
      hide PiecesText, PieceOk, PieceText;
      assert PiecesText(ps) + (['"'] + rest) == PieceText(ps[0]) + more;
      NoUnitText(ps[0], more);
    }
  }

  lemma FirstText(ps: seq<Piece>)
    requires ps != []
    ensures PiecesText(ps) == PieceText(ps[0]) + PiecesText(ps[1..])
  {}

  lemma HexedIs(p: Piece)
    requires PieceOk(p) && p.Unit?
    ensures |p.h| == 4 && forall i | 0 <= i < 4 :: IsHex(p.h[i])
  {}

  lemma UnitText(h: string, more: string)
    requires |h| == 4
    ensures var t := PieceText(Unit(h)) + more;
            t[0] == '\\' && t[1] == 'u' && t[2..6] == h && t[2..] == h + more && t[6..] == more
    ensures (h + more)[..4] == h && forall i | 0 <= i < 4 :: (h + more)[i] == h[i]
  {}

  lemma NoUnitText(p: Piece, more: string)
    requires PieceOk(p) && !p.Unit?
    ensures var t := PieceText(p) + more; !(|t| >= 2 && t[0] == '\\' && t[1] == 'u')
  {}

  lemma {:induction false} ReadUnit(ps: seq<Piece>, rest: string) returns (k: nat)
    requires PiecesOk(ps) && ps != [] && ps[0].Unit?
    ensures 1 <= k <= |ps| && k <= 2
    ensures var t := PiecesText(ps) + (['"'] + rest);
            |t| >= 2 && t[0] == '\\' && Escaped(t[1..]).Some? && Escaped(t[1..]).value.1 == PiecesText(ps[k..]) + (['"'] + rest)
    ensures var t := PiecesText(ps) + (['"'] + rest);
            Means(ps) == [Escaped(t[1..]).value.0] + Means(ps[k..])
  {
    hide PiecesText, Hex4, UnitOf;
    HexRange(ps[0].h);
    var t := PiecesText(ps) + (['"'] + rest);
    StartsWithUnit(ps, rest);
    StartsWithUnit(ps[1..], rest);
    assert t[1..][1..] == t[2..] && t[2..][4..] == t[6..];
    var u := t[2..];
    if IsUnit(ps, 0xD800, 0xDC00) && IsUnit(ps[1..], 0xDC00, 0xE000) {
      k := 2;
      HexRange(ps[1].h);
      assert u[6..] == t[6..][2..] && u[10..] == t[6..][6..] && u[4] == t[6..][0] && u[5] == t[6..][1];
      assert ps[1..][0] == ps[1] && ps[1..][1..] == ps[2..];
    } else {
      k := 1;
      if |u| >= 6 && u[4] == '\\' && u[5] == 'u' {
        assert u[6..] == t[6..][2..] && u[4] == t[6..][0] && u[5] == t[6..][1];
      }
    }
  }

  /** One character, and then the rest of the string. */
  lemma StringStep(t: string, c: char, tail: string)
    requires t != [] && t[0] != '"' && t[0] >= ' '
    requires (if t[0] == '\\' then Escaped(t[1..]) else Some((t[0], t[1..]))) == Some((c, tail))
    ensures ParseString(t) == match ParseString(tail)
                              case None => None
                              case Some((cs, rest)) => Some(([c] + cs, rest))
  {
    hide Escaped;
  }

  lemma StringEnds(rest: string)
    ensures ParseString(['"'] + rest) == Some(([], rest))
  {
    assert (['"'] + rest)[1..] == rest;
  }

  lemma StringOpens(s: string) returns (c: char, tail: string)
    requires ParseString(s).Some? && s[0] != '"'
    ensures s[0] >= ' ' && (if s[0] == '\\' then Escaped(s[1..]) else Some((s[0], s[1..]))) == Some((c, tail)) && |tail| < |s|
    ensures ParseString(tail).Some?
    ensures ParseString(s) == Some(([c] + ParseString(tail).value.0, ParseString(tail).value.1))
  {
    hide Escaped;
    var first := if s[0] == '\\' then Escaped(s[1..]) else Some((s[0], s[1..]));
    c, tail := first.value.0, first.value.1;
  }

  /** The decoder reads a spelled string as what it means. */
  lemma {:induction false} ReadSpelled(ps: seq<Piece>, rest: string)
    requires PiecesOk(ps)
    ensures ParseString(PiecesText(ps) + (['"'] + rest)) == Some((Means(ps), rest))
    decreases |ps|
  {
    hide ParseString, Escaped, PieceText, PieceOk;
    var end := ['"'] + rest;
    if ps == [] {
      assert PiecesText(ps) + end == end;
      StringEnds(rest);
    } else if ps[0].Unit? {
      var k := ReadUnit(ps, rest);
      hide PiecesText, Means;
      var t := PiecesText(ps) + end;
      StringStep(t, Escaped(t[1..]).value.0, PiecesText(ps[k..]) + end);
      ReadSpelled(ps[k..], rest);
    } else {
      var p, tail := ps[0], PiecesText(ps[1..]) + end;
      assert ps == [p] + ps[1..];
      MeansFirst(p, ps[1..]);
      TextOfFirst(p, ps[1..]);
      ReadPlainOrShort(p, tail);
      hide PiecesText, Means;
      assert PiecesText(ps) + end == PieceText(p) + tail;
      StringStep(PieceText(p) + tail, if p.Plain? then p.c else ShortOf(p.e), tail);
      ReadSpelled(ps[1..], rest);
    }
  }

  /** And every string the decoder reads is spelled so. */
  lemma {:induction false} SpelledBy(s: string) returns (ps: seq<Piece>)
    requires ParseString(s).Some?
    ensures PiecesOk(ps) && s == PiecesText(ps) + (['"'] + ParseString(s).value.1) && Means(ps) == ParseString(s).value.0
    decreases |s|
  {
    if s[0] == '"' {
      ps := [];
      assert s == ['"'] + s[1..];
      StringEnds(s[1..]);
    } else {
      hide ParseString, Escaped, PiecesText, PieceText, PieceOk, Means;
      var c, rest := StringOpens(s);
      var tail := SpelledBy(rest);
      if s[0] == '\\' && s[1] == 'u' {
        ps := UnitsBy(s, tail, ParseString(s).value.1);
      } else {
        var p := PieceBy(s);
        ps := [p] + tail;
        TextOfFirst(p, tail);
        MeansFirst(p, tail);
        Joined(PieceText(p), PiecesText(tail), ['"'] + ParseString(s).value.1);
      }
    }
  }

  lemma Joined(a: string, b: string, c: string)
    ensures a + (b + c) == (a + b) + c
  {}

  lemma PieceBy(s: string) returns (p: Piece)
    requires s != [] && s[0] != '"' && s[0] >= ' ' && !(|s| > 1 && s[0] == '\\' && s[1] == 'u')
    requires s[0] == '\\' ==> Escaped(s[1..]).Some?
    ensures PieceOk(p) && !p.Unit?
    ensures var (c, more) := if s[0] == '\\' then Escaped(s[1..]).value else (s[0], s[1..]);
            s == PieceText(p) + more && c == if p.Plain? then p.c else ShortOf(p.e)
  {
    p := if s[0] == '\\' then Short(s[1]) else Plain(s[0]);
  }

  lemma MeansFirst(p: Piece, tail: seq<Piece>)
    requires PieceOk(p) && !p.Unit? && PiecesOk(tail)
    ensures PiecesOk([p] + tail) && Means([p] + tail) == [if p.Plain? then p.c else ShortOf(p.e)] + Means(tail)
  {
    hide PieceOk;
    assert ([p] + tail)[1..] == tail;
  }

  lemma UnitsBy(s: string, tail: seq<Piece>, rest: string) returns (ps: seq<Piece>)
    requires |s| >= 2 && s[0] == '\\' && s[1] == 'u' && Escaped(s[1..]).Some? && PiecesOk(tail)
    requires Escaped(s[1..]).value.1 == PiecesText(tail) + (['"'] + rest)
    ensures PiecesOk(ps) && s == PiecesText(ps) + (['"'] + rest) && Means(ps) == [Escaped(s[1..]).value.0] + Means(tail)
  {
    hide UnitOf, Hex4, PiecesText, Means;
    assert s[1..][1..] == s[2..];
    var u := s[2..];
    Hex4IsUnit(u);
    assert s == ['\\', 'u'] + u;
    var v := UnitOf(u[..4]);
    if 0xD800 <= v < 0xDC00 && |u| >= 6 && u[4] == '\\' && u[5] == 'u' && Hex4(u[6..]).Some? && 0xDC00 <= Hex4(u[6..]).value < 0xE000 {
      Hex4IsUnit(u[6..]);
      ps := PairBy(u, tail, rest);
    } else {
      ps := LoneBy(u, tail, rest);
    }
  }

  lemma TextOfFirst(p: Piece, tail: seq<Piece>)
    ensures PiecesText([p] + tail) == PieceText(p) + PiecesText(tail)
  {
    hide PieceText;
    assert ([p] + tail)[1..] == tail;
  }

  lemma MeansPair(h: string, g: string, tail: seq<Piece>)
    requires PiecesOk(tail) && PieceOk(Unit(h)) && PieceOk(Unit(g))
    requires 0xD800 <= UnitOf(h) < 0xDC00 && 0xDC00 <= UnitOf(g) < 0xE000
    ensures PiecesOk([Unit(h)] + ([Unit(g)] + tail))
    ensures Means([Unit(h)] + ([Unit(g)] + tail))
         == [(0x1_0000 + 0x400 * (UnitOf(h) - 0xD800) + (UnitOf(g) - 0xDC00)) as char] + Means(tail)
  {
    HexRange(h);
    HexRange(g);
    var ps := [Unit(h)] + ([Unit(g)] + tail);
    assert ps[1..] == [Unit(g)] + tail && ps[2..] == tail;
    assert ps[0] == Unit(h) && ps[1] == Unit(g) && ps[1..][0] == Unit(g);
    hide UnitOf, PieceOk;
  }

  lemma MeansLone(h: string, tail: seq<Piece>)
    requires PiecesOk(tail) && PieceOk(Unit(h))
    requires 0xD800 <= UnitOf(h) < 0xDC00 ==> !IsUnit(tail, 0xDC00, 0xE000)
    ensures PiecesOk([Unit(h)] + tail) && 0 <= UnitOf(h) < 0x1_0000
    ensures Means([Unit(h)] + tail) == [if 0xD800 <= UnitOf(h) < 0xE000 then '\U{FFFD}' else UnitOf(h) as char] + Means(tail)
  {
    HexRange(h);
    hide UnitOf, PieceOk;
    assert ([Unit(h)] + tail)[1..] == tail;
  }

  lemma PairBy(u: string, tail: seq<Piece>, rest: string) returns (ps: seq<Piece>)
    requires |u| >= 10 && (forall i | 0 <= i < 4 :: IsHex(u[i])) && (forall i | 6 <= i < 10 :: IsHex(u[i]))
    requires u[4] == '\\' && u[5] == 'u' && PiecesOk(tail)
    requires 0xD800 <= UnitOf(u[..4]) < 0xDC00 && 0xDC00 <= UnitOf(u[6..][..4]) < 0xE000
    requires u[10..] == PiecesText(tail) + (['"'] + rest)
    ensures PiecesOk(ps) && ['\\', 'u'] + u == PiecesText(ps) + (['"'] + rest)
    ensures Means(ps) == [(0x1_0000 + 0x400 * (UnitOf(u[..4]) - 0xD800) + (UnitOf(u[6..][..4]) - 0xDC00)) as char] + Means(tail)
  {
    var h, g := u[..4], u[6..][..4];
    assert PieceOk(Unit(h)) && PieceOk(Unit(g));
    hide UnitOf, Means, PiecesText, PieceOk;
    ps := [Unit(h)] + ([Unit(g)] + tail);
    MeansPair(h, g, tail);
    TextOfFirst(Unit(h), [Unit(g)] + tail);
    TextOfFirst(Unit(g), tail);
    JoinPair(u, PiecesText(tail), ['"'] + rest);
  }

  lemma JoinPair(u: string, text: string, end: string)
    requires |u| >= 10 && u[4] == '\\' && u[5] == 'u' && u[10..] == text + end
    ensures ['\\', 'u'] + u == ((['\\', 'u'] + u[..4]) + ((['\\', 'u'] + u[6..][..4]) + text)) + end
  {
    assert u == u[..4] + (['\\', 'u'] + (u[6..][..4] + (text + end)));
  }

  lemma JoinLone(u: string, text: string, end: string)
    requires |u| >= 4 && u[4..] == text + end
    ensures ['\\', 'u'] + u == ((['\\', 'u'] + u[..4]) + text) + end
  {
    assert u == u[..4] + (text + end);
  }

  lemma LoneBy(u: string, tail: seq<Piece>, rest: string) returns (ps: seq<Piece>)
    requires |u| >= 4 && (forall i | 0 <= i < 4 :: IsHex(u[i])) && PiecesOk(tail)
    requires 0xD800 <= UnitOf(u[..4]) < 0xDC00 ==>
               !(|u| >= 6 && u[4] == '\\' && u[5] == 'u' && Hex4(u[6..]).Some? && 0xDC00 <= Hex4(u[6..]).value < 0xE000)
    requires u[4..] == PiecesText(tail) + (['"'] + rest)
    ensures PiecesOk(ps) && ['\\', 'u'] + u == PiecesText(ps) + (['"'] + rest)
    ensures 0 <= UnitOf(u[..4]) < 0x1_0000
    ensures Means(ps) == [if 0xD800 <= UnitOf(u[..4]) < 0xE000 then '\U{FFFD}' else UnitOf(u[..4]) as char] + Means(tail)
  {
    var h := u[..4];
    assert PieceOk(Unit(h));
    hide UnitOf, Hex4, Means, PiecesText, PieceOk;
    ps := [Unit(h)] + tail;
    StartsWithUnit(tail, rest);
    if |u| >= 6 { assert u[6..] == u[4..][2..] && u[4] == u[4..][0] && u[5] == u[4..][1]; }
    MeansLone(h, tail);
    TextOfFirst(Unit(h), tail);
    JoinLone(u, PiecesText(tail), ['"'] + rest);
  }

  // ----- numbers (section 6) -----

  predicate AllDigits(s: string) { forall i | 0 <= i < |s| :: '0' <= s[i] <= '9' }

  predicate IntOk(s: string) { s != [] && AllDigits(s) && (s[0] == '0' ==> |s| == 1) }

  predicate FracOk(s: string) { s == [] || (s[0] == '.' && |s| > 1 && AllDigits(s[1..])) }

  predicate ExpOk(s: string) {
    s == [] || (s[0] in {'e', 'E'} && var d := if |s| > 1 && s[1] in {'+', '-'} then s[2..] else s[1..]; d != [] && AllDigits(d))
  }

  /** A minus or nothing, the integer, the fraction and the exponent. */
  ghost predicate IsLiteral(s: string) {
    exists minus, whole, frac, exp :: minus in {"", "-"} && IntOk(whole) && FracOk(frac) && ExpOk(exp) && s == minus + (whole + (frac + exp))
  }

  lemma {:induction false} DigitsOf(d: string, rest: string)
    requires AllDigits(d) && (rest != [] ==> !('0' <= rest[0] <= '9'))
    ensures Digits(d + rest) == |d|
  {
    if d == [] {
      assert d + rest == rest;
    } else {
      assert (d + rest)[1..] == d[1..] + rest;
      DigitsOf(d[1..], rest);
    }
  }

  lemma {:induction false} DigitsAreDigits(s: string)
    ensures AllDigits(s[..Digits(s)])
  {
    if s != [] && '0' <= s[0] <= '9' {
      DigitsAreDigits(s[1..]);
      assert s[..Digits(s)] == [s[0]] + s[1..][..Digits(s[1..])];
    }
  }

  /** The decoder's number literals are these. */
  lemma LiteralsAreNumbers(s: string)
    ensures IsNumber(s) <==> IsLiteral(s)
  {
    if IsLiteral(s) {
      var minus, whole, frac, exp :| minus in {"", "-"} && IntOk(whole) && FracOk(frac) && ExpOk(exp) && s == minus + (whole + (frac + exp));
      PartsMakeNumber(minus, whole, frac, exp);
    }
    if IsNumber(s) { NumberHasParts(s); }
  }

  lemma FracLength(frac: string, exp: string)
    requires FracOk(frac) && ExpOk(exp)
    ensures FractionLength(frac + exp) == Some(|frac|) && ExponentLength(exp) == Some(|exp|)
    ensures frac + exp != [] ==> !('0' <= (frac + exp)[0] <= '9')
  {
    ExpLength(exp);
    hide ExpOk, ExponentLength;
    if frac == [] {
      assert frac + exp == exp;
    } else {
      assert (frac + exp)[1..] == frac[1..] + exp;
      DigitsOf(frac[1..], exp);
    }
  }

  lemma ExpLength(exp: string)
    requires ExpOk(exp)
    ensures ExponentLength(exp) == Some(|exp|)
    ensures exp != [] ==> !('0' <= exp[0] <= '9') && exp[0] != '.'
  {
    if exp != [] {
      var sign := if |exp| > 1 && exp[1] in {'+', '-'} then 1 else 0;
      DigitsOf(exp[1 + sign..], []);
      assert exp[1 + sign..] + [] == exp[1 + sign..];
    }
  }

  lemma WholeLength(whole: string, rest: string)
    requires IntOk(whole) && (rest != [] ==> !('0' <= rest[0] <= '9'))
    ensures |whole| > 0 && IntegerLength(whole + rest) == |whole| && (whole + rest)[0] != '-'
  {
    if whole[0] != '0' { DigitsOf(whole, rest); }
  }

  lemma Sections(a: string, b: string, c: string, d: string)
    ensures var s := a + (b + (c + d));
            s[|a|..] == b + (c + d) && s[|a| + |b|..] == c + d && s[|a| + |b| + |c|..] == d && |s| == |a| + |b| + |c| + |d|
  {}

  lemma Cut(s: string, m: nat, i: nat, f: nat)
    requires m + i + f <= |s|
    ensures s == s[..m] + (s[m..][..i] + (s[m + i..][..f] + s[m + i + f..]))
  {}

  lemma MinusShows(minus: string, body: string)
    requires minus in {"", "-"} && body != [] && body[0] != '-'
    ensures |minus| == if (minus + body)[0] == '-' then 1 else 0
  {
    if minus == "" { assert minus + body == body; }
  }

  lemma PartsMakeNumber(minus: string, whole: string, frac: string, exp: string)
    requires minus in {"", "-"} && IntOk(whole) && FracOk(frac) && ExpOk(exp)
    ensures IsNumber(minus + (whole + (frac + exp)))
  {
    hide FractionLength, ExponentLength, IntegerLength, FracOk, ExpOk, IntOk, NumberLength;
    FracLength(frac, exp);
    WholeLength(whole, frac + exp);
    MinusShows(minus, whole + (frac + exp));
    Sections(minus, whole, frac, exp);
    LengthsMakeNumber(minus + (whole + (frac + exp)), |minus|, |whole|, |frac|, |exp|);
  }

  lemma LengthsMakeNumber(s: string, minus: nat, whole: nat, frac: nat, exp: nat)
    requires whole > 0 && |s| == minus + whole + frac + exp && minus == if s[0] == '-' then 1 else 0
    requires IntegerLength(s[minus..]) == whole && FractionLength(s[minus + whole..]) == Some(frac)
    requires ExponentLength(s[minus + whole + frac..]) == Some(exp)
    ensures IsNumber(s)
  {
    hide FractionLength, ExponentLength, IntegerLength, NumberLength;
    NumberOfParts(s, minus, whole, frac, exp);
  }

  lemma NumberHasParts(s: string)
    requires IsNumber(s)
    ensures IsLiteral(s)
  {
    hide NumberLength, IntegerLength, FractionLength, ExponentLength, IntOk, FracOk, ExpOk, HasParts;
    var m, i, f, e := PartsOfNumber(s);
    assert m <= 1 && m + i + f + e == |s| && (m == 1 ==> s[0] == '-') by { assert HasParts(s, m, i, f, e); PartsAddUp(s, m, i, f, e); }
    var minus, whole, frac, exp := s[..m], s[m..][..i], s[m + i..][..f], s[m + i + f..];
    PartsAreOk(s, m, i, f, e);
    Cut(s, m, i, f);
    assert minus == "" || minus == "-";
  }

  lemma PartsAddUp(s: string, m: nat, i: nat, f: nat, e: nat)
    requires HasParts(s, m, i, f, e) && NumberLength(s) == Some(|s|)
    ensures m <= 1 && m + i + f + e == |s| && (m == 1 ==> s[0] == '-')
  {
    hide IntegerLength, FractionLength, ExponentLength, NumberLength;
    NumberOfParts(s, m, i, f, e);
  }

  lemma PartsAreOk(s: string, m: nat, i: nat, f: nat, e: nat)
    requires HasParts(s, m, i, f, e) && m + i + f + e == |s|
    ensures IntOk(s[m..][..i]) && FracOk(s[m + i..][..f]) && ExpOk(s[m + i + f..])
  {
    hide IntegerLength, FractionLength, ExponentLength, IntOk, FracOk, ExpOk;
    IntPart(s[m..]);
    FracPart(s[m + i..]);
    ExpPart(s[m + i + f..]);
    assert s[m + i + f..][..e] == s[m + i + f..];
  }

  lemma IntPart(s: string)
    requires IntegerLength(s) > 0
    ensures IntOk(s[..IntegerLength(s)])
  {
    DigitsAreDigits(s);
  }

  lemma FracPart(s: string)
    requires FractionLength(s).Some?
    ensures FracOk(s[..FractionLength(s).value])
  {
    if s != [] && s[0] == '.' {
      DigitsAreDigits(s[1..]);
      assert s[..FractionLength(s).value][1..] == s[1..][..Digits(s[1..])];
    }
  }

  lemma ExpPart(s: string)
    requires ExponentLength(s).Some?
    ensures ExpOk(s[..ExponentLength(s).value])
  {
    if s != [] && (s[0] == 'e' || s[0] == 'E') {
      var sign := if |s| > 1 && (s[1] == '+' || s[1] == '-') then 1 else 0;
      var d := s[1 + sign..];
      DigitsAreDigits(d);
      var t := s[..ExponentLength(s).value];
      assert t[1 + sign..] == d[..Digits(d)];
      if sign == 0 { assert Digits(d) > 0 && '0' <= d[..Digits(d)][0] <= '9' && (|t| > 1 ==> t[1] == d[0]); }
    }
  }

  // ----- values (sections 2 to 5) -----

  datatype Node =
    | Word(v: Json)
    | Literal(text: string)
    | Quoted(ps: seq<Piece>)
    | List(pad: string, items: seq<Elem>)
    | Dict(pad: string, members: seq<Member>)

  /** A value with the white space around it. */
  datatype Elem = Elem(before: string, node: Node, after: string)

  datatype Member = Member(before: string, key: seq<Piece>, mid: string, elem: Elem)

  predicate Blank(s: string) { forall i | 0 <= i < |s| :: s[i] in {' ', '\t', '\n', '\r'} }

  /** What the grammar allows; white space of its own stands only between brackets with nothing else between. */
  ghost predicate NodeOk(n: Node)
    decreases n, 1
  {
    match n
    case Word(v) => v.Null? || v.Bool?
    case Literal(text) => IsLiteral(text)
    case Quoted(ps) => PiecesOk(ps)
    case List(pad, items) => Blank(pad) && (items != [] ==> pad == []) && ElemsOk(items)
    case Dict(pad, members) => Blank(pad) && (members != [] ==> pad == []) && MembersOk(members)
  }

  ghost predicate ElemOk(e: Elem)
    decreases e, 0
  {
    Blank(e.before) && NodeOk(e.node) && Blank(e.after)
  }

  ghost predicate ElemsOk(items: seq<Elem>)
    decreases items, 0
  {
    items == [] || (ElemOk(items[0]) && ElemsOk(items[1..]))
  }

  ghost predicate MemberOk(m: Member)
    decreases m, 0
  {
    Blank(m.before) && PiecesOk(m.key) && Blank(m.mid) && ElemOk(m.elem)
  }

  ghost predicate MembersOk(members: seq<Member>)
    decreases members, 0
  {
    members == [] || (MemberOk(members[0]) && MembersOk(members[1..]))
  }

  function NodeText(n: Node): string
    decreases n, 1
  {
    match n
    case Word(v) => if v.Null? then "null" else if v == Bool(true) then "true" else "false"
    case Literal(text) => text
    case Quoted(ps) => ['"'] + (PiecesText(ps) + ['"'])
    case List(pad, items) => ['['] + (pad + ElemsText(items) + [']'])
    case Dict(pad, members) => ['{'] + (pad + MembersText(members) + ['}'])
  }

  function ElemText(e: Elem): string
    decreases e, 0
  {
    e.before + (NodeText(e.node) + e.after)
  }

  /** Comma-separated. */
  function ElemsText(items: seq<Elem>): string
    decreases items, 0
  {
    if items == [] then []
    else if |items| == 1 then ElemText(items[0])
    else ElemText(items[0]) + ([','] + ElemsText(items[1..]))
  }

  function MemberText(m: Member): string
    decreases m, 0
  {
    m.before + (['"'] + (PiecesText(m.key) + (['"'] + (m.mid + ([':'] + ElemText(m.elem))))))
  }

  function MembersText(members: seq<Member>): string
    decreases members, 0
  {
    if members == [] then []
    else if |members| == 1 then MemberText(members[0])
    else MemberText(members[0]) + ([','] + MembersText(members[1..]))
  }

  /** The value of a tree; of members with one key the last counts. */
  ghost function NodeValue(n: Node): Json
    requires NodeOk(n)
    decreases n, 1
  {
    match n
    case Word(v) => v
    case Literal(text) => Number(text)
    case Quoted(ps) => Str(Means(ps))
    case List(_, items) => Arr(Values(items))
    case Dict(_, members) => Obj(Fields(members, map[]))
  }

  ghost function Values(items: seq<Elem>): seq<Json>
    requires ElemsOk(items)
    decreases items, 0
  {
    if items == [] then []
    else
      assert ElemOk(items[0]);
      [NodeValue(items[0].node)] + Values(items[1..])
  }

  ghost function Fields(members: seq<Member>, before: map<string, Json>): map<string, Json>
    requires MembersOk(members)
    decreases members, 0
  {
    if members == [] then before
    else
      assert MemberOk(members[0]) && ElemOk(members[0].elem);
      Fields(members[1..], before[Means(members[0].key) := NodeValue(members[0].elem.node)])
  }

  // ----- every text of a tree is read as its value -----

  lemma {:induction false} BlankIsSkipped(ws: string, t: string)
    requires Blank(ws)
    ensures SkipSpace(ws + t) == SkipSpace(t)
  {
    if ws == [] {
      assert ws + t == t;
    } else {
      assert (ws + t)[1..] == ws[1..] + t;
      BlankIsSkipped(ws[1..], t);
    }
  }

  lemma SkippedOnce(s: string)
    ensures SkipSpace(SkipSpace(s)) == SkipSpace(s)
  {}

  lemma SpacedValue(ws: string, t: string)
    requires Blank(ws)
    ensures ParseValue(ws + t) == ParseValue(t) && ParseValue(SkipSpace(t)) == ParseValue(t)
  {
    BlankIsSkipped(ws, t);
    SkippedOnce(t);
    hide SkipSpace, ParseItems, ParseFields, ParseString, NumberLength;
  }

  lemma SkippedItems(s: string)
    ensures ParseItems(SkipSpace(s)) == ParseItems(s)
  {
    SpacedValue([], s);
    hide SkipSpace, ParseValue;
  }

  lemma SkippedFields(s: string, before: map<string, Json>)
    ensures ParseFields(SkipSpace(s), before) == ParseFields(s, before)
  {
    SkippedOnce(s);
    hide SkipSpace, ParseValue, ParseString;
  }

  lemma NodeStarts(n: Node)
    requires NodeOk(n)
    ensures NodeText(n) != [] && NodeText(n)[0] !in {' ', '\t', '\n', '\r', ']', '}', ',', ':'}
  {
    if n.Literal? {
      LiteralsAreNumbers(n.text);
      NumberStarts(n.text);
    }
  }

  lemma AfterBlank(ws: string, tail: string)
    requires Blank(ws) && tail != [] && tail[0] in {',', ']', '}', ':', '"'}
    ensures SkipSpace(ws + tail) == tail && EndsNumber(ws + tail)
  {
    BlankIsSkipped(ws, tail);
    if ws == [] { assert ws + tail == tail; } else { assert (ws + tail)[0] == ws[0]; }
  }

  lemma {:induction false} ReadNode(n: Node, rest: string)
    requires NodeOk(n) && EndsNumber(rest)
    ensures ParseValue(NodeText(n) + rest) == Some((NodeValue(n), rest))
    decreases n, 1
  {
    hide ParseValue, ParseItems, ParseFields, ParseString, EndsNumber, IsLiteral, PiecesText, Means;
    match n
    case Word(v) =>
      ReadWord(v, rest);
    case Literal(text) =>
      LiteralsAreNumbers(text);
      ReadNumberValue(text, rest);
    case Quoted(ps) =>
      ReadSpelled(ps, rest);
      ReadQuoted(PiecesText(ps), Means(ps), rest);
    case List(pad, items) =>
      ReadList(n, rest);
    case Dict(pad, members) =>
      ReadDict(n, rest);
  }

  lemma ReadQuoted(body: string, str: string, rest: string)
    requires ParseString(body + (['"'] + rest)) == Some((str, rest))
    ensures ParseValue(['"'] + (body + ['"']) + rest) == Some((Str(str), rest))
  {
    hide ParseString, ParseItems, ParseFields, NumberLength;
    var t := ['"'] + (body + ['"']) + rest;
    assert t == ['"'] + (body + (['"'] + rest));
    assert SkipSpace(t) == t && t[1..] == body + (['"'] + rest);
  }

  lemma OpensArray(body: string)
    ensures ParseValue(['['] + body) ==
              var u := SkipSpace(body);
              if u != [] && u[0] == ']' then Some((Arr([]), u[1..]))
              else match ParseItems(body)
                   case None => None
                   case Some((items, rest)) => Some((Arr(items), rest))
  {
    SkippedItems(body);
    hide ParseItems, ParseFields, ParseString, NumberLength;
    var t := ['['] + body;
    assert SkipSpace(t) == t && t[1..] == body;
  }

  lemma OpensObject(body: string)
    ensures ParseValue(['{'] + body) ==
              var u := SkipSpace(body);
              if u != [] && u[0] == '}' then Some((Obj(map[]), u[1..]))
              else match ParseFields(body, map[])
                   case None => None
                   case Some((fields, rest)) => Some((Obj(fields), rest))
  {
    SkippedFields(body, map[]);
    hide ParseItems, ParseFields, ParseString, NumberLength;
    var t := ['{'] + body;
    assert SkipSpace(t) == t && t[1..] == body;
  }

  lemma {:induction false} ReadList(n: Node, rest: string)
    requires NodeOk(n) && n.List?
    ensures ParseValue(NodeText(n) + rest) == Some((NodeValue(n), rest))
    decreases n, 0
  {
    hide ParseValue, ParseItems, SkipSpace;
    var end := [']'] + rest;
    var body := n.pad + ElemsText(n.items) + end;
    assert NodeText(n) + rest == ['['] + body;
    OpensArray(body);
    if n.items == [] {
      assert body == n.pad + end;
      AfterBlank(n.pad, end);
      assert end[1..] == rest;
    } else {
      assert body == ElemsText(n.items) + end;
      ReadElems(n.items, rest);
      ElemsStart(n.items, end);
    }
  }

  lemma {:induction false} ReadDict(n: Node, rest: string)
    requires NodeOk(n) && n.Dict?
    ensures ParseValue(NodeText(n) + rest) == Some((NodeValue(n), rest))
    decreases n, 0
  {
    hide ParseValue, ParseFields, SkipSpace;
    var end := ['}'] + rest;
    var body := n.pad + MembersText(n.members) + end;
    assert NodeText(n) + rest == ['{'] + body;
    OpensObject(body);
    if n.members == [] {
      assert body == n.pad + end;
      AfterBlank(n.pad, end);
      assert end[1..] == rest;
    } else {
      assert body == MembersText(n.members) + end;
      ReadMembers(n.members, map[], rest);
      MembersStart(n.members, end);
    }
  }

  lemma ElemsStart(items: seq<Elem>, end: string)
    requires items != [] && ElemOk(items[0])
    ensures SkipSpace(ElemsText(items) + end) != [] && SkipSpace(ElemsText(items) + end)[0] != ']'
  {
    var e := items[0];
    NodeStarts(e.node);
    var more := e.after + (if |items| == 1 then end else [','] + ElemsText(items[1..]) + end);
    var tail := NodeText(e.node) + more;
    assert ElemsText(items) + end == e.before + tail && tail[0] == NodeText(e.node)[0];
    BlankIsSkipped(e.before, tail);
  }

  lemma MembersStart(members: seq<Member>, end: string)
    requires members != [] && Blank(members[0].before)
    ensures SkipSpace(MembersText(members) + end) != [] && SkipSpace(MembersText(members) + end)[0] != '}'
  {
    var m := members[0];
    var tail := MemberText(m)[|m.before|..] + (if |members| == 1 then end else [','] + MembersText(members[1..]) + end);
    assert MembersText(members) + end == m.before + tail && tail[0] == '"';
    BlankIsSkipped(m.before, tail);
  }

  /** One item of an array, and what is read of the rest. */
  lemma ItemsFirst(s: string, v: Json, after: string, tail: string)
    requires ParseValue(s) == Some((v, after)) && SkipSpace(after) == tail && tail != []
    ensures tail[0] == ']' ==> ParseItems(s) == Some(([v], tail[1..]))
    ensures tail[0] == ',' && ParseItems(tail[1..]).Some? ==>
              ParseItems(s) == Some(([v] + ParseItems(tail[1..]).value.0, ParseItems(tail[1..]).value.1))
  {
    hide ParseValue, SkipSpace;
  }

  lemma {:induction false} ReadElem(e: Elem, tail: string)
    requires ElemOk(e) && tail != [] && tail[0] in {',', ']', '}'}
    ensures ParseValue(ElemText(e) + tail) == Some((NodeValue(e.node), e.after + tail)) && SkipSpace(e.after + tail) == tail
    decreases e, 0
  {
    hide ParseValue, SkipSpace;
    AfterBlank(e.after, tail);
    assert ElemText(e) + tail == e.before + (NodeText(e.node) + (e.after + tail));
    SpacedValue(e.before, NodeText(e.node) + (e.after + tail));
    ReadNode(e.node, e.after + tail);
  }

  lemma {:induction false} ReadElems(items: seq<Elem>, rest: string)
    requires items != [] && ElemsOk(items)
    ensures ParseItems(ElemsText(items) + ([']'] + rest)) == Some((Values(items), rest))
    decreases items, 0
  {
    hide ParseValue, ParseItems, SkipSpace, ElemText, NodeValue;
    var end, e := [']'] + rest, items[0];
    assert ElemOk(e);
    if |items| == 1 {
      assert items == [e];
      ReadElem(e, end);
      ItemsFirst(ElemText(e) + end, NodeValue(e.node), e.after + end, end);
      assert Values(items) == [NodeValue(e.node)] by { assert Values(items[1..]) == []; }
    } else {
      var more := ElemsText(items[1..]) + end;
      ReadElems(items[1..], rest);
      ReadElem(e, [','] + more);
      ItemsFirst(ElemText(e) + ([','] + more), NodeValue(e.node), e.after + ([','] + more), [','] + more);
      assert ([','] + more)[1..] == more;
      assert ElemsText(items) + end == ElemText(e) + ([','] + more);
    }
  }

  /** One member of an object, and what is read of the rest. */
  lemma FieldsFirst(s: string, t: string, key: string, afterKey: string, u: string, v: Json, after: string, tail: string, before: map<string, Json>)
    requires SkipSpace(s) == ['"'] + t && ParseString(t) == Some((key, afterKey)) && SkipSpace(afterKey) == [':'] + u
    requires ParseValue(u) == Some((v, after)) && SkipSpace(after) == tail && tail != []
    ensures tail[0] == '}' ==> ParseFields(s, before) == Some((before[key := v], tail[1..]))
    ensures tail[0] == ',' ==> ParseFields(s, before) == ParseFields(tail[1..], before[key := v])
  {
    hide ParseValue, SkipSpace, ParseString;
    assert (['"'] + t)[1..] == t && ([':'] + u)[1..] == u;
  }

  lemma {:induction false} ReadMember(m: Member, before: map<string, Json>, tail: string)
    requires MemberOk(m) && ElemOk(m.elem) && tail != [] && tail[0] in {',', '}'}
    ensures var now := before[Means(m.key) := NodeValue(m.elem.node)];
            ParseFields(MemberText(m) + tail, before) == if tail[0] == '}' then Some((now, tail[1..])) else ParseFields(tail[1..], now)
    decreases m, 0
  {
    hide ParseValue, ParseFields, SkipSpace, ParseString, ElemText, NodeValue, Means, PiecesText;
    var u := ElemText(m.elem) + tail;
    var afterKey := m.mid + ([':'] + u);
    var t := PiecesText(m.key) + (['"'] + afterKey);
    MemberJoined(m, tail);
    AfterBlank(m.before, ['"'] + t);
    ReadSpelled(m.key, afterKey);
    AfterBlank(m.mid, [':'] + u);
    ReadElem(m.elem, tail);
    FieldsFirst(MemberText(m) + tail, t, Means(m.key), afterKey, u, NodeValue(m.elem.node), m.elem.after + tail, tail, before);
  }

  lemma MemberJoined(m: Member, tail: string)
    ensures MemberText(m) + tail == m.before + (['"'] + (PiecesText(m.key) + (['"'] + (m.mid + ([':'] + (ElemText(m.elem) + tail))))))
  {
    hide PiecesText, ElemText;
  }

  lemma {:induction false} ReadMembers(members: seq<Member>, before: map<string, Json>, rest: string)
    requires members != [] && MembersOk(members)
    ensures ParseFields(MembersText(members) + (['}'] + rest), before) == Some((Fields(members, before), rest))
    decreases members, 0
  {
    hide ParseValue, ParseFields, SkipSpace, MemberText, NodeValue, Means;
    var end, m := ['}'] + rest, members[0];
    assert MemberOk(m) && ElemOk(m.elem);
    var now := before[Means(m.key) := NodeValue(m.elem.node)];
    if |members| == 1 {
      assert members == [m];
      ReadMember(m, before, end);
      assert Fields(members, before) == now by { assert Fields(members[1..], now) == now; }
    } else {
      var more := MembersText(members[1..]) + end;
      ReadMembers(members[1..], now, rest);
      ReadMember(m, before, [','] + more);
      assert ([','] + more)[1..] == more;
      assert MembersText(members) + end == MemberText(m) + ([','] + more);
    }
  }

  // ----- and every text that is read is a tree's -----

  lemma {:induction false} SkippedBlank(s: string) returns (ws: string)
    ensures Blank(ws) && s == ws + SkipSpace(s)
  {
    if s != [] && IsSpace(s[0]) {
      var more := SkippedBlank(s[1..]);
      ws := [s[0]] + more;
      assert s == [s[0]] + s[1..];
    } else {
      ws := [];
      assert s == [] + s;
    }
  }

  /** The text the decoder took a value from is white space and then the text of a tree with that value. */
  lemma {:induction false} NodeBy(s: string) returns (ws: string, n: Node)
    requires ParseValue(s).Some?
    ensures Blank(ws) && NodeOk(n) && NodeValue(n) == ParseValue(s).value.0
    ensures s == ws + (NodeText(n) + ParseValue(s).value.1)
    decreases |s|, 1
  {
    var t, rest := SkipSpace(s), ParseValue(s).value.1;
    ws := SkippedBlank(s);
    SpacedValue([], s);
    assert ParseValue(t) == ParseValue(s) && SkipSpace(t) == t by { SkippedOnce(s); }
    if t[0] == '"' {
      n := QuotedBy(t);
    } else if t[0] == '[' {
      n := ListBy(t);
    } else if t[0] == '{' {
      n := DictBy(t);
    } else {
      n := ScalarBy(t);
    }
    hide ParseValue, SkipSpace, NodeText;
  }

  lemma QuotedBy(t: string) returns (n: Node)
    requires ParseValue(t).Some? && SkipSpace(t) == t && t[0] == '"'
    ensures NodeOk(n) && NodeValue(n) == ParseValue(t).value.0 && t == NodeText(n) + ParseValue(t).value.1
  {
    hide ParseString, ParseItems, ParseFields, NumberLength, PiecesText, Means;
    var ps := SpelledBy(t[1..]);
    n := Quoted(ps);
    assert t == ['"'] + t[1..];
  }

  lemma ScalarBy(t: string) returns (n: Node)
    requires ParseValue(t).Some? && SkipSpace(t) == t && t[0] !in {'"', '[', '{'}
    ensures NodeOk(n) && NodeValue(n) == ParseValue(t).value.0 && t == NodeText(n) + ParseValue(t).value.1
  {
    hide ParseString, ParseItems, ParseFields, NumberLength, IsLiteral;
    if "null" <= t {
      n := Word(Null);
    } else if "true" <= t {
      n := Word(Bool(true));
    } else if "false" <= t {
      n := Word(Bool(false));
    } else {
      var k := NumberLength(t).value;
      CutIsNumber(t);
      LiteralsAreNumbers(t[..k]);
      n := Literal(t[..k]);
      assert t == t[..k] + t[k..];
    }
  }

  lemma {:induction false} ListBy(t: string) returns (n: Node)
    requires ParseValue(t).Some? && SkipSpace(t) == t && t[0] == '['
    ensures NodeOk(n) && NodeValue(n) == ParseValue(t).value.0 && t == NodeText(n) + ParseValue(t).value.1
    decreases |t|, 0
  {
    hide ParseValue, ParseItems, SkipSpace, ElemsText, Values, ElemsOk, Blank;
    var body, rest := t[1..], ParseValue(t).value.1;
    assert t == ['['] + body;
    OpensArray(body);
    var u := SkipSpace(body);
    if u != [] && u[0] == ']' {
      var pad := SkippedBlank(body);
      n := List(pad, []);
      EmptyList(pad, body, u, rest);
    } else {
      var items := ElemsBy(body);
      n := List([], items);
      FullList(items, body, rest);
    }
  }

  lemma EmptyList(pad: string, body: string, u: string, rest: string)
    requires Blank(pad) && body == pad + u && u != [] && u[0] == ']' && u[1..] == rest
    ensures NodeOk(List(pad, [])) && NodeValue(List(pad, [])) == Arr([]) && ['['] + body == NodeText(List(pad, [])) + rest
  {
    hide Blank;
    assert u == [']'] + rest;
    assert pad + ElemsText([]) == pad;
    Bracketed('[', pad, [']'], rest);
  }

  lemma Bracketed(open: char, inner: string, close: string, rest: string)
    ensures [open] + (inner + (close + rest)) == ([open] + (inner + close)) + rest
  {}

  lemma FullList(items: seq<Elem>, body: string, rest: string)
    requires items != [] && ElemsOk(items) && body == ElemsText(items) + ([']'] + rest)
    ensures NodeOk(List([], items)) && NodeValue(List([], items)) == Arr(Values(items))
    ensures ['['] + body == NodeText(List([], items)) + rest
  {
    hide ElemsText, Values, ElemsOk;
    assert [] + ElemsText(items) == ElemsText(items);
    Bracketed('[', ElemsText(items), [']'], rest);
  }

  lemma {:induction false} DictBy(t: string) returns (n: Node)
    requires ParseValue(t).Some? && SkipSpace(t) == t && t[0] == '{'
    ensures NodeOk(n) && NodeValue(n) == ParseValue(t).value.0 && t == NodeText(n) + ParseValue(t).value.1
    decreases |t|, 0
  {
    hide ParseValue, ParseFields, SkipSpace, MembersText, Fields, MembersOk, Blank;
    var body, rest := t[1..], ParseValue(t).value.1;
    assert t == ['{'] + body;
    OpensObject(body);
    var u := SkipSpace(body);
    if u != [] && u[0] == '}' {
      var pad := SkippedBlank(body);
      n := Dict(pad, []);
      EmptyDict(pad, body, u, rest);
    } else {
      var members := MembersBy(body, map[]);
      n := Dict([], members);
      FullDict(members, body, rest);
    }
  }

  lemma EmptyDict(pad: string, body: string, u: string, rest: string)
    requires Blank(pad) && body == pad + u && u != [] && u[0] == '}' && u[1..] == rest
    ensures NodeOk(Dict(pad, [])) && NodeValue(Dict(pad, [])) == Obj(map[]) && ['{'] + body == NodeText(Dict(pad, [])) + rest
  {
    hide Blank;
    assert u == ['}'] + rest;
    assert pad + MembersText([]) == pad;
    Bracketed('{', pad, ['}'], rest);
  }

  lemma FullDict(members: seq<Member>, body: string, rest: string)
    requires members != [] && MembersOk(members) && body == MembersText(members) + (['}'] + rest)
    ensures NodeOk(Dict([], members)) && NodeValue(Dict([], members)) == Obj(Fields(members, map[]))
    ensures ['{'] + body == NodeText(Dict([], members)) + rest
  {
    hide MembersText, Fields, MembersOk;
    assert [] + MembersText(members) == MembersText(members);
    Bracketed('{', MembersText(members), ['}'], rest);
  }

  lemma {:induction false} ElemBy(s: string) returns (e: Elem)
    requires ParseValue(s).Some?
    ensures ElemOk(e) && NodeOk(e.node) && NodeValue(e.node) == ParseValue(s).value.0
    ensures s == ElemText(e) + SkipSpace(ParseValue(s).value.1)
    decreases |s|, 2
  {
    var before, n := NodeBy(s);
    var after := SkippedBlank(ParseValue(s).value.1);
    e := Elem(before, n, after);
    hide ParseValue, SkipSpace, NodeText, NodeOk;
  }

  lemma {:induction false} ElemsBy(s: string) returns (items: seq<Elem>)
    requires ParseItems(s).Some?
    ensures items != [] && ElemsOk(items) && Values(items) == ParseItems(s).value.0
    ensures s == ElemsText(items) + ([']'] + ParseItems(s).value.1)
    decreases |s|, 3
  {
    hide ParseValue, ParseItems, SkipSpace, ElemText, NodeValue, NodeOk, ElemOk, ElemsText, ElemsOk, Values;
    var v, after := ItemsOpen(s);
    var e := ElemBy(s);
    var t := SkipSpace(after);
    ItemsFirst(s, v, after, t);
    if t[0] == ',' {
      var more := ElemsBy(t[1..]);
      items := [e] + more;
      ElemsTextCons(e, more);
      JoinMore(ElemText(e), t, ElemsText(more), [']'] + ParseItems(s).value.1);
    } else {
      items := [e];
      OneElem(e);
      assert t == [']'] + t[1..];
    }
  }

  /** What the decoder finds at the start of an item. */
  lemma ItemsOpen(s: string) returns (v: Json, after: string)
    requires ParseItems(s).Some?
    ensures ParseValue(s) == Some((v, after)) && SkipSpace(after) != [] && SkipSpace(after)[0] in {']', ','}
    ensures |SkipSpace(after)| < |s| && (SkipSpace(after)[0] == ',' ==> ParseItems(SkipSpace(after)[1..]).Some?)
  {
    hide ParseValue, SkipSpace;
    v, after := ParseValue(s).value.0, ParseValue(s).value.1;
  }

  lemma JoinMore(first: string, t: string, more: string, end: string)
    requires t != [] && t[0] == ',' && t[1..] == more + end
    ensures first + t == (first + ([','] + more)) + end
  {
    assert t == [','] + (more + end);
  }

  lemma OneElem(e: Elem)
    requires ElemOk(e) && NodeOk(e.node)
    ensures ElemsOk([e]) && ElemsText([e]) == ElemText(e) && Values([e]) == [NodeValue(e.node)]
  {
    hide ElemText, NodeValue, ElemOk;
    assert [e][1..] == [] && Values([]) == [];
  }

  lemma ElemsTextCons(e: Elem, more: seq<Elem>)
    requires more != [] && ElemsOk(more) && ElemOk(e) && NodeOk(e.node)
    ensures ElemsOk([e] + more) && ElemsText([e] + more) == ElemText(e) + ([','] + ElemsText(more))
    ensures Values([e] + more) == [NodeValue(e.node)] + Values(more)
  {
    hide ElemText, NodeValue, ElemOk;
    assert ([e] + more)[1..] == more;
  }

  lemma {:induction false} MemberBy(s: string, before: map<string, Json>) returns (m: Member, tail: string)
    requires ParseFields(s, before).Some?
    ensures PiecesOk(m.key) && MemberOk(m) && ElemOk(m.elem) && NodeOk(m.elem.node)
    ensures s == MemberText(m) + tail && tail != [] && |tail| < |s|
    ensures var now := before[Means(m.key) := NodeValue(m.elem.node)];
            if tail[0] == '}' then ParseFields(s, before) == Some((now, tail[1..]))
            else tail[0] == ',' && ParseFields(s, before) == ParseFields(tail[1..], now)
    decreases |s|, 3
  {
    hide ParseValue, ParseFields, SkipSpace, ParseString, ElemText, NodeValue, PiecesText, Means, Blank, PieceOk;
    var t, afterKey, u, v, after := FieldsOpen(s, before);
    tail := SkipSpace(after);
    var ws := SkippedBlank(s);
    var mid := SkippedBlank(afterKey);
    var key := SpelledBy(t);
    var elem := ElemBy(u);
    m := Member(ws, key, mid, elem);
    FieldsFirst(s, t, Means(key), afterKey, u, v, after, tail, before);
    hide NodeOk;
    MemberJoined(m, tail);
  }

  /** A quote and a key, a colon and a value, and then a comma or a brace. */
  ghost predicate OpensMember(s: string, t: string, afterKey: string, u: string, v: Json, after: string) {
    && SkipSpace(s) == ['"'] + t && ParseString(t).Some? && ParseString(t).value.1 == afterKey
    && SkipSpace(afterKey) == [':'] + u && ParseValue(u) == Some((v, after)) && |u| < |s|
    && SkipSpace(after) != [] && SkipSpace(after)[0] in {'}', ','} && |SkipSpace(after)| < |s|
  }

  /** What the decoder finds at the start of a member. */
  lemma FieldsOpen(s: string, before: map<string, Json>) returns (t: string, afterKey: string, u: string, v: Json, after: string)
    requires ParseFields(s, before).Some?
    ensures OpensMember(s, t, afterKey, u, v, after)
  {
    hide ParseValue, SkipSpace, ParseString;
    t := SkipSpace(s)[1..];
    afterKey := ParseString(t).value.1;
    u := SkipSpace(afterKey)[1..];
    v, after := ParseValue(u).value.0, ParseValue(u).value.1;
  }

  lemma {:induction false} MembersBy(s: string, before: map<string, Json>) returns (members: seq<Member>)
    requires ParseFields(s, before).Some?
    ensures members != [] && MembersOk(members) && Fields(members, before) == ParseFields(s, before).value.0
    ensures s == MembersText(members) + (['}'] + ParseFields(s, before).value.1)
    decreases |s|, 4
  {
    hide ParseFields, MemberText, NodeValue, Means, ElemOk, MemberOk, MembersText, MembersOk, Fields, PiecesOk;
    var m, tail := MemberBy(s, before);
    var now := before[Means(m.key) := NodeValue(m.elem.node)];
    if tail[0] == ',' {
      var more := MembersBy(tail[1..], now);
      members := [m] + more;
      MembersTextCons(m, more);
      JoinMore(MemberText(m), tail, MembersText(more), ['}'] + ParseFields(s, before).value.1);
    } else {
      members := [m];
      OneMember(m, before);
      assert tail == ['}'] + tail[1..];
    }
  }

  lemma OneMember(m: Member, before: map<string, Json>)
    requires MemberOk(m) && ElemOk(m.elem) && PiecesOk(m.key) && NodeOk(m.elem.node)
    ensures MembersOk([m]) && MembersText([m]) == MemberText(m)
    ensures Fields([m], before) == before[Means(m.key) := NodeValue(m.elem.node)]
  {
    hide MemberText, NodeValue, Means, MemberOk, ElemOk;
    var now := before[Means(m.key) := NodeValue(m.elem.node)];
    assert [m][1..] == [] && Fields([], now) == now;
  }

  lemma MembersTextCons(m: Member, more: seq<Member>)
    requires more != [] && MembersOk(more) && MemberOk(m) && ElemOk(m.elem) && PiecesOk(m.key) && NodeOk(m.elem.node)
    ensures MembersOk([m] + more) && MembersText([m] + more) == MemberText(m) + ([','] + MembersText(more))
    ensures forall before :: Fields([m] + more, before) == Fields(more, before[Means(m.key) := NodeValue(m.elem.node)])
  {
    hide MemberText, NodeValue, Means, MemberOk, ElemOk;
    assert ([m] + more)[1..] == more;
  }

  // ----- the decoder is the grammar -----

  /** White space, a tree, and what is left. */
  ghost predicate Spells(s: string, ws: string, n: Node, v: Json, rest: string) {
    Blank(ws) && NodeOk(n) && NodeValue(n) == v && s == ws + (NodeText(n) + rest)
  }

  /** In front of anything that could not go on with a number, the decoder reads a value exactly where the grammar has white
      space and a text of that value. */
  lemma DecoderIsGrammar(s: string, v: Json, rest: string)
    requires EndsNumber(rest)
    ensures ParseValue(s) == Some((v, rest)) <==> exists ws, n :: Spells(s, ws, n, v, rest)
  {
    hide ParseValue, NodeText, NodeOk, NodeValue, Blank;
    if ParseValue(s) == Some((v, rest)) {
      var ws, n := NodeBy(s);
      assert Spells(s, ws, n, v, rest);
    }
    if ws, n :| Spells(s, ws, n, v, rest) {
      SpacedValue(ws, NodeText(n) + rest);
      ReadNode(n, rest);
    }
  }
}
