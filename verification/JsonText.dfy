/** JSON values as the decoder delivers them (numbers as their literal, objects as maps), and a
    decoder for JSON text as RFC 8259 defines it, with Go's treatment of repeated keys and of
    lone surrogates. */
module JsonText {
  import opened Alphabet
  import opened Options

  datatype Json =
    | Null
    | Bool(b: bool)
    | Number(literal: string)
    | Str(s: string)
    | Arr(items: seq<Json>)
    | Obj(fields: map<string, Json>)

  // ----- numbers (section 6 of RFC 8259) -----

  /** The number of digits a text starts with. */
  function Digits(s: string): (n: nat)
    ensures n <= |s|
  {
    if s != [] && IsDigit(s[0]) then 1 + Digits(s[1..]) else 0
  }

  function IntegerLength(s: string): (n: nat)
    ensures n <= |s|
  {
    if s == [] || !IsDigit(s[0]) then 0
    else if s[0] == '0' then 1
    else Digits(s)
  }

  /** The length of the fraction a text starts with; None when a '.' has no digit behind it. */
  function FractionLength(s: string): (n: Option<nat>)
    ensures n.Some? ==> n.value <= |s|
  {
    if s == [] || s[0] != '.' then Some(0)
    else if Digits(s[1..]) == 0 then None
    else Some(1 + Digits(s[1..]))
  }

  function ExponentLength(s: string): (n: Option<nat>)
    ensures n.Some? ==> n.value <= |s|
  {
    if s == [] || (s[0] != 'e' && s[0] != 'E') then Some(0)
    else
      var sign := if |s| > 1 && (s[1] == '+' || s[1] == '-') then 1 else 0;
      var digits := Digits(s[1 + sign..]);
      if digits == 0 then None else Some(1 + sign + digits)
  }

  /** The length of the number literal a text starts with. */
  function NumberLength(s: string): (n: Option<nat>)
    ensures n.Some? ==> 0 < n.value <= |s|
  {
    var minus := if s != [] && s[0] == '-' then 1 else 0;
    var integer := IntegerLength(s[minus..]);
    if integer == 0 then None
    else
      match FractionLength(s[minus + integer..])
      case None => None
      case Some(fraction) =>
        match ExponentLength(s[minus + integer + fraction..])
        case None => None
        case Some(exponent) => Some(minus + integer + fraction + exponent)
  }

  predicate IsNumber(literal: string) { NumberLength(literal) == Some(|literal|) }

  // ----- strings (section 7 of RFC 8259) -----

  function HexValue(c: char): (v: Option<nat>)
    ensures v.Some? ==> v.value < 16
  {
    if '0' <= c <= '9' then Some(c as int - '0' as int)
    else if 'a' <= c <= 'f' then Some(c as int - 'a' as int + 10)
    else if 'A' <= c <= 'F' then Some(c as int - 'A' as int + 10)
    else None
  }

  /** Four hexadecimal digits. */
  function Hex4(s: string): (v: Option<nat>)
    ensures v.Some? ==> |s| >= 4 && v.value < 0x1_0000
  {
    if |s| < 4 then None
    else
      match (HexValue(s[0]), HexValue(s[1]), HexValue(s[2]), HexValue(s[3]))
      case (Some(a), Some(b), Some(c), Some(d)) => Some(4096 * a + 256 * b + 16 * c + d)
      case _ => None
  }

  const REPLACEMENT: char := '\U{FFFD}'

  /** The character of a \u escape and the text behind it; s starts behind the `u`. */
  function UnicodeEscape(s: string): (r: Option<(char, string)>)
    ensures r.Some? ==> |r.value.1| < |s|
  {
    match Hex4(s)
    case None => None
    case Some(v) =>
      if v < 0xD800 || 0xE000 <= v then Some((v as char, s[4..]))
      else if v < 0xDC00 && |s| >= 6 && s[4] == '\\' && s[5] == 'u' && Hex4(s[6..]).Some?
              && 0xDC00 <= Hex4(s[6..]).value < 0xE000
      then Some(((0x1_0000 + (v - 0xD800) * 0x400 + (Hex4(s[6..]).value - 0xDC00)) as char, s[10..]))
      else Some((REPLACEMENT, s[4..]))
  }

  /** The character of a backslash escape and the text behind it; s starts behind the backslash. */
  function Escaped(s: string): (r: Option<(char, string)>)
    ensures r.Some? ==> |r.value.1| < |s|
  {
    if s == [] then None
    else if s[0] == '"' || s[0] == '\\' || s[0] == '/' then Some((s[0], s[1..]))
    else if s[0] == 'b' then Some(('\U{0008}', s[1..]))
    else if s[0] == 'f' then Some(('\U{000C}', s[1..]))
    else if s[0] == 'n' then Some(('\n', s[1..]))
    else if s[0] == 'r' then Some(('\r', s[1..]))
    else if s[0] == 't' then Some(('\t', s[1..]))
    else if s[0] == 'u' then UnicodeEscape(s[1..])
    else None
  }

  /** A string's value and the text behind its closing quote; s starts behind the opening quote. */
  function ParseString(s: string): (r: Option<(string, string)>)
    ensures r.Some? ==> |r.value.1| < |s|
    decreases |s|
  {
    if s == [] then None
    else if s[0] == '"' then Some(([], s[1..]))
    else if s[0] < ' ' then None
    else
      var first := if s[0] == '\\' then Escaped(s[1..]) else Some((s[0], s[1..]));
      match first
      case None => None
      case Some((c, rest)) =>
        match ParseString(rest)
        case None => None
        case Some((cs, tail)) => Some(([c] + cs, tail))
  }

  // ----- values -----

  predicate IsSpace(c: char) { c == ' ' || c == '\t' || c == '\n' || c == '\r' }

  function SkipSpace(s: string): (t: string)
    ensures |t| <= |s|
    ensures t == [] || !IsSpace(t[0])
  {
    if s != [] && IsSpace(s[0]) then SkipSpace(s[1..]) else s
  }

  /** A value and the text behind it. */
  function ParseValue(s: string): (r: Option<(Json, string)>)
    ensures r.Some? ==> |r.value.1| < |s|
    decreases |s|, 0
  {
    var t := SkipSpace(s);
    if t == [] then None
    else if t[0] == '"' then
      match ParseString(t[1..])
      case None => None
      case Some((str, rest)) => Some((Str(str), rest))
    else if t[0] == '[' then
      var u := SkipSpace(t[1..]);
      if u != [] && u[0] == ']' then Some((Arr([]), u[1..]))
      else
        match ParseItems(u)
        case None => None
        case Some((items, rest)) => Some((Arr(items), rest))
    else if t[0] == '{' then
      var u := SkipSpace(t[1..]);
      if u != [] && u[0] == '}' then Some((Obj(map[]), u[1..]))
      else
        match ParseFields(u, map[])
        case None => None
        case Some((fields, rest)) => Some((Obj(fields), rest))
    else if "null" <= t then Some((Null, t[4..]))
    else if "true" <= t then Some((Bool(true), t[4..]))
    else if "false" <= t then Some((Bool(false), t[5..]))
    else
      match NumberLength(t)
      case None => None
      case Some(n) => Some((Number(t[..n]), t[n..]))
  }

  /** One or more comma-separated values up to a closing bracket. */
  function ParseItems(s: string): (r: Option<(seq<Json>, string)>)
    ensures r.Some? ==> |r.value.1| < |s|
    decreases |s|, 1
  {
    match ParseValue(s)
    case None => None
    case Some((v, rest)) =>
      var t := SkipSpace(rest);
      if t == [] then None
      else if t[0] == ']' then Some(([v], t[1..]))
      else if t[0] == ',' then
        match ParseItems(t[1..])
        case None => None
        case Some((vs, tail)) => Some(([v] + vs, tail))
      else None
  }

  /** One or more comma-separated members up to a closing brace; a repeated key keeps its last value. */
  function ParseFields(s: string, before: map<string, Json>): (r: Option<(map<string, Json>, string)>)
    ensures r.Some? ==> |r.value.1| < |s|
    decreases |s|, 1
  {
    var t := SkipSpace(s);
    if t == [] || t[0] != '"' then None
    else
      match ParseString(t[1..])
      case None => None
      case Some((key, afterKey)) =>
        var u := SkipSpace(afterKey);
        if u == [] || u[0] != ':' then None
        else
          match ParseValue(u[1..])
          case None => None
          case Some((v, rest)) =>
            var w := SkipSpace(rest);
            var fields := before[key := v];
            if w == [] then None
            else if w[0] == '}' then Some((fields, w[1..]))
            else if w[0] == ',' then ParseFields(w[1..], fields)
            else None
  }

  /** Every number in the value is a JSON number literal: what a decoder can deliver. */
  predicate Decodable(v: Json) {
    match v
    case Number(literal) => IsNumber(literal)
    case Arr(items) => forall x | x in items :: Decodable(x)
    case Obj(fields) => forall k | k in fields :: Decodable(fields[k])
    case _ => true
  }
}
