/** The canonical text of a JSON value, and the proof that the decoder reads it back. */
module CanonicalText {
  import opened Alphabet
  import opened Ordering
  import opened Utf8
  import opened JsonText
  import opened Options

  // ----- keys -----

  ghost predicate SortedByBytes(ks: seq<string>) {
    forall i, j | 0 <= i < j < |ks| :: BytesLess(Encode(ks[i]), Encode(ks[j]))
  }

  /** Canonical order is a function of the key set alone, and sorting by UTF-8 bytes (Go) and by
      code points (Python's sort_keys) give the same sequence. */
  lemma KeyOrderIsForced(keys: set<string>, ks: seq<string>)
    requires forall k :: k in ks <==> k in keys
    ensures SortedByBytes(ks) <==> StrictlySorted(ks)
    ensures SortedByBytes(ks) <==> ks == SortedSet(keys)
  {
    forall i, j | 0 <= i < j < |ks| ensures BytesLess(Encode(ks[i]), Encode(ks[j])) <==> Less(ks[i], ks[j]) {
      ByteOrderIsCodePointOrder(ks[i], ks[j]);
    }
    if StrictlySorted(ks) { StrictlySortedIsUnique(ks, SortedSet(keys)); }
  }

  // ----- strings -----

  function HexDigit(n: nat): char
    requires n < 16
  {
    if n < 10 then ('0' as int + n) as char else ('a' as int + n - 10) as char
  }

  function CharText(c: char): string {
    if c == '"' then ['\\', '"']
    else if c == '\\' then ['\\', '\\']
    else if c == '\n' then "\\n"
    else if c == '\r' then "\\r"
    else if c == '\t' then "\\t"
    else if c == '\U{0008}' then "\\b"
    else if c == '\U{000C}' then "\\f"
    else if c < ' ' then ['\\', 'u', '0', '0', HexDigit(c as int / 16), HexDigit(c as int % 16)]
    else [c]
  }

  function CharsText(s: string): string {
    if s == [] then [] else CharText(s[0]) + CharsText(s[1..])
  }

  function StringText(s: string): string {
    ['"'] + CharsText(s) + ['"']
  }

  /** One character's text reads back as that character. */
  lemma ReadChar(c: char, rest: string)
    ensures var t := CharText(c) + rest;
            t[0] != '"' && t[0] >= ' ' &&
            (if t[0] == '\\' then Escaped(t[1..]) else Some((t[0], t[1..]))) == Some((c, rest))
  {}

  lemma {:induction false} ReadChars(s: string, rest: string)
    ensures ParseString(CharsText(s) + ['"'] + rest) == Some((s, rest))
  {
    var t := CharsText(s) + ['"'] + rest;
    if s == [] {
      assert t == ['"'] + rest && t[1..] == rest;
    } else {
      var tail := CharsText(s[1..]) + ['"'] + rest;
      assert t == CharText(s[0]) + tail;
      ReadChar(s[0], tail);
      ReadChars(s[1..], rest);
      assert s == [s[0]] + s[1..];
    }
  }

  lemma ReadString(s: string, rest: string)
    ensures StringText(s) + rest == ['"'] + (CharsText(s) + ['"'] + rest)
    ensures (StringText(s) + rest)[1..] == CharsText(s) + ['"'] + rest
    ensures ParseString((StringText(s) + rest)[1..]) == Some((s, rest))
  {
    ReadChars(s, rest);
    hide ParseString, CharsText;
    assert StringText(s) + rest == ['"'] + (CharsText(s) + ['"'] + rest);
  }

  // ----- numbers -----

  /** What may stand behind a value: nothing that could continue a number. */
  predicate EndsNumber(rest: string) {
    rest == [] || (!IsDigit(rest[0]) && rest[0] != '.' && rest[0] != 'e' && rest[0] != 'E')
  }

  lemma {:induction false} DigitsStop(s: string, rest: string)
    requires EndsNumber(rest)
    ensures Digits(s + rest) == Digits(s)
  {
    if s == [] {
      assert s + rest == rest;
    } else {
      assert (s + rest)[1..] == s[1..] + rest;
      DigitsStop(s[1..], rest);
    }
  }

  lemma FractionStops(s: string, rest: string)
    requires EndsNumber(rest)
    ensures FractionLength(s + rest) == FractionLength(s)
  {
    if s == [] {
      assert s + rest == rest;
    } else {
      assert (s + rest)[1..] == s[1..] + rest;
      DigitsStop(s[1..], rest);
    }
  }

  lemma ExponentStops(s: string, rest: string)
    requires EndsNumber(rest) && ExponentLength(s).Some?
    ensures ExponentLength(s + rest) == ExponentLength(s)
  {
    if s == [] {
      assert s + rest == rest;
    } else if s[0] == 'e' || s[0] == 'E' {
      assert |s| > 1;
      var sign := if s[1] == '+' || s[1] == '-' then 1 else 0;
      assert (s + rest)[1 + sign..] == s[1 + sign..] + rest;
      DigitsStop(s[1 + sign..], rest);
    }
  }

  lemma IntegerStops(s: string, rest: string)
    requires EndsNumber(rest)
    ensures IntegerLength(s + rest) == IntegerLength(s)
  {
    DigitsStop(s, rest);
    if s == [] { assert s + rest == rest; }
  }

  /** A number literal is read back whole. */
  lemma ReadNumber(literal: string, rest: string)
    requires IsNumber(literal) && EndsNumber(rest)
    ensures NumberLength(literal + rest) == Some(|literal|)
  {
    hide IntegerLength, FractionLength, ExponentLength, EndsNumber;
    var minus := if literal[0] == '-' then 1 else 0;
    var afterMinus := literal[minus..];
    assert (literal + rest)[minus..] == afterMinus + rest;
    var integer := IntegerLength(afterMinus);
    IntegerStops(afterMinus, rest);
    var afterInteger := literal[minus + integer..];
    assert (literal + rest)[minus + integer..] == afterInteger + rest;
    FractionStops(afterInteger, rest);
    var fraction := FractionLength(afterInteger).value;
    var afterFraction := literal[minus + integer + fraction..];
    assert (literal + rest)[minus + integer + fraction..] == afterFraction + rest;
    ExponentStops(afterFraction, rest);
  }

  // ----- values -----

  ghost function Text(v: Json): string
    decreases v, 1, 0, 0
  {
    match v
    case Null => "null"
    case Bool(b) => if b then "true" else "false"
    case Number(literal) => literal
    case Str(s) => StringText(s)
    case Arr(items) => ['['] + ItemsFrom(v, 0) + [']']
    case Obj(fields) => ['{'] + FieldsFrom(v, SortedSet(fields.Keys), 0) + ['}']
  }

  /** What is still to be written of an array when i items are: a comma first, unless nothing precedes. */
  ghost function ItemsFrom(v: Json, i: nat): string
    requires v.Arr? && i <= |v.items|
    decreases v, 0, |v.items| - i, 1
  {
    if i == |v.items| then [] else if i == 0 then ItemsText(v, 0) else [','] + ItemsText(v, i)
  }

  ghost function ItemsText(v: Json, i: nat): string
    requires v.Arr? && i < |v.items|
    decreases v, 0, |v.items| - i, 0
  {
    Text(v.items[i]) + ItemsFrom(v, i + 1)
  }

  /** The same for an object whose keys are written in the order `keys`. */
  ghost function FieldsFrom(v: Json, keys: seq<string>, i: nat): string
    requires v.Obj? && i <= |keys| && forall k | k in keys :: k in v.fields
    decreases v, 0, |keys| - i, 1
  {
    if i == |keys| then [] else if i == 0 then FieldsText(v, keys, 0) else [','] + FieldsText(v, keys, i)
  }

  ghost function FieldsText(v: Json, keys: seq<string>, i: nat): string
    requires v.Obj? && i < |keys| && forall k | k in keys :: k in v.fields
    decreases v, 0, |keys| - i, 0
  {
    StringText(keys[i]) + [':'] + Text(v.fields[keys[i]]) + FieldsFrom(v, keys, i + 1)
  }

  /** The canonical text of a decodable value starts like a value, so no space is skipped in front of it. */
  lemma TextStarts(v: Json)
    requires Decodable(v)
    ensures Text(v) != [] && !IsSpace(Text(v)[0])
    ensures Text(v)[0] != ']' && Text(v)[0] != '}'
  {}

  // What each production of the decoder does, given what its parts do.

  lemma ReadArray(body: string, items: seq<Json>, rest: string)
    requires body != [] && !IsSpace(body[0]) && body[0] != ']'
    requires ParseItems(body) == Some((items, rest))
    ensures ParseValue(['['] + body) == Some((Arr(items), rest))
  {}

  lemma ReadObject(body: string, fields: map<string, Json>, rest: string)
    requires body != [] && !IsSpace(body[0]) && body[0] != '}'
    requires ParseFields(body, map[]) == Some((fields, rest))
    ensures ParseValue(['{'] + body) == Some((Obj(fields), rest))
  {}

  lemma ReadEmpty(rest: string)
    ensures ParseValue(['[', ']'] + rest) == Some((Arr([]), rest))
    ensures ParseValue(['{', '}'] + rest) == Some((Obj(map[]), rest))
  {}

  lemma ReadItem(s: string, x: Json, after: string, xs: seq<Json>, rest: string)
    requires ParseValue(s) == Some((x, after)) && after != []
    requires (after[0] == ']' && xs == [] && rest == after[1..]) ||
             (after[0] == ',' && ParseItems(after[1..]) == Some((xs, rest)))
    ensures ParseItems(s) == Some(([x] + xs, rest))
  {
    hide ParseValue;
    assert SkipSpace(after) == after;
    assert [x] + [] == [x];
  }

  lemma ReadField(k: string, s: string, x: Json, after: string, before: map<string, Json>,
                  fields: map<string, Json>, rest: string)
    requires ParseValue(s) == Some((x, after)) && after != []
    requires (after[0] == '}' && fields == before[k := x] && rest == after[1..]) ||
             (after[0] == ',' && ParseFields(after[1..], before[k := x]) == Some((fields, rest)))
    ensures ParseFields(StringText(k) + ([':'] + s), before) == Some((fields, rest))
  {
    var t, u := StringText(k) + ([':'] + s), [':'] + s;
    ReadString(k, u);
    hide ParseValue, ParseString, StringText;
    assert SkipSpace(t) == t && SkipSpace(u) == u && u[1..] == s && SkipSpace(after) == after;
  }

  lemma ReadWord(v: Json, rest: string)
    requires v.Null? || v.Bool?
    ensures ParseValue(Text(v) + rest) == Some((v, rest))
  {
    hide ParseItems, ParseFields, ParseString, NumberLength;
    var t := Text(v) + rest;
    assert SkipSpace(t) == t;
    assert t[|Text(v)|..] == rest && t[..|Text(v)|] == Text(v);
  }

  lemma ValueOfNumber(t: string, n: nat)
    requires t != [] && (t[0] == '-' || IsDigit(t[0])) && NumberLength(t) == Some(n)
    ensures ParseValue(t) == Some((Number(t[..n]), t[n..]))
  {
    hide ParseItems, ParseFields, ParseString, NumberLength;
    assert SkipSpace(t) == t;
    assert "null"[0] == 'n' && "true"[0] == 't' && "false"[0] == 'f';
  }

  lemma ReadNumberValue(literal: string, rest: string)
    requires IsNumber(literal) && EndsNumber(rest)
    ensures ParseValue(literal + rest) == Some((Number(literal), rest))
  {
    var t := literal + rest;
    NumberStarts(literal);
    ReadNumber(literal, rest);
    hide NumberLength, ParseValue;
    ValueOfNumber(t, |literal|);
    assert t[..|literal|] == literal && t[|literal|..] == rest;
  }

  lemma ReadStringValue(s: string, rest: string)
    ensures ParseValue(StringText(s) + rest) == Some((Str(s), rest))
  {
    hide ParseItems, ParseFields, ParseString;
    var t := StringText(s) + rest;
    ReadString(s, rest);
    assert SkipSpace(t) == t;
  }

  lemma ReadScalar(v: Json, rest: string)
    requires Decodable(v) && !v.Arr? && !v.Obj? && EndsNumber(rest)
    ensures ParseValue(Text(v) + rest) == Some((v, rest))
  {
    hide ParseValue;
    match v
    case Number(literal) => ReadNumberValue(literal, rest);
    case Str(s) => ReadStringValue(s, rest);
    case _ => ReadWord(v, rest);
  }

  lemma NumberStarts(literal: string)
    requires IsNumber(literal)
    ensures literal != [] && (literal[0] == '-' || IsDigit(literal[0]))
  {}

  lemma Regroup(a: string, b: string, c: string, d: string, e: string)
    ensures a + b + c + d + e == a + (b + (c + (d + e)))
    ensures a + b + c + d == a + (b + (c + d))
    ensures a + b + c == a + (b + c)
  {}

  /** Reading a value back, whatever follows it. */
  lemma {:induction false} ReadValue(v: Json, rest: string)
    requires Decodable(v) && EndsNumber(rest)
    ensures ParseValue(Text(v) + rest) == Some((v, rest))
    decreases v, 1, 0, 0
  {
    hide ParseValue, ParseItems, ParseFields, SkipSpace;
    match v
    case Arr(items) =>
      ReadArrayBack(v, rest);
    case Obj(fields) =>
      ReadObjectBack(v, rest);
    case _ =>
      ReadScalar(v, rest);
  }

  lemma {:induction false} ReadArrayBack(v: Json, rest: string)
    requires Decodable(v) && v.Arr? && EndsNumber(rest)
    ensures ParseValue(Text(v) + rest) == Some((v, rest))
    decreases v, 0, |v.items| + 1, 0
  {
    hide ParseValue, ParseItems, ParseFields, SkipSpace;
    Regroup(['['], ItemsFrom(v, 0), [']'], rest, []);
    if v.items == [] {
      ReadEmpty(rest);
      assert Text(v) + rest == ['[', ']'] + rest;
    } else {
      TextStarts(v.items[0]);
      ReadItems(v, 0, rest);
      assert (ItemsText(v, 0) + ([']'] + rest))[0] == Text(v.items[0])[0];
      hide ItemsText;
      ReadArray(ItemsText(v, 0) + ([']'] + rest), v.items, rest);
    }
  }

  lemma {:induction false} ReadObjectBack(v: Json, rest: string)
    requires Decodable(v) && v.Obj? && EndsNumber(rest)
    ensures ParseValue(Text(v) + rest) == Some((v, rest))
    decreases v, 0, |SortedSet(v.fields.Keys)| + 1, 0
  {
    hide ParseValue, ParseItems, ParseFields, SkipSpace, SortedSet;
    var keys := SortedSet(v.fields.Keys);
    Regroup(['{'], FieldsFrom(v, keys, 0), ['}'], rest, []);
    if keys == [] {
      assert v.fields == map[];
      ReadEmpty(rest);
      assert Text(v) + rest == ['{', '}'] + rest;
    } else {
      ReadFields(v, keys, 0, map[], rest);
      assert (FieldsText(v, keys, 0) + (['}'] + rest))[0] == '"';
      hide FieldsText;
      ReadObject(FieldsText(v, keys, 0) + (['}'] + rest), v.fields, rest);
    }
  }

  lemma {:induction false} ReadItems(v: Json, i: nat, rest: string)
    requires Decodable(v) && v.Arr? && i < |v.items|
    ensures ParseItems(ItemsText(v, i) + ([']'] + rest)) == Some((v.items[i..], rest))
    decreases v, 0, |v.items| - i, 0
  {
    hide ParseValue, ParseItems, Text;
    var x, end := v.items[i], [']'] + rest;
    var after := ItemsFrom(v, i + 1) + end;
    Regroup(Text(x), ItemsFrom(v, i + 1), end, [], []);
    assert v.items[i..] == [x] + v.items[i + 1..];
    if i + 1 < |v.items| {
      ReadItems(v, i + 1, rest);
      Regroup([','], ItemsText(v, i + 1), end, [], []);
      hide ItemsText;
      assert after[1..] == ItemsText(v, i + 1) + end;
      ReadValue(x, after);
      ReadItem(Text(x) + after, x, after, v.items[i + 1..], rest);
    } else {
      assert after == end && after[1..] == rest;
      ReadValue(x, after);
      ReadItem(Text(x) + after, x, after, [], rest);
    }
  }

  lemma {:induction false} ReadFields(v: Json, keys: seq<string>, i: nat, before: map<string, Json>, rest: string)
    requires Decodable(v) && v.Obj? && i < |keys|
    requires forall k | k in keys :: k in v.fields
    requires forall k | k in v.fields :: k in keys[i..] || k in before
    requires forall k | k in before :: k in v.fields && before[k] == v.fields[k]
    ensures ParseFields(FieldsText(v, keys, i) + (['}'] + rest), before) == Some((v.fields, rest))
    decreases v, 0, |keys| - i, 0
  {
    hide ParseValue, ParseFields, StringText, Text;
    var k, end := keys[i], ['}'] + rest;
    var x := v.fields[k];
    var after, now := FieldsFrom(v, keys, i + 1) + end, before[k := x];
    Regroup(StringText(k), [':'], Text(x), FieldsFrom(v, keys, i + 1), end);
    assert keys[i..] == [k] + keys[i + 1..];
    if i + 1 < |keys| {
      ReadFields(v, keys, i + 1, now, rest);
      Regroup([','], FieldsText(v, keys, i + 1), end, [], []);
      hide FieldsText;
      assert after[1..] == FieldsText(v, keys, i + 1) + end;
    } else {
      assert after == end && after[1..] == rest;
      assert now == v.fields;
    }
    ReadValue(x, after);
    ReadField(k, Text(x) + after, x, after, before, v.fields, rest);
  }

  /** Different values have different canonical texts. */
  lemma TextInjective(v: Json, w: Json)
    requires Decodable(v) && Decodable(w)
    ensures Text(v) == Text(w) <==> v == w
  {
    ReadValue(v, []);
    ReadValue(w, []);
    assert Text(v) + [] == Text(v) && Text(w) + [] == Text(w);
  }

  lemma BytesInjective(v: Json, w: Json)
    requires Decodable(v) && Decodable(w)
    ensures Encode(Text(v)) == Encode(Text(w)) <==> v == w
  {
    TextInjective(v, w);
    if Encode(Text(v)) == Encode(Text(w)) { EncodeInjective(Text(v), Text(w)); }
  }

  // ----- what the decoder delivers is decodable -----

  lemma {:induction false} DigitsOfPrefix(s: string, k: nat)
    requires Digits(s) <= k <= |s|
    ensures Digits(s[..k]) == Digits(s)
  {
    if s != [] && IsDigit(s[0]) {
      DigitsOfPrefix(s[1..], k - 1);
      assert s[..k][1..] == s[1..][..k - 1];
    }
  }

  lemma IntegerOfPrefix(s: string, k: nat)
    requires IntegerLength(s) <= k <= |s|
    requires IntegerLength(s) > 0
    ensures IntegerLength(s[..k]) == IntegerLength(s)
  {
    if s[0] != '0' { DigitsOfPrefix(s, k); }
  }

  lemma FractionOfPrefix(s: string, k: nat)
    requires FractionLength(s).Some? && FractionLength(s).value <= k <= |s|
    ensures FractionLength(s[..k]) == FractionLength(s)
  {
    if s != [] && s[0] == '.' {
      DigitsOfPrefix(s[1..], k - 1);
      assert s[..k][1..] == s[1..][..k - 1];
    }
  }

  lemma ExponentOfPrefix(s: string, k: nat)
    requires ExponentLength(s).Some? && ExponentLength(s).value <= k <= |s|
    ensures ExponentLength(s[..k]) == ExponentLength(s)
  {
    if s != [] && (s[0] == 'e' || s[0] == 'E') {
      var sign := if |s| > 1 && (s[1] == '+' || s[1] == '-') then 1 else 0;
      DigitsOfPrefix(s[1 + sign..], k - 1 - sign);
      assert s[..k][1 + sign..] == s[1 + sign..][..k - 1 - sign];
    }
  }

  lemma PrefixThenDrop(s: string, n: nat, k: nat)
    requires k <= n <= |s|
    ensures s[..n][k..] == s[k..][..n - k]
  {}

  /** A text starts with a number of these four parts. */
  ghost predicate HasParts(s: string, minus: nat, integer: nat, fraction: nat, exponent: nat) {
    && integer > 0 && minus + integer + fraction + exponent <= |s|
    && minus == (if s != [] && s[0] == '-' then 1 else 0)
    && IntegerLength(s[minus..]) == integer
    && FractionLength(s[minus + integer..]) == Some(fraction)
    && ExponentLength(s[minus + integer + fraction..]) == Some(exponent)
  }

  lemma NumberOfParts(s: string, minus: nat, integer: nat, fraction: nat, exponent: nat)
    requires HasParts(s, minus, integer, fraction, exponent)
    ensures NumberLength(s) == Some(minus + integer + fraction + exponent)
  {
    hide IntegerLength, FractionLength, ExponentLength;
  }

  lemma PartsOfNumber(s: string) returns (minus: nat, integer: nat, fraction: nat, exponent: nat)
    requires NumberLength(s).Some?
    ensures HasParts(s, minus, integer, fraction, exponent)
    ensures NumberLength(s) == Some(minus + integer + fraction + exponent)
  {
    hide IntegerLength, FractionLength, ExponentLength;
    minus := if s[0] == '-' then 1 else 0;
    integer := IntegerLength(s[minus..]);
    fraction := FractionLength(s[minus + integer..]).value;
    exponent := ExponentLength(s[minus + integer + fraction..]).value;
  }

  /** The literal the decoder cuts off is a number. */
  lemma CutIsNumber(s: string)
    requires NumberLength(s).Some?
    ensures IsNumber(s[..NumberLength(s).value])
  {
    hide NumberLength, IntegerLength, FractionLength, ExponentLength;
    var minus, integer, fraction, exponent := PartsOfNumber(s);
    var n := minus + integer + fraction + exponent;
    PrefixThenDrop(s, n, minus);
    PrefixThenDrop(s, n, minus + integer);
    PrefixThenDrop(s, n, minus + integer + fraction);
    IntegerOfPrefix(s[minus..], n - minus);
    FractionOfPrefix(s[minus + integer..], n - minus - integer);
    ExponentOfPrefix(s[minus + integer + fraction..], n - minus - integer - fraction);
    NumberOfParts(s[..n], minus, integer, fraction, exponent);
  }

  lemma {:induction false} ParsedIsDecodable(s: string)
    requires ParseValue(s).Some?
    ensures Decodable(ParseValue(s).value.0)
    decreases |s|, 0
  {
    var t := SkipSpace(s);
    if t[0] == '[' {
      var u := SkipSpace(t[1..]);
      if u == [] || u[0] != ']' { ParsedItemsAreDecodable(u); }
    } else if t[0] == '{' {
      var u := SkipSpace(t[1..]);
      if u == [] || u[0] != '}' { ParsedFieldsAreDecodable(u, map[]); }
    } else if NumberLength(t).Some? {
      CutIsNumber(t);
    }
  }

  lemma {:induction false} ParsedItemsAreDecodable(s: string)
    requires ParseItems(s).Some?
    ensures forall x | x in ParseItems(s).value.0 :: Decodable(x)
    decreases |s|, 1
  {
    hide ParseValue, Decodable;
    ParsedIsDecodable(s);
    var t := SkipSpace(ParseValue(s).value.1);
    if t[0] == ',' { ParsedItemsAreDecodable(t[1..]); }
  }

  lemma {:induction false} ParsedFieldsAreDecodable(s: string, before: map<string, Json>)
    requires ParseFields(s, before).Some?
    requires forall k | k in before :: Decodable(before[k])
    ensures var fields := ParseFields(s, before).value.0;
            forall k | k in fields :: Decodable(fields[k])
    decreases |s|, 1
  {
    hide ParseValue, Decodable;
    var t := SkipSpace(s);
    var (key, afterKey) := ParseString(t[1..]).value;
    var u := SkipSpace(afterKey);
    ParsedIsDecodable(u[1..]);
    var (v, rest) := ParseValue(u[1..]).value;
    var w := SkipSpace(rest);
    if w[0] == ',' { ParsedFieldsAreDecodable(w[1..], before[key := v]); }
  }
}
