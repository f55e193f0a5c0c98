/** The canonical JSON writer, the canonicaliser of documents and the payload digest's preimage. */
module CanonicalJson {
  import opened Alphabet
  import opened Ordering
  import opened Utf8
  import opened JsonText
  import opened Options
  import opened CanonicalText

  /** Go's bytes.Buffer, as far as the writer uses it. */
  class Buffer {
    var bytes: seq<Byte>

    constructor ()
      ensures bytes == []
    {
      bytes := [];
    }

    method WriteRune(c: char)
      modifies this
      ensures bytes == old(bytes) + Encode([c])
    {
      bytes := bytes + EncodeRune(c);
    }

    method WriteString(s: string)
      modifies this
      ensures bytes == old(bytes) + Encode(s)
    {
      bytes := bytes + Encode(s);
    }
  }

  /** Writing `part` where `part + rest` is still to be written leaves `rest`. */
  lemma Wrote(before: seq<Byte>, part: string, rest: string)
    ensures before + Encode(part + rest) == (before + Encode(part)) + Encode(rest)
  {
    EncodeConcat(part, rest);
  }

  /** One character, escaped the way Python's ensure_ascii=False does. */
  method WriteCanonicalRune(buf: Buffer, r: char)
    modifies buf
    ensures buf.bytes == old(buf.bytes) + Encode(CharText(r))
  {
    if r == '"' {
      buf.WriteString(['\\', '"']);
    } else if r == '\\' {
      buf.WriteString(['\\', '\\']);
    } else if r == '\n' {
      buf.WriteString("\\n");
    } else if r == '\r' {
      buf.WriteString("\\r");
    } else if r == '\t' {
      buf.WriteString("\\t");
    } else if r == '\U{0008}' {
      buf.WriteString("\\b");
    } else if r == '\U{000C}' {
      buf.WriteString("\\f");
    } else if r < ' ' {
      var high, low := [HexDigit(r as int / 16)], [HexDigit(r as int % 16)];
      ghost var before := buf.bytes;
      buf.WriteString("\\u00");
      buf.WriteString(high);
      buf.WriteString(low);
      assert CharText(r) == "\\u00" + (high + low);
      Wrote(before, "\\u00", high + low);
      Wrote(before + Encode("\\u00"), high, low);
    } else {
      buf.WriteRune(r);
    }
  }

  method WriteCanonicalString(buf: Buffer, s: string)
    modifies buf
    ensures buf.bytes == old(buf.bytes) + Encode(StringText(s))
  {
    hide CharText, Encode;
    ghost var start := buf.bytes;
    buf.WriteRune('"');
    ghost var open := buf.bytes;
    assert s[0..] == s;
    for i := 0 to |s|
      invariant buf.bytes + Encode(CharsText(s[i..])) == open + Encode(CharsText(s))
    {
      assert s[i..] == [s[i]] + s[i + 1..];
      Wrote(buf.bytes, CharText(s[i]), CharsText(s[i + 1..]));
      WriteCanonicalRune(buf, s[i]);
    }
    EncodeEmpty();
    assert s[|s|..] == [];
    assert buf.bytes == open + Encode(CharsText(s));
    buf.WriteRune('"');
    Wrote(start, ['"'], CharsText(s) + ['"']);
    Wrote(open, CharsText(s), ['"']);
    assert StringText(s) == ['"'] + (CharsText(s) + ['"']);
  }

  /** The keys of an object in whatever order the map is walked, then sorted. */
  method SortedKeys(fields: map<string, Json>) returns (keys: seq<string>)
    ensures keys == SortedSet(fields.Keys)
    ensures SortedByBytes(keys)
  {
    keys := SortedMembers(fields.Keys);
    KeyOrderIsForced(fields.Keys, keys);
  }

  method WriteCanonical(buf: Buffer, v: Json)
    modifies buf
    decreases v, 1
    ensures buf.bytes == old(buf.bytes) + Encode(Text(v))
  {
    match v
    case Null =>
      buf.WriteString("null");
    case Bool(b) =>
      if b {
        buf.WriteString("true");
      } else {
        buf.WriteString("false");
      }
    case Number(literal) =>
      buf.WriteString(literal);
    case Str(s) =>
      WriteCanonicalString(buf, s);
    case Arr(_) =>
      WriteArray(buf, v);
    case Obj(_) =>
      WriteObject(buf, v);
  }

  method WriteArray(buf: Buffer, v: Json)
    requires v.Arr?
    modifies buf
    decreases v, 0
    ensures buf.bytes == old(buf.bytes) + Encode(Text(v))
  {
    hide Encode;
    ghost var start := buf.bytes;
    buf.WriteRune('[');
    ghost var open := buf.bytes;
    for i := 0 to |v.items|
      invariant buf.bytes + Encode(ItemsFrom(v, i)) == open + Encode(ItemsFrom(v, 0))
    {
      if i > 0 {
        Wrote(buf.bytes, [','], ItemsText(v, i));
        buf.WriteRune(',');
      }
      Wrote(buf.bytes, Text(v.items[i]), ItemsFrom(v, i + 1));
      WriteCanonical(buf, v.items[i]);
    }
    EncodeEmpty();
    assert buf.bytes == open + Encode(ItemsFrom(v, 0));
    buf.WriteRune(']');
    Wrote(start, ['['], ItemsFrom(v, 0) + [']']);
    Wrote(open, ItemsFrom(v, 0), [']']);
    assert Text(v) == ['['] + (ItemsFrom(v, 0) + [']']);
  }

  method WriteObject(buf: Buffer, v: Json)
    requires v.Obj?
    modifies buf
    decreases v, 0
    ensures buf.bytes == old(buf.bytes) + Encode(Text(v))
  {
    hide Encode, StringText, SortedSet, SortedByBytes;
    ghost var start := buf.bytes;
    var keys := SortedKeys(v.fields);
    buf.WriteRune('{');
    ghost var open := buf.bytes;
    for i := 0 to |keys|
      invariant buf.bytes + Encode(FieldsFrom(v, keys, i)) == open + Encode(FieldsFrom(v, keys, 0))
    {
      if i > 0 {
        Wrote(buf.bytes, [','], FieldsText(v, keys, i));
        buf.WriteRune(',');
      }
      var k := keys[i];
      Regroup(StringText(k), [':'], Text(v.fields[k]), FieldsFrom(v, keys, i + 1), []);
      Wrote(buf.bytes, StringText(k), [':'] + (Text(v.fields[k]) + FieldsFrom(v, keys, i + 1)));
      WriteCanonicalString(buf, k);
      Wrote(buf.bytes, [':'], Text(v.fields[k]) + FieldsFrom(v, keys, i + 1));
      buf.WriteRune(':');
      Wrote(buf.bytes, Text(v.fields[k]), FieldsFrom(v, keys, i + 1));
      WriteCanonical(buf, v.fields[k]);
    }
    EncodeEmpty();
    assert buf.bytes == open + Encode(FieldsFrom(v, keys, 0));
    buf.WriteRune('}');
    Wrote(start, ['{'], FieldsFrom(v, keys, 0) + ['}']);
    Wrote(open, FieldsFrom(v, keys, 0), ['}']);
    assert Text(v) == ['{'] + (FieldsFrom(v, keys, 0) + ['}']);
  }

  // ----- documents -----

  /** Go's Decoder.More: something other than a closing bracket or brace follows. */
  predicate More(rest: string) {
    var t := SkipSpace(rest);
    t != [] && t[0] != ']' && t[0] != '}'
  }

  /** The value a document is canonicalised from; None is a decoding error or trailing data. */
  function DocumentValue(raw: string): Option<Json> {
    match ParseValue(raw)
    case None => None
    case Some((v, rest)) => if More(rest) then None else Some(v)
  }

  method CanonicalJSONBytes(raw: string) returns (r: Option<seq<Byte>>)
    ensures DocumentValue(raw).None? ==> r == None
    ensures DocumentValue(raw).Some? ==> r == Some(Encode(Text(DocumentValue(raw).value)))
  {
    match ParseValue(raw) {
      case None =>
        return None;
      case Some((v, rest)) =>
        if More(rest) {
          return None;
        }
        var buf := new Buffer();
        WriteCanonical(buf, v);
        assert buf.bytes == Encode(Text(v));
        return Some(buf.bytes);
    }
  }

  /** The body PayloadDigestV1 hashes: an object without its idempotency key. A body of `null` leaves
      the map nil, which is hashed as null; any other value is refused. Data behind the value is not looked at. */
  function PayloadValue(raw: string): Option<Json> {
    match ParseValue(raw)
    case Some((Obj(fields), _)) => Some(Obj(fields - {IDEMPOTENCY_KEY}))
    case Some((Null, _)) => Some(Null)
    case _ => None
  }

  const IDEMPOTENCY_KEY := "idempotency_key"

  /** What PayloadDigestV1 feeds to SHA-256. */
  method PayloadPreimageV1(raw: string) returns (r: Option<seq<Byte>>)
    ensures PayloadValue(raw).None? ==> r == None
    ensures PayloadValue(raw).Some? ==> r == Some(Encode(Text(PayloadValue(raw).value)))
  {
    match ParseValue(raw) {
      case Some((Obj(fields), _)) =>
        var m := fields;
        m := m - {IDEMPOTENCY_KEY};
        var buf := new Buffer();
        WriteCanonical(buf, Obj(m));
        assert buf.bytes == Encode(Text(Obj(m)));
        return Some(buf.bytes);
      case Some((Null, _)) =>
        var buf := new Buffer();
        WriteCanonical(buf, Null);
        assert buf.bytes == Encode(Text(Null));
        return Some(buf.bytes);
      case _ =>
        return None;
    }
  }

  // ----- the laws -----

  /** Canonicalising a canonical document changes nothing. */
  lemma CanonicalIsStable(raw: string)
    requires DocumentValue(raw).Some?
    ensures DocumentValue(Text(DocumentValue(raw).value)) == DocumentValue(raw)
  {
    hide ParseValue, Text, Decodable;
    var v := DocumentValue(raw).value;
    ParsedIsDecodable(raw);
    ReadValue(v, []);
    assert Text(v) + [] == Text(v);
  }

  /** Two documents have the same canonical bytes exactly when they decode to the same value. */
  lemma SameBytesIffSameValue(a: string, b: string)
    requires DocumentValue(a).Some? && DocumentValue(b).Some?
    ensures Encode(Text(DocumentValue(a).value)) == Encode(Text(DocumentValue(b).value))
            <==> DocumentValue(a) == DocumentValue(b)
  {
    hide ParseValue, Text, Decodable, Encode;
    ParsedIsDecodable(a);
    ParsedIsDecodable(b);
    BytesInjective(DocumentValue(a).value, DocumentValue(b).value);
  }

  /** The two request bodies carry the same members, the idempotency key aside. */
  predicate SameApartFromKey(a: Json, b: Json) {
    match (a, b)
    case (Obj(fa), Obj(fb)) =>
      && (forall k | k in fa && k != IDEMPOTENCY_KEY :: k in fb && fb[k] == fa[k])
      && (forall k | k in fb && k != IDEMPOTENCY_KEY :: k in fa)
    case (Null, Null) => true
    case _ => false
  }

  lemma WithoutKey(fa: map<string, Json>, fb: map<string, Json>)
    ensures fa - {IDEMPOTENCY_KEY} == fb - {IDEMPOTENCY_KEY} <==> SameApartFromKey(Obj(fa), Obj(fb))
  {
    var a, b := fa - {IDEMPOTENCY_KEY}, fb - {IDEMPOTENCY_KEY};
    if a == b {
      forall k | k in fa && k != IDEMPOTENCY_KEY ensures k in fb && fb[k] == fa[k] {
        assert k in a && k in b;
      }
      forall k | k in fb && k != IDEMPOTENCY_KEY ensures k in fa { assert k in b && k in a; }
    }
  }

  /** Two accepted bodies are hashed over the same bytes exactly when they agree apart from the idempotency key. */
  lemma SamePreimageIff(a: string, b: string)
    requires PayloadValue(a).Some? && PayloadValue(b).Some?
    ensures Encode(Text(PayloadValue(a).value)) == Encode(Text(PayloadValue(b).value))
            <==> SameApartFromKey(ParseValue(a).value.0, ParseValue(b).value.0)
  {
    hide ParseValue, Text, Encode;
    ParsedIsDecodable(a);
    ParsedIsDecodable(b);
    var va, vb := PayloadValue(a).value, PayloadValue(b).value;
    BytesInjective(va, vb);
    if va.Obj? && vb.Obj? {
      WithoutKey(ParseValue(a).value.0.fields, ParseValue(b).value.0.fields);
    }
  }

  // ----- where the code accepts more than its comments say -----

  /** Trailing data is refused exactly when it does not start, after white space, with a closing bracket or brace. */
  lemma TrailingDataRefusedIff(raw: string)
    requires ParseValue(raw).Some? && SkipSpace(ParseValue(raw).value.1) != []
    ensures DocumentValue(raw).None? <==> SkipSpace(ParseValue(raw).value.1)[0] !in {']', '}'}
  {
    hide ParseValue;
  }

  lemma TrailingCloserPasses()
    ensures DocumentValue("1]") == Some(Number("1"))
  {
    OneThenRest("]");
    assert "1" + "]" == "1]";
  }

  /** A data byte behind the value is refused, as the comment says. */
  lemma TrailingDigitIsRefused()
    ensures DocumentValue("1 1") == None
  {
    OneThenRest(" 1");
    assert "1" + " 1" == "1 1";
  }

  /** A digit in front of anything that ends a number is read alone. */
  lemma OneThenRest(rest: string)
    requires EndsNumber(rest)
    ensures ParseValue("1" + rest) == Some((Number("1"), rest))
  {
    assert NumberLength("1") == Some(1);
    ReadNumber("1", rest);
    assert ("1" + rest)[..1] == "1" && ("1" + rest)[1..] == rest;
  }

  /** The digest takes a body that is no object exactly when it is null, and hashes null for it. */
  lemma NullBodyIff(raw: string)
    ensures PayloadValue(raw) == Some(Null) <==> ParseValue(raw).Some? && ParseValue(raw).value.0 == Null
    ensures PayloadValue(raw).Some? <==>
              ParseValue(raw).Some? && (ParseValue(raw).value.0.Obj? || ParseValue(raw).value.0 == Null)
  {
    hide ParseValue;
  }

  lemma NullBodyIsHashed()
    ensures PayloadValue("null") == Some(Null) && Text(Null) == "null"
  {
    assert SkipSpace("null") == "null";
  }
}
