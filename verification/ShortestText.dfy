/** The canonical text against every other spelling: none is shorter, its members stand in the order of their keys' bytes,
    and its escapes are lower-case. Together these leave one spelling. */
module ShortestText {
  import opened Options
  import opened Alphabet
  import opened Ordering
  import opened Utf8
  import opened JsonText
  import opened CanonicalText
  import opened CanonicalJson

  // ----- strings -----

  /** The text of a character is no longer than what the decoder read it from. */
  lemma ShortestChar(t: string)
    requires t != [] && t[0] != '"' && t[0] >= ' '
    ensures var first := if t[0] == '\\' then Escaped(t[1..]) else Some((t[0], t[1..]));
            first.Some? ==> |CharText(first.value.0)| + |first.value.1| <= |t|
  {}

  /** No spelling of a string is shorter than the written one. */
  lemma {:induction false} ShortestString(t: string)
    requires ParseString(t).Some?
    ensures |CharsText(ParseString(t).value.0)| + 1 + |ParseString(t).value.1| <= |t|
    decreases |t|
  {
    if t[0] != '"' {
      ShortestChar(t);
      var first := if t[0] == '\\' then Escaped(t[1..]) else Some((t[0], t[1..]));
      ShortestString(first.value.1);
      hide CharText, Escaped;
      var c, cs := first.value.0, ParseString(first.value.1).value.0;
      assert ([c] + cs)[1..] == cs;
    }
  }

  /** An escape is written in lower case. */
  lemma EscapesAreLowerCase(c: char, i: nat)
    requires i < |CharText(c)|
    ensures CharText(c) == [c] || !('A' <= CharText(c)[i] <= 'Z')
  {}

  // ----- sums over the members of an object -----

  ghost function SumOf(w: map<string, nat>): nat
    decreases |w|
  {
    if w == map[] then 0
    else
      var k :| k in w;
      w[k] + SumOf(w - {k})
  }

  /** The order of summation does not matter. */
  lemma {:induction false} SumWithout(w: map<string, nat>, k: string)
    requires k in w
    ensures SumOf(w) == w[k] + SumOf(w - {k})
    decreases |w|
  {
    var first :| first in w && SumOf(w) == w[first] + SumOf(w - {first});
    if first != k {
      SumWithout(w - {first}, k);
      SumWithout(w - {k}, first);
      assert w - {first} - {k} == w - {k} - {first};
    }
  }

  lemma SumUpdated(w: map<string, nat>, k: string, n: nat)
    ensures SumOf(w[k := n]) <= SumOf(w) + n
  {
    SumWithout(w[k := n], k);
    assert w[k := n] - {k} == w - {k};
    if k in w { SumWithout(w, k); } else { assert w - {k} == w; }
  }

  // ----- what a value's text takes -----

  /** An item with the comma or bracket behind it. */
  ghost function ItemsSize(items: seq<Json>): nat {
    if items == [] then 0 else |Text(items[0])| + 1 + ItemsSize(items[1..])
  }

  /** A member: key, colon, value, and the comma or brace behind it. */
  ghost function MemberSize(k: string, v: Json): nat {
    |StringText(k)| + |Text(v)| + 2
  }

  ghost function MemberSizes(fields: map<string, Json>): map<string, nat> {
    map k | k in fields :: MemberSize(k, fields[k])
  }

  lemma {:induction false} ItemsTake(v: Json, i: nat)
    requires v.Arr? && i < |v.items|
    ensures |ItemsText(v, i)| + 1 == ItemsSize(v.items[i..])
    decreases |v.items| - i
  {
    hide Text;
    assert v.items[i..][1..] == v.items[i + 1..];
    if i + 1 < |v.items| {
      ItemsTake(v, i + 1);
    }
  }

  lemma ArrayTakes(v: Json)
    requires v.Arr? && v.items != []
    ensures |Text(v)| == 1 + ItemsSize(v.items)
  {
    ItemsTake(v, 0);
    hide ItemsText;
    assert v.items[0..] == v.items;
    assert ItemsFrom(v, 0) == ItemsText(v, 0);
  }

  ghost function Remaining(w: map<string, nat>, keys: seq<string>, i: nat): map<string, nat>
    requires i <= |keys|
  {
    map k | k in w && k in keys[i..] :: w[k]
  }

  lemma RemainingNext(w: map<string, nat>, keys: seq<string>, i: nat)
    requires i < |keys| && NoRepeats(keys) && forall k | k in keys :: k in w
    ensures SumOf(Remaining(w, keys, i)) == w[keys[i]] + SumOf(Remaining(w, keys, i + 1))
  {
    var now, next := Remaining(w, keys, i), Remaining(w, keys, i + 1);
    assert keys[i..] == [keys[i]] + keys[i + 1..];
    assert keys[i] !in keys[i + 1..];
    SumWithout(now, keys[i]);
    assert now - {keys[i]} == next;
  }

  lemma {:induction false} FieldsTake(v: Json, keys: seq<string>, i: nat)
    requires v.Obj? && i < |keys| && NoRepeats(keys) && forall k | k in keys :: k in v.fields
    ensures |FieldsText(v, keys, i)| + 1 == SumOf(Remaining(MemberSizes(v.fields), keys, i))
    decreases |keys| - i
  {
    hide Text, StringText, SumOf, Remaining;
    RemainingNext(MemberSizes(v.fields), keys, i);
    if i + 1 < |keys| {
      FieldsTake(v, keys, i + 1);
    } else {
      NothingRemains(MemberSizes(v.fields), keys);
    }
  }

  lemma NothingRemains(w: map<string, nat>, keys: seq<string>)
    ensures SumOf(Remaining(w, keys, |keys|)) == 0
  {
    assert Remaining(w, keys, |keys|) == map[];
  }

  lemma ObjectTakes(v: Json)
    requires v.Obj? && v.fields != map[]
    ensures |Text(v)| == 1 + SumOf(MemberSizes(v.fields))
  {
    var keys := SortedSet(v.fields.Keys);
    StrictlySortedHasNoRepeats(keys);
    var some :| some in v.fields;
    assert some in keys;
    FieldsTake(v, keys, 0);
    assert keys[0..] == keys;
    assert Remaining(MemberSizes(v.fields), keys, 0) == MemberSizes(v.fields);
    hide FieldsText, SumOf, Remaining, SortedSet;
    assert FieldsFrom(v, keys, 0) == FieldsText(v, keys, 0);
  }

  // ----- values -----

  /** No spelling of a value is shorter than its canonical text: white space, a repeated member or a longer escape only
      add to it. */
  lemma {:induction false} ShortestValue(s: string)
    requires ParseValue(s).Some?
    ensures |Text(ParseValue(s).value.0)| + |ParseValue(s).value.1| <= |s|
    decreases |s|, 0
  {
    hide SumOf, MemberSizes, ItemsSize, NumberLength, ParseString;
    var t := SkipSpace(s);
    if t[0] == '"' {
      ShortestString(t[1..]);
    } else if t[0] == '[' {
      var u := SkipSpace(t[1..]);
      if u == [] || u[0] != ']' {
        ShortestItems(u);
        ItemsAreSome(u);
        ArrayTakes(ParseValue(s).value.0);
      }
    } else if t[0] == '{' {
      var u := SkipSpace(t[1..]);
      if u == [] || u[0] != '}' {
        ShortestFields(u, map[]);
        FieldsAreSome(u, map[]);
        ObjectTakes(ParseValue(s).value.0);
        NoMembers();
      }
    }
  }

  lemma NoMembers()
    ensures SumOf(MemberSizes(map[])) == 0
  {}

  lemma {:induction false} ItemsAreSome(s: string)
    requires ParseItems(s).Some?
    ensures ParseItems(s).value.0 != []
  {
    hide ParseValue;
  }

  lemma {:induction false} FieldsAreSome(s: string, before: map<string, Json>)
    requires ParseFields(s, before).Some?
    ensures ParseFields(s, before).value.0 != map[]
    decreases |s|
  {
    hide ParseValue, ParseString;
    var afterKey := ParseString(SkipSpace(s)[1..]).value.1;
    var u := SkipSpace(afterKey);
    var w := SkipSpace(ParseValue(u[1..]).value.1);
    var key := ParseString(SkipSpace(s)[1..]).value.0;
    var fields := before[key := ParseValue(u[1..]).value.0];
    assert key in fields;
    if w[0] == ',' { FieldsAreSome(w[1..], fields); }
  }

  lemma {:induction false} ShortestItems(s: string)
    requires ParseItems(s).Some?
    ensures ItemsSize(ParseItems(s).value.0) + |ParseItems(s).value.1| <= |s|
    decreases |s|, 1
  {
    hide ParseValue, Text;
    ShortestValue(s);
    var (v, rest) := ParseValue(s).value;
    var t := SkipSpace(rest);
    if t[0] == ',' {
      ShortestItems(t[1..]);
      var vs := ParseItems(t[1..]).value.0;
      assert ([v] + vs)[1..] == vs;
    }
  }

  lemma MemberAdded(before: map<string, Json>, key: string, v: Json)
    ensures SumOf(MemberSizes(before[key := v])) <= SumOf(MemberSizes(before)) + |StringText(key)| + |Text(v)| + 2
  {
    hide SumOf, StringText, Text, MemberSizes;
    MemberSized(before, key, v);
    SumUpdated(MemberSizes(before), key, MemberSize(key, v));
  }

  lemma MemberSized(before: map<string, Json>, key: string, v: Json)
    ensures MemberSizes(before[key := v]) == MemberSizes(before)[key := MemberSize(key, v)]
  {
    hide MemberSize;
  }

  lemma {:induction false} ShortestFields(s: string, before: map<string, Json>)
    requires ParseFields(s, before).Some?
    ensures SumOf(MemberSizes(ParseFields(s, before).value.0)) + |ParseFields(s, before).value.1|
         <= SumOf(MemberSizes(before)) + |s|
    decreases |s|, 1
  {
    hide ParseValue, ParseString, Text, SumOf, MemberSizes, CharsText;
    var (key, afterKey) := ParseString(SkipSpace(s)[1..]).value;
    ShortestString(SkipSpace(s)[1..]);
    var u := SkipSpace(afterKey);
    var (v, rest) := ParseValue(u[1..]).value;
    ShortestValue(u[1..]);
    MemberAdded(before, key, v);
    var w := SkipSpace(rest);
    if w[0] == ',' { ShortestFields(w[1..], before[key := v]); }
  }

  // ----- the order of members -----

  /** x ends where y goes on, or is smaller where they first differ. */
  ghost predicate Before(x: seq<Byte>, y: seq<Byte>) {
    exists n :: 0 <= n <= |x| && n < |y| && x[..n] == y[..n] && (n == |x| || x[n] < y[n])
  }

  lemma {:induction false} BytesLessInWords(x: seq<Byte>, y: seq<Byte>)
    ensures BytesLess(x, y) <==> Before(x, y)
  {
    forall n | 0 < n <= |x| && n < |y| && x[..n] == y[..n] ensures x[0] == y[0] { assert x[..n][0] == y[..n][0]; }
    if x != [] && y != [] && x[0] == y[0] {
      BytesLessInWords(x[1..], y[1..]);
      if Before(x[1..], y[1..]) {
        var n :| 0 <= n <= |x[1..]| && n < |y[1..]| && x[1..][..n] == y[1..][..n] && (n == |x[1..]| || x[1..][n] < y[1..][n]);
        assert x[..n + 1] == [x[0]] + x[1..][..n] && y[..n + 1] == [y[0]] + y[1..][..n];
      }
      if Before(x, y) {
        var n :| 0 <= n <= |x| && n < |y| && x[..n] == y[..n] && (n == |x| || x[n] < y[n]);
        assert x[1..][..n - 1] == x[..n][1..] && y[1..][..n - 1] == y[..n][1..];
      }
    } else if y != [] {
      assert x[..0] == y[..0];
    }
  }

  /** The keys of an object's text in the order a reader meets them; s starts behind the opening brace. */
  function KeysRead(s: string): seq<string>
    decreases |s|
  {
    var t := SkipSpace(s);
    if t == [] || t[0] != '"' || ParseString(t[1..]).None? then []
    else
      var (key, afterKey) := ParseString(t[1..]).value;
      var u := SkipSpace(afterKey);
      if u == [] || ParseValue(u[1..]).None? then [key]
      else
        var w := SkipSpace(ParseValue(u[1..]).value.1);
        if w != [] && w[0] == ',' then [key] + KeysRead(w[1..]) else [key]
  }

  lemma OneKeyRead(key: string, s: string, v: Json, after: string)
    requires ParseValue(s) == Some((v, after)) && after != [] && !IsSpace(after[0])
    ensures KeysRead(StringText(key) + ([':'] + s)) == [key] + if after[0] == ',' then KeysRead(after[1..]) else []
  {
    var t, u := StringText(key) + ([':'] + s), [':'] + s;
    ReadString(key, u);
    hide ParseValue, ParseString, StringText;
    assert SkipSpace(t) == t && SkipSpace(u) == u && u[1..] == s && SkipSpace(after) == after;
  }

  lemma {:induction false} KeysAreRead(v: Json, keys: seq<string>, i: nat)
    requires Decodable(v) && v.Obj? && i < |keys| && forall k | k in keys :: k in v.fields
    ensures KeysRead(FieldsText(v, keys, i) + ['}']) == keys[i..]
    decreases |keys| - i
  {
    hide ParseValue, StringText, Text, KeysRead;
    var k, end := keys[i], ['}'];
    var x, after := v.fields[k], FieldsFrom(v, keys, i + 1) + end;
    Regroup(StringText(k), [':'], Text(x), FieldsFrom(v, keys, i + 1), end);
    assert keys[i..] == [k] + keys[i + 1..];
    if i + 1 < |keys| {
      KeysAreRead(v, keys, i + 1);
      Regroup([','], FieldsText(v, keys, i + 1), end, [], []);
      hide FieldsText;
      assert after[1..] == FieldsText(v, keys, i + 1) + end;
    } else {
      assert after == end;
    }
    ReadValue(x, after);
    OneKeyRead(k, Text(x) + after, x, after);
  }

  /** A reader meets the keys of an object once each, in the order of their UTF-8 bytes. */
  lemma KeysStandInOrder(v: Json)
    requires Decodable(v) && v.Obj? && v.fields != map[]
    ensures Text(v) != [] && Text(v)[0] == '{'
    ensures var keys := KeysRead(Text(v)[1..]);
            && (forall k :: k in keys <==> k in v.fields)
            && forall i, j | 0 <= i < j < |keys| :: Before(Encode(keys[i]), Encode(keys[j]))
  {
    var keys := SortedSet(v.fields.Keys);
    var some :| some in v.fields;
    assert some in keys;
    KeysAreRead(v, keys, 0);
    TextOfMembers(v, keys);
    hide KeysRead, FieldsText, Before, BytesLess, Less, Text, SortedSet, Encode;
    assert keys[0..] == keys;
    KeysInByteOrder(keys);
  }

  lemma TextOfMembers(v: Json, keys: seq<string>)
    requires v.Obj? && keys == SortedSet(v.fields.Keys) && keys != []
    ensures Text(v) != [] && Text(v)[0] == '{' && Text(v)[1..] == FieldsText(v, keys, 0) + ['}']
  {
    hide FieldsText, SortedSet;
    assert FieldsFrom(v, keys, 0) == FieldsText(v, keys, 0);
  }

  lemma KeysInByteOrder(keys: seq<string>)
    requires StrictlySorted(keys)
    ensures forall i, j | 0 <= i < j < |keys| :: Before(Encode(keys[i]), Encode(keys[j]))
  {
    hide Before, BytesLess, Less, Encode;
    forall i, j | 0 <= i < j < |keys| ensures Before(Encode(keys[i]), Encode(keys[j])) {
      ByteOrderIsCodePointOrder(keys[i], keys[j]);
      BytesLessInWords(Encode(keys[i]), Encode(keys[j]));
    }
  }

  // ----- documents and bodies -----

  /** What is canonicalised is the value decoded, and no spelling of it in the document is shorter than the result. */
  lemma CanonicalIsShortest(raw: string)
    requires DocumentValue(raw).Some?
    ensures ParseValue(raw).Some? && DocumentValue(raw).value == ParseValue(raw).value.0
    ensures |Text(DocumentValue(raw).value)| <= |raw|
  {
    ShortestValue(raw);
    hide ParseValue, Text;
  }

  /** What is hashed of an object body: every member but idempotency_key, with its value. */
  lemma PreimageInWords(raw: string)
    requires ParseValue(raw).Some? && ParseValue(raw).value.0.Obj?
    ensures PayloadValue(raw).Some? && PayloadValue(raw).value.Obj?
    ensures var body, hashed := ParseValue(raw).value.0.fields, PayloadValue(raw).value.fields;
            && (forall k :: k in hashed <==> k in body && k != "idempotency_key")
            && forall k | k in hashed :: hashed[k] == body[k]
  {
    hide ParseValue;
  }
}
