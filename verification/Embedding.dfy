/** Embedding vectors as base64 of little-endian 32-bit words (RFC 4648, section 4). A float32 is its bit pattern. */
module Embedding {
  import opened Alphabet
  import opened Options

  type Word = w: int | 0 <= w < 0x1_0000_0000

  // ----- base64 -----

  const PAD := '='

  function Digit(n: int): (ch: char)
    requires 0 <= n < 64
    ensures Value(ch) == Some(n) && ch != PAD && ch != '\r' && ch != '\n'
  {
    if n < 26 then 'A' + n as char
    else if n < 52 then 'a' + (n - 26) as char
    else if n < 62 then '0' + (n - 52) as char
    else if n == 62 then '+' else '/'
  }

  function Value(ch: char): (n: Option<int>)
    ensures n.Some? ==> 0 <= n.value < 64
  {
    if 'A' <= ch <= 'Z' then Some((ch - 'A') as int)
    else if 'a' <= ch <= 'z' then Some((ch - 'a') as int + 26)
    else if '0' <= ch <= '9' then Some((ch - '0') as int + 52)
    else if ch == '+' then Some(62)
    else if ch == '/' then Some(63)
    else None
  }

  // Three bytes as four six-bit numbers, and back.

  type Sextet = n: int | 0 <= n < 64

  function Sextet0(x: Byte): Sextet { x / 4 }
  function Sextet1(x: Byte, y: Byte): Sextet { x % 4 * 16 + y / 16 }
  function Sextet2(y: Byte, z: Byte): Sextet { y % 16 * 4 + z / 64 }
  function Sextet3(z: Byte): Sextet { z % 64 }
  function Byte0(a: Sextet, b: Sextet): Byte { a as int * 4 + b / 16 }
  function Byte1(b: Sextet, c: Sextet): Byte { b % 16 * 16 + c / 4 }
  function Byte2(c: Sextet, d: Sextet): Byte { c % 4 * 64 + d }

  lemma SextetsHoldBytes(x: Byte, y: Byte, z: Byte)
    ensures Byte0(Sextet0(x), Sextet1(x, y)) == x
    ensures Byte1(Sextet1(x, y), Sextet2(y, z)) == y
    ensures Byte2(Sextet2(y, z), Sextet3(z)) == z
  {}

  function ToBase64(b: seq<Byte>): string {
    if b == [] then ""
    else if |b| == 1 then [Digit(Sextet0(b[0])), Digit(Sextet1(b[0], 0)), PAD, PAD]
    else if |b| == 2 then [Digit(Sextet0(b[0])), Digit(Sextet1(b[0], b[1])), Digit(Sextet2(b[1], 0)), PAD]
    else
      [Digit(Sextet0(b[0])), Digit(Sextet1(b[0], b[1])), Digit(Sextet2(b[1], b[2])), Digit(Sextet3(b[2]))] + ToBase64(b[3..])
  }

  /** Go's decoder skips line breaks wherever they stand. */
  function WithoutBreaks(s: string): (t: string)
    ensures (forall i | 0 <= i < |s| :: s[i] != '\r' && s[i] != '\n') ==> t == s
  {
    if s == "" then ""
    else if s[0] == '\r' || s[0] == '\n' then WithoutBreaks(s[1..])
    else [s[0]] + WithoutBreaks(s[1..])
  }

  /** Whole quanta, padding only in the last one; bits the padding leaves over are ignored. */
  function Quanta(s: string): Option<seq<Byte>> {
    if s == "" then Some([])
    else if |s| < 4 || Value(s[0]).None? || Value(s[1]).None? then None
    else
      var a, b := Value(s[0]).value, Value(s[1]).value;
      if s[2] == PAD then
        if s[3] == PAD && |s| == 4 then Some([Byte0(a, b)]) else None
      else if Value(s[2]).None? then None
      else
        var c := Value(s[2]).value;
        if s[3] == PAD then
          if |s| == 4 then Some([Byte0(a, b), Byte1(b, c)]) else None
        else if Value(s[3]).None? then None
        else
          var rest := Quanta(s[4..]);
          if rest.None? then None
          else Some([Byte0(a, b), Byte1(b, c), Byte2(c, Value(s[3]).value)] + rest.value)
  }

  function FromBase64(s: string): Option<seq<Byte>> {
    Quanta(WithoutBreaks(s))
  }

  lemma {:induction false} QuantaUndoesToBase64(b: seq<Byte>)
    ensures Quanta(ToBase64(b)) == Some(b)
  {
    hide Digit, Value, Sextet0, Sextet1, Sextet2, Sextet3, Byte0, Byte1, Byte2;
    if b != [] {
      SextetsHoldBytes(b[0], if |b| > 1 then b[1] else 0, if |b| > 2 then b[2] else 0);
    }
    if |b| == 1 {
      assert b == [b[0]];
    } else if |b| == 2 {
      assert b == [b[0], b[1]];
    } else if |b| >= 3 {
      QuantaUndoesToBase64(b[3..]);
      assert ToBase64(b)[4..] == ToBase64(b[3..]);
      assert b == [b[0], b[1], b[2]] + b[3..];
    }
  }

  lemma {:induction false} ToBase64HasNoBreaks(b: seq<Byte>)
    ensures forall ch | ch in ToBase64(b) :: ch != '\r' && ch != '\n'
  {
    hide Digit, Value, Sextet0, Sextet1, Sextet2, Sextet3;
    if |b| >= 3 { ToBase64HasNoBreaks(b[3..]); }
  }

  lemma Base64RoundTrip(b: seq<Byte>)
    ensures FromBase64(ToBase64(b)) == Some(b)
  {
    QuantaUndoesToBase64(b);
    ToBase64HasNoBreaks(b);
    hide ToBase64, Quanta, WithoutBreaks;
    var s := ToBase64(b);
    assert forall i | 0 <= i < |s| :: s[i] in s;
  }

  // ----- words -----

  function LittleEndian(w: Word): (b: seq<Byte>)
    ensures |b| == 4
  {
    [w % 0x100, w / 0x100 % 0x100, w / 0x1_0000 % 0x100, w / 0x100_0000]
  }

  function WordAt(b: seq<Byte>): Word
    requires |b| == 4
  {
    FromBytes(b[0], b[1], b[2], b[3])
  }

  function FromBytes(w: int, x: int, y: int, z: int): int {
    w + 0x100 * x + 0x1_0000 * y + 0x100_0000 * z
  }

  function Pack(vec: seq<Word>): (b: seq<Byte>)
    ensures |b| == 4 * |vec|
  {
    if vec == [] then [] else Pack(vec[..|vec| - 1]) + LittleEndian(vec[|vec| - 1])
  }

  function Unpack(b: seq<Byte>): (vec: seq<Word>)
    requires |b| % 4 == 0
    ensures 4 * |vec| == |b|
  {
    if b == [] then [] else Unpack(b[..|b| - 4]) + [WordAt(b[|b| - 4..])]
  }

  lemma WordRoundTrip(w: Word)
    ensures WordAt(LittleEndian(w)) == w
  {
    assert w == w % 0x100 + 0x100 * (w / 0x100);
    assert w / 0x100 == w / 0x100 % 0x100 + 0x100 * (w / 0x1_0000);
    assert w / 0x1_0000 == w / 0x1_0000 % 0x100 + 0x100 * (w / 0x100_0000);
  }

  lemma BytesRoundTrip(b: seq<Byte>)
    requires |b| == 4
    ensures LittleEndian(WordAt(b)) == b
  {
    var w, x, y, z := b[0] as int, b[1] as int, b[2] as int, b[3] as int;
    LowByte(w, FromBytes(x, y, z, 0));
    LowByte(x, FromBytes(y, z, 0, 0));
    LowByte(y, z);
    ShiftedTwice(WordAt(b));
    assert b == [b[0], b[1], b[2], b[3]];
  }

  lemma LowByte(low: int, high: int)
    requires 0 <= low < 0x100 && 0 <= high
    ensures (low + 0x100 * high) % 0x100 == low && (low + 0x100 * high) / 0x100 == high
  {}

  lemma ShiftedTwice(w: int)
    requires 0 <= w
    ensures w / 0x1_0000 == w / 0x100 / 0x100 && w / 0x100_0000 == w / 0x100 / 0x100 / 0x100
  {}

  lemma PackPrefix(vec: seq<Word>, i: nat)
    ensures Pack([]) == []
    ensures i < |vec| ==> Pack(vec[..i + 1]) == Pack(vec[..i]) + LittleEndian(vec[i])
  {
    hide LittleEndian;
    if i < |vec| { assert vec[..i + 1][..i] == vec[..i]; }
  }

  lemma UnpackAppend(front: seq<Byte>, last: seq<Byte>)
    requires |front| % 4 == 0 && |last| == 4
    ensures |front + last| % 4 == 0 && Unpack(front + last) == Unpack(front) + [WordAt(last)]
  {
    hide WordAt;
    assert (front + last)[..|front|] == front && (front + last)[|front|..] == last;
  }

  lemma {:induction false} UnpackUndoesPack(vec: seq<Word>)
    ensures Unpack(Pack(vec)) == vec
  {
    hide LittleEndian, WordAt;
    if vec != [] {
      hide Pack, Unpack;
      var n := |vec| - 1;
      PackPrefix(vec, n);
      UnpackUndoesPack(vec[..n]);
      WordRoundTrip(vec[n]);
      UnpackAppend(Pack(vec[..n]), LittleEndian(vec[n]));
      assert vec == vec[..n + 1] && vec == vec[..n] + [vec[n]];
    }
  }

  lemma PackAppend(front: seq<Word>, last: Word)
    ensures Pack(front + [last]) == Pack(front) + LittleEndian(last)
  {
    hide LittleEndian;
    assert (front + [last])[..|front|] == front;
  }

  lemma {:induction false} PackUndoesUnpack(b: seq<Byte>)
    requires |b| % 4 == 0
    ensures Pack(Unpack(b)) == b
  {
    hide LittleEndian, WordAt;
    if b != [] {
      hide Pack, Unpack;
      var front, last := b[..|b| - 4], b[|b| - 4..];
      assert b == front + last;
      PackUndoesUnpack(front);
      BytesRoundTrip(last);
      UnpackAppend(front, last);
      PackAppend(Unpack(front), WordAt(last));
    }
  }

  // ----- the two operations -----

  datatype Decoded = Vector(vec: seq<Word>) | NotBase64 | WrongLength(bytes: nat)

  function Decode(s: string): Decoded {
    match FromBase64(s)
    case None => NotBase64
    case Some(b) => if |b| % 4 != 0 then WrongLength(|b|) else Vector(Unpack(b))
  }

  method EncodeEmbedding(vec: seq<Word>) returns (s: string)
    ensures s == ToBase64(Pack(vec))
    ensures Decode(s) == Vector(vec)
  {
    hide ToBase64, LittleEndian, Decode, Pack;
    PackPrefix(vec, 0);
    var buf := new Byte[4 * |vec|];
    for i := 0 to |vec|
      invariant buf[..4 * i] == Pack(vec[..i])
    {
      PutUint32(buf, 4 * i, vec[i]);
      PackPrefix(vec, i);
      assert buf[..4 * (i + 1)] == buf[..4 * i] + buf[4 * i..4 * i + 4];
    }
    assert vec[..|vec|] == vec && buf[..] == buf[..4 * |vec|];
    EmbeddingRoundTrip(vec);
    return ToBase64(buf[..]);
  }

  lemma UnpackPrefix(buf: seq<Byte>, i: nat)
    ensures Unpack([]) == []
    ensures 4 * i + 4 <= |buf| ==> Unpack(buf[..4 * i + 4]) == Unpack(buf[..4 * i]) + [WordAt(buf[4 * i..4 * i + 4])]
  {
    hide WordAt;
    if 4 * i + 4 <= |buf| {
      var head := buf[..4 * i + 4];
      assert head[..|head| - 4] == buf[..4 * i] && head[|head| - 4..] == buf[4 * i..4 * i + 4];
    }
  }

  /** binary.LittleEndian.PutUint32. */
  method PutUint32(buf: array<Byte>, at: nat, w: Word)
    requires at + 4 <= buf.Length
    modifies buf
    ensures buf[at..at + 4] == LittleEndian(w)
    ensures buf[..at] == old(buf[..at]) && buf[at + 4..] == old(buf[at + 4..])
  {
    buf[at], buf[at + 1], buf[at + 2], buf[at + 3] := w % 0x100, w / 0x100 % 0x100, w / 0x1_0000 % 0x100, w / 0x100_0000;
  }

  method DecodeEmbedding(s: string) returns (r: Decoded)
    ensures r == Decode(s)
  {
    hide FromBase64, WordAt, Unpack;
    var decoded := FromBase64(s);
    if decoded.None? {
      return NotBase64;
    }
    var buf := decoded.value;
    if |buf| % 4 != 0 {
      return WrongLength(|buf|);
    }
    var vec := new Word[|buf| / 4];
    UnpackPrefix(buf, 0);
    for i := 0 to vec.Length
      invariant vec[..i] == Unpack(buf[..4 * i])
    {
      vec[i] := WordAt(buf[4 * i..4 * i + 4]);
      UnpackPrefix(buf, i);
    }
    assert buf[..4 * vec.Length] == buf && vec[..] == vec[..vec.Length];
    return Vector(vec[..]);
  }

  /** Decoding what encoding wrote gives the same words back, at every length. */
  lemma EmbeddingRoundTrip(vec: seq<Word>)
    ensures Decode(ToBase64(Pack(vec))) == Vector(vec)
  {
    hide ToBase64, FromBase64, Pack, Unpack;
    Base64RoundTrip(Pack(vec));
    UnpackUndoesPack(vec);
  }

  /** Bytes decode to a vector exactly when their number is a multiple of 4, and then to the one that packs to them. */
  lemma DecodesIff(b: seq<Byte>)
    ensures Decode(ToBase64(b)).Vector? <==> |b| % 4 == 0
    ensures |b| % 4 == 0 ==> Pack(Decode(ToBase64(b)).vec) == b
    ensures |b| % 4 != 0 ==> Decode(ToBase64(b)) == WrongLength(|b|)
  {
    hide ToBase64, FromBase64, Pack, Unpack;
    Base64RoundTrip(b);
    if |b| % 4 == 0 { PackUndoesUnpack(b); }
  }

  // ----- told in numbers -----

  /** Table 1 of RFC 4648, in code points. */
  lemma AlphabetInNumbers(n: int)
    requires 0 <= n < 64
    ensures Digit(n) as int == if n <= 25 then 65 + n else if n <= 51 then 71 + n else if n <= 61 then n - 4
                               else if n == 62 then 43 else 47
  {}

  /** Three bytes, and four digits, as one number, the first the most significant. */
  function OfBytes(x: int, y: int, z: int): int { 65536 * x + 256 * y + z }
  function OfDigits(v: int, w: int, x: int, y: int): int { 262144 * v + 4096 * w + 64 * x + y }

  lemma SextetsInNumbers(x: Byte, y: Byte, z: Byte)
    ensures OfBytes(x, y, z) == OfDigits(Sextet0(x), Sextet1(x, y), Sextet2(y, z), Sextet3(z))
  {}

  /** Four digits stand for three bytes; what one or two bytes left over are short of is zero bits and padding. */
  lemma QuantaInNumbers(b: seq<Byte>)
    requires b != []
    ensures exists v: Sextet, w: Sextet, x: Sextet, y: Sextet ::
              && OfBytes(b[0], if |b| > 1 then b[1] else 0, if |b| > 2 then b[2] else 0) == OfDigits(v, w, x, y)
              && ToBase64(b) == [Digit(v), Digit(w), if |b| > 1 then Digit(x) else '=', if |b| > 2 then Digit(y) else '=']
                                + ToBase64(if |b| > 3 then b[3..] else [])
  {
    var second, third := if |b| > 1 then b[1] else 0, if |b| > 2 then b[2] else 0;
    SextetsInNumbers(b[0], second, third);
    var v, w, x, y := Sextet0(b[0]), Sextet1(b[0], second), Sextet2(second, third), Sextet3(third);
    hide Digit, Sextet0, Sextet1, Sextet2, Sextet3, OfBytes, OfDigits;
    assert ToBase64([]) == "";
    assert |b| == 3 ==> b[3..] == [];
    assert ToBase64(b) == [Digit(v), Digit(w), if |b| > 1 then Digit(x) else '=', if |b| > 2 then Digit(y) else '=']
                          + ToBase64(if |b| > 3 then b[3..] else []);
  }

  /** The bytes of each word, the least significant first. */
  lemma {:induction false} PackInNumbers(vec: seq<Word>, i: nat)
    requires i < |vec|
    ensures |Pack(vec)| == 4 * |vec|
    ensures var b := Pack(vec)[4 * i..4 * i + 4];
            vec[i] == b[0] as int + 256 * b[1] as int + 65536 * b[2] as int + 16777216 * b[3] as int
  {
    hide LittleEndian;
    var n := |vec| - 1;
    if i < n {
      PackInNumbers(vec[..n], i);
      assert Pack(vec)[4 * i..4 * i + 4] == Pack(vec[..n])[4 * i..4 * i + 4];
    } else {
      assert Pack(vec)[4 * i..4 * i + 4] == LittleEndian(vec[n]);
      WordRoundTrip(vec[n]);
    }
  }
}
