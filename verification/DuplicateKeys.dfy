/** The two duplicate-key checks: an explicit-stack scanner over the token stream and a recursive
    descent over the same stream, against one definition on the document they read. */
module DuplicateKeys {
  import opened Options

  /** A JSON document as written: an object's members in order, repetitions included. */
  datatype Doc =
    | NullDoc
    | StringDoc(s: string)
    | OtherDoc
    | ArrayDoc(items: seq<Doc>)
    | ObjectDoc(members: seq<(string, Doc)>)

  datatype Token = OpenObject | CloseObject | OpenArray | CloseArray | StringToken(s: string) | NullToken | OtherToken

  /** The token stream encoding/json delivers for a document. */
  function Tokens(d: Doc): seq<Token>
    decreases d, 1
  {
    match d
    case NullDoc => [NullToken]
    case StringDoc(s) => [StringToken(s)]
    case OtherDoc => [OtherToken]
    case ArrayDoc(items) => [OpenArray] + ItemTokens(items) + [CloseArray]
    case ObjectDoc(members) => [OpenObject] + MemberTokens(members) + [CloseObject]
  }

  function ItemTokens(items: seq<Doc>): seq<Token>
    decreases items, 0
  {
    if items == [] then [] else Tokens(items[0]) + ItemTokens(items[1..])
  }

  function MemberTokens(members: seq<(string, Doc)>): seq<Token>
    decreases members, 0
  {
    if members == [] then []
    else
      assert members[0] in members && members[0].1 < members[0];
      [StringToken(members[0].0)] + Tokens(members[0].1) + MemberTokens(members[1..])
  }

  ghost predicate NoRepeatedKey(members: seq<(string, Doc)>) {
    forall i, j | 0 <= i < j < |members| :: members[i].0 != members[j].0
  }

  /** No object at any depth repeats a key. */
  ghost predicate Clean(d: Doc) {
    match d
    case ArrayDoc(items) => forall x | x in items :: Clean(x)
    case ObjectDoc(members) => NoRepeatedKey(members) && forall m | m in members :: Clean(m.1)
    case _ => true
  }

  ghost predicate NullFree(d: Doc) {
    match d
    case NullDoc => false
    case ArrayDoc(items) => forall x | x in items :: NullFree(x)
    case ObjectDoc(members) => forall m | m in members :: NullFree(m.1)
    case _ => true
  }

  /** No value is nested deeper than n levels below d. */
  ghost predicate WithinDepth(d: Doc, n: int) {
    n >= 0 &&
    match d
    case ArrayDoc(items) => forall x | x in items :: WithinDepth(x, n - 1)
    case ObjectDoc(members) => forall m | m in members :: WithinDepth(m.1, n - 1)
    case _ => true
  }

  /** Cleanness of the members still to come, when the keys `seen` have already appeared. */
  ghost predicate CleanAfter(seen: set<string>, members: seq<(string, Doc)>)
    decreases members
  {
    members == [] ||
    (members[0].0 !in seen && Clean(members[0].1) && CleanAfter(seen + {members[0].0}, members[1..]))
  }

  lemma {:induction false} CleanAfterIff(seen: set<string>, members: seq<(string, Doc)>)
    ensures CleanAfter(seen, members) <==>
            NoRepeatedKey(members) && (forall m | m in members :: Clean(m.1)) && forall m | m in members :: m.0 !in seen
    decreases members
  {
    if members != [] {
      var rest := members[1..];
      CleanAfterIff(seen + {members[0].0}, rest);
      assert members == [members[0]] + rest;
      assert NoRepeatedKey(members) <==> NoRepeatedKey(rest) && forall m | m in rest :: m.0 != members[0].0 by {
        if NoRepeatedKey(members) {
          assert forall i | 0 <= i < |rest| :: rest[i] == members[i + 1];
        }
      }
    }
  }

  // ----- the explicit-stack scanner -----

  datatype Frame = Frame(obj: bool, keys: set<string>, want: bool)

  /** One token's effect on the stack; None refuses. A closing token needs something to close, as the
      decoder guarantees. */
  function Step(stack: seq<Frame>, t: Token): Option<seq<Frame>> {
    match t
    case OpenObject => Some(stack + [Frame(true, {}, true)])
    case OpenArray => Some(stack + [Frame(false, {}, false)])
    case StringToken(s) =>
      if stack != [] && Top(stack).obj && Top(stack).want then
        if s in Top(stack).keys then None
        else Some(Under(stack) + [Frame(true, Top(stack).keys + {s}, false)])
      else Some(AfterValue(stack))
    case NullToken => Some(AfterValue(stack))
    case OtherToken => Some(AfterValue(stack))
    case _ => if stack == [] then None else Some(AfterValue(Under(stack)))
  }

  function Top(stack: seq<Frame>): Frame
    requires stack != []
  {
    stack[|stack| - 1]
  }

  function Under(stack: seq<Frame>): seq<Frame>
    requires stack != []
  {
    stack[..|stack| - 1]
  }

  /** An enclosing object expects a key again once a value is complete. */
  function AfterValue(stack: seq<Frame>): seq<Frame> {
    if stack != [] && Top(stack).obj then Under(stack) + [Top(stack).(want := true)] else stack
  }

  /** The scanner accepts the rest of the stream. */
  predicate Scan(stack: seq<Frame>, tokens: seq<Token>)
    decreases tokens
  {
    tokens == [] ||
    match Step(stack, tokens[0])
    case None => false
    case Some(next) => Scan(next, tokens[1..])
  }

  /** Where a value may start: not where an object expects a key. */
  predicate AtValue(stack: seq<Frame>) {
    stack == [] || !(Top(stack).obj && Top(stack).want)
  }

  lemma ScanOne(stack: seq<Frame>, t: Token, rest: seq<Token>)
    ensures Scan(stack, [t] + rest) <==> Step(stack, t).Some? && Scan(Step(stack, t).value, rest)
  {}

  /** The scanner consumes a clean value and refuses any other. */
  lemma {:induction false} ScanValue(stack: seq<Frame>, d: Doc, rest: seq<Token>)
    requires AtValue(stack)
    ensures Scan(stack, Tokens(d) + rest) <==> Clean(d) && Scan(AfterValue(stack), rest)
    decreases d, 1
  {
    match d
    case ArrayDoc(items) => ScanArray(stack, d, rest);
    case ObjectDoc(members) => ScanObject(stack, d, rest);
    case _ =>
      hide Scan;
      ScanOne(stack, Tokens(d)[0], rest);
  }

  lemma {:induction false} ScanArray(stack: seq<Frame>, d: Doc, rest: seq<Token>)
    requires AtValue(stack) && d.ArrayDoc?
    ensures Scan(stack, Tokens(d) + rest) <==> Clean(d) && Scan(AfterValue(stack), rest)
    decreases d, 0
  {
    hide Scan, ItemTokens;
    var open, tail := stack + [Frame(false, {}, false)], [CloseArray] + rest;
    ScanOne(stack, OpenArray, ItemTokens(d.items) + tail);
    assert Tokens(d) + rest == [OpenArray] + (ItemTokens(d.items) + tail);
    ScanItems(open, d.items, tail);
    ScanOne(open, CloseArray, rest);
    assert Under(open) == stack;
  }

  lemma {:induction false} ScanObject(stack: seq<Frame>, d: Doc, rest: seq<Token>)
    requires AtValue(stack) && d.ObjectDoc?
    ensures Scan(stack, Tokens(d) + rest) <==> Clean(d) && Scan(AfterValue(stack), rest)
    decreases d, 0
  {
    hide Scan, MemberTokens, CleanAfter;
    var tail := [CloseObject] + rest;
    ScanOne(stack, OpenObject, MemberTokens(d.members) + tail);
    assert Tokens(d) + rest == [OpenObject] + (MemberTokens(d.members) + tail);
    ScanMembers(stack, {}, d.members, rest);
    CleanAfterIff({}, d.members);
  }

  lemma {:induction false} ScanItems(stack: seq<Frame>, items: seq<Doc>, rest: seq<Token>)
    requires stack != [] && !Top(stack).obj
    ensures Scan(stack, ItemTokens(items) + rest) <==> (forall x | x in items :: Clean(x)) && Scan(stack, rest)
    decreases items, 0
  {
    hide Scan;
    if items == [] {
      assert ItemTokens(items) + rest == rest;
    } else {
      var tail := ItemTokens(items[1..]) + rest;
      assert ItemTokens(items) + rest == Tokens(items[0]) + tail;
      ScanValue(stack, items[0], tail);
      ScanItems(stack, items[1..], rest);
      assert items == [items[0]] + items[1..];
    }
  }

  lemma {:induction false} ScanMembers(stack: seq<Frame>, seen: set<string>, members: seq<(string, Doc)>, rest: seq<Token>)
    ensures Scan(stack + [Frame(true, seen, true)], MemberTokens(members) + ([CloseObject] + rest))
            <==> CleanAfter(seen, members) && Scan(AfterValue(stack), rest)
    decreases members, 0
  {
    hide Scan;
    var here := stack + [Frame(true, seen, true)];
    var end := [CloseObject] + rest;
    assert Under(here) == stack && Top(here) == Frame(true, seen, true);
    if members == [] {
      assert MemberTokens(members) + end == end;
      ScanOne(here, CloseObject, rest);
    } else {
      var key, value := members[0].0, members[0].1;
      assert members[0] in members && value < members[0];
      var tail := MemberTokens(members[1..]) + end;
      assert MemberTokens(members) + end == [StringToken(key)] + (Tokens(value) + tail);
      ScanOne(here, StringToken(key), Tokens(value) + tail);
      if key !in seen {
        var inside := stack + [Frame(true, seen + {key}, false)];
        ScanValue(inside, value, tail);
        assert AfterValue(inside) == stack + [Frame(true, seen + {key}, true)];
        ScanMembers(stack, seen + {key}, members[1..], rest);
      }
    }
  }

  /** rejectDuplicateKeys: the loop over the decoder's tokens, to the end of the stream. */
  method RejectDuplicateKeys(tokens: seq<Token>) returns (accepted: bool)
    ensures accepted <==> Scan([], tokens)
    ensures forall d | tokens == Tokens(d) :: accepted <==> Clean(d)
  {
    forall d | tokens == Tokens(d) ensures Scan([], tokens) <==> Clean(d) {
      ScanValue([], d, []);
      assert Tokens(d) + [] == Tokens(d);
    }
    var stack: seq<Frame> := [];
    for i := 0 to |tokens|
      invariant Scan(stack, tokens[i..]) <==> Scan([], tokens)
    {
      var t := tokens[i];
      assert tokens[i..][1..] == tokens[i + 1..];
      match t {
        case OpenObject =>
          stack := stack + [Frame(true, {}, true)];
        case OpenArray =>
          stack := stack + [Frame(false, {}, false)];
        case StringToken(s) =>
          if stack != [] && Top(stack).obj && Top(stack).want {
            if s in Top(stack).keys {
              return false;
            }
            stack := Under(stack) + [Frame(true, Top(stack).keys + {s}, false)];
          } else {
            stack := AfterValue(stack);
          }
        case NullToken =>
          stack := AfterValue(stack);
        case OtherToken =>
          stack := AfterValue(stack);
        case _ =>
          if stack == [] {
            return false;
          }
          stack := AfterValue(Under(stack));
      }
    }
    return true;
  }

  // ----- the recursive checker -----

  /** Go's Decoder.More: another element follows in the current array or object. */
  predicate MoreTokens(tokens: seq<Token>) {
    tokens != [] && !tokens[0].CloseObject? && !tokens[0].CloseArray?
  }

  const MAX_DEPTH := 32

  /** runtimeJSONValue as a function of the tokens still unread: the tokens left, or None for a refusal. */
  function Check(tokens: seq<Token>, depth: nat, allowNull: bool): (r: Option<seq<Token>>)
    ensures r.Some? ==> |r.value| < |tokens|
    decreases |tokens|, 1
  {
    if depth > MAX_DEPTH || tokens == [] then None
    else
      match tokens[0]
      case NullToken => if allowNull then Some(tokens[1..]) else None
      case OpenObject => CheckMembers(tokens[1..], {}, depth, allowNull)
      case OpenArray => CheckItems(tokens[1..], depth, allowNull)
      case CloseObject => None
      case CloseArray => None
      case _ => Some(tokens[1..])
  }

  function CheckItems(tokens: seq<Token>, depth: nat, allowNull: bool): (r: Option<seq<Token>>)
    ensures r.Some? ==> |r.value| < |tokens|
    decreases |tokens|, 2
  {
    if MoreTokens(tokens) then
      match Check(tokens, depth + 1, allowNull)
      case None => None
      case Some(rest) => CheckItems(rest, depth, allowNull)
    else if tokens != [] && tokens[0].CloseArray? then Some(tokens[1..])
    else None
  }

  function CheckMembers(tokens: seq<Token>, seen: set<string>, depth: nat, allowNull: bool): (r: Option<seq<Token>>)
    ensures r.Some? ==> |r.value| < |tokens|
    decreases |tokens|, 2
  {
    if MoreTokens(tokens) then
      if !tokens[0].StringToken? || tokens[0].s in seen then None
      else
        match Check(tokens[1..], depth + 1, allowNull)
        case None => None
        case Some(rest) => CheckMembers(rest, seen + {tokens[0].s}, depth, allowNull)
    else if tokens != [] && tokens[0].CloseObject? then Some(tokens[1..])
    else None
  }

  /** What the recursive checker is to accept when it meets d at this depth. */
  ghost predicate Acceptable(d: Doc, depth: nat, allowNull: bool) {
    Clean(d) && WithinDepth(d, MAX_DEPTH - depth) && (allowNull || NullFree(d))
  }

  ghost predicate AcceptableMembers(seen: set<string>, members: seq<(string, Doc)>, depth: nat, allowNull: bool) {
    CleanAfter(seen, members) && forall m | m in members :: Acceptable(m.1, depth, allowNull)
  }

  lemma AcceptableParts(d: Doc, depth: nat, allowNull: bool)
    ensures d.ArrayDoc? ==>
              (Acceptable(d, depth, allowNull) <==>
               depth <= MAX_DEPTH && forall x | x in d.items :: Acceptable(x, depth + 1, allowNull))
    ensures d.ObjectDoc? ==>
              (Acceptable(d, depth, allowNull) <==>
               depth <= MAX_DEPTH && AcceptableMembers({}, d.members, depth + 1, allowNull))
  {
    if d.ObjectDoc? { CleanAfterIff({}, d.members); }
  }

  lemma StartsValue(d: Doc, rest: seq<Token>)
    ensures MoreTokens(Tokens(d) + rest)
  {}

  /** The recursive checker consumes an acceptable value and refuses any other. */
  lemma {:induction false} CheckValueIff(d: Doc, depth: nat, allowNull: bool, rest: seq<Token>)
    ensures Check(Tokens(d) + rest, depth, allowNull) == if Acceptable(d, depth, allowNull) then Some(rest) else None
    decreases d, 1
  {
    AcceptableParts(d, depth, allowNull);
    var t := Tokens(d) + rest;
    match d
    case ArrayDoc(items) =>
      hide Acceptable;
      var tail := [CloseArray] + rest;
      assert t[1..] == ItemTokens(items) + tail;
      if depth <= MAX_DEPTH { CheckItemsIff(items, depth, allowNull, rest); }
    case ObjectDoc(members) =>
      hide Acceptable;
      var tail := [CloseObject] + rest;
      assert t[1..] == MemberTokens(members) + tail;
      if depth <= MAX_DEPTH { CheckMembersIff({}, members, depth, allowNull, rest); }
    case _ =>
      assert t[1..] == rest;
  }

  lemma AllAcceptable(items: seq<Doc>, depth: nat, allowNull: bool)
    requires items != []
    ensures (forall x | x in items :: Acceptable(x, depth, allowNull)) <==>
            Acceptable(items[0], depth, allowNull) && forall x | x in items[1..] :: Acceptable(x, depth, allowNull)
  {}

  lemma {:induction false} CheckItemsIff(items: seq<Doc>, depth: nat, allowNull: bool, rest: seq<Token>)
    requires depth <= MAX_DEPTH
    ensures CheckItems(ItemTokens(items) + ([CloseArray] + rest), depth, allowNull)
            == if forall x | x in items :: Acceptable(x, depth + 1, allowNull) then Some(rest) else None
    decreases items, 0
  {
    hide Acceptable, Check;
    var end := [CloseArray] + rest;
    var t := ItemTokens(items) + end;
    if items == [] {
      assert t == end && t[1..] == rest;
    } else {
      var tail := ItemTokens(items[1..]) + end;
      assert t == Tokens(items[0]) + tail;
      StartsValue(items[0], tail);
      CheckValueIff(items[0], depth + 1, allowNull, tail);
      CheckItemsIff(items[1..], depth, allowNull, rest);
      AllAcceptable(items, depth + 1, allowNull);
    }
  }

  lemma {:induction false} CheckMembersIff(seen: set<string>, members: seq<(string, Doc)>, depth: nat, allowNull: bool, rest: seq<Token>)
    requires depth <= MAX_DEPTH
    ensures CheckMembers(MemberTokens(members) + ([CloseObject] + rest), seen, depth, allowNull)
            == if AcceptableMembers(seen, members, depth + 1, allowNull) then Some(rest) else None
    decreases members, 0
  {
    hide Check, Clean, WithinDepth, NullFree;
    var end := [CloseObject] + rest;
    var t := MemberTokens(members) + end;
    if members == [] {
      assert t == end && t[1..] == rest;
    } else {
      var key, value := members[0].0, members[0].1;
      assert members[0] in members && value < members[0];
      var tail := MemberTokens(members[1..]) + end;
      assert t == [StringToken(key)] + (Tokens(value) + tail);
      assert t[1..] == Tokens(value) + tail;
      CheckValueIff(value, depth + 1, allowNull, tail);
      CheckMembersIff(seen + {key}, members[1..], depth, allowNull, rest);
      assert members == [members[0]] + members[1..];
    }
  }

  /** Go's json.Decoder as the checker uses it: a token stream with a read position. */
  class Decoder {
    const tokens: seq<Token>
    var pos: nat

    ghost predicate Valid()
      reads this
    {
      pos <= |tokens|
    }

    ghost function Unread(): seq<Token>
      requires Valid()
      reads this
    {
      tokens[pos..]
    }

    constructor (tokens: seq<Token>)
      ensures Valid() && Unread() == tokens
    {
      this.tokens, pos := tokens, 0;
    }

    /** None at the end of the stream. */
    method Token() returns (t: Option<Token>)
      requires Valid()
      modifies this
      ensures Valid()
      ensures old(Unread()) == [] ==> t == None && Unread() == []
      ensures old(Unread()) != [] ==> t == Some(old(Unread())[0]) && Unread() == old(Unread())[1..]
    {
      if pos == |tokens| {
        return None;
      }
      t := Some(tokens[pos]);
      pos := pos + 1;
    }

    method More() returns (more: bool)
      requires Valid()
      ensures more <==> MoreTokens(Unread())
    {
      more := pos < |tokens| && !tokens[pos].CloseObject? && !tokens[pos].CloseArray?;
    }
  }

  method RuntimeJSONValue(d: Decoder, depth: nat, allowNull: bool) returns (ok: bool)
    requires d.Valid()
    modifies d
    decreases |d.Unread()|
    ensures d.Valid()
    ensures ok <==> Check(old(d.Unread()), depth, allowNull).Some?
    ensures ok ==> Some(d.Unread()) == Check(old(d.Unread()), depth, allowNull)
  {
    if depth > MAX_DEPTH {
      return false;
    }
    var t := d.Token();
    if t.None? || (t.value.NullToken? && !allowNull) {
      return false;
    }
    match t.value {
      case OpenObject =>
        var seen: set<string> := {};
        ghost var all := d.Unread();
        var more := d.More();
        while more
          invariant d.Valid() && |d.Unread()| <= |all| && more == MoreTokens(d.Unread())
          invariant CheckMembers(d.Unread(), seen, depth, allowNull) == CheckMembers(all, {}, depth, allowNull)
          decreases |d.Unread()|
        {
          var key := d.Token();
          if !key.value.StringToken? || key.value.s in seen {
            return false;
          }
          seen := seen + {key.value.s};
          var inner := RuntimeJSONValue(d, depth + 1, allowNull);
          if !inner {
            return false;
          }
          more := d.More();
        }
        var end := d.Token();
        return end == Some(CloseObject);
      case OpenArray =>
        ghost var all := d.Unread();
        var more := d.More();
        while more
          invariant d.Valid() && |d.Unread()| <= |all| && more == MoreTokens(d.Unread())
          invariant CheckItems(d.Unread(), depth, allowNull) == CheckItems(all, depth, allowNull)
          decreases |d.Unread()|
        {
          var inner := RuntimeJSONValue(d, depth + 1, allowNull);
          if !inner {
            return false;
          }
          more := d.More();
        }
        var end := d.Token();
        return end == Some(CloseArray);
      case CloseObject =>
        return false;
      case CloseArray =>
        return false;
      case _ =>
        return true;
    }
  }

  /** On every document the two checks agree about duplicates: the recursive one refuses more only for depth or nulls. */
  lemma ChecksAgree(d: Doc, allowNull: bool)
    ensures Scan([], Tokens(d)) <==> Clean(d)
    ensures Check(Tokens(d), 0, allowNull) ==
            if Scan([], Tokens(d)) && WithinDepth(d, MAX_DEPTH) && (allowNull || NullFree(d)) then Some([]) else None
  {
    hide Check, Clean, WithinDepth, NullFree, Scan;
    ScanValue([], d, []);
    CheckValueIff(d, 0, allowNull, []);
    ScanEnd();
    assert Tokens(d) + [] == Tokens(d);
  }

  lemma ScanEnd()
    ensures Scan(AfterValue([]), [])
  {}
}
