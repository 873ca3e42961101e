/**
  The canonical JSON writer: object keys sorted, arrays in order, no white space.

  Its bytes serve as identity, so the point is that they determine the value. `Print` gives
  the bytes followed by a tail, `Parse` reads a value back off the front, and reading undoes
  printing. An object is a map, so equality of values is blind to key order. Strings are
  UTF-8 bytes and number tokens are opaque.
 */
module CanonicalJson {
  import opened Wrappers
  import opened Bytes
  import Sorting

  type Text = seq<Byte>

  /** Digits, sign, point and exponent: `+ - . 0..9 E e`. */
  predicate NumberByte(b: Byte) {
    b == 0x2B || b == 0x2D || b == 0x2E || 0x30 <= b <= 0x39 || b == 0x45 || b == 0x65
  }

  predicate NumberToken(t: Text) {
    t != [] && forall i :: 0 <= i < |t| ==> NumberByte(t[i])
  }

  type Number = t: Text | NumberToken(t) witness [0x30]

  datatype Value =
    | Null
    | Bool(b: bool)
    | Num(token: Number)
    | Str(text: Text)
    | Arr(items: seq<Value>)
    | Obj(members: map<Text, Value>)

  const QUOTE: Byte := 0x22
  const COMMA: Byte := 0x2C
  const COLON: Byte := 0x3A
  const BACKSLASH: Byte := 0x5C
  const OPEN_ARRAY: Byte := 0x5B
  const CLOSE_ARRAY: Byte := 0x5D
  const OPEN_OBJECT: Byte := 0x7B
  const CLOSE_OBJECT: Byte := 0x7D
  const NULL: Text := [0x6E, 0x75, 0x6C, 0x6C]
  const TRUE: Text := [0x74, 0x72, 0x75, 0x65]
  const FALSE: Text := [0x66, 0x61, 0x6C, 0x73, 0x65]

  // ---- strings ------------------------------------------------------------------------

  function HexDigit(n: nat): Byte
    requires n < 16
  {
    if n < 10 then 0x30 + n else 0x57 + n
  }

  function HexValue(b: Byte): Option<nat> {
    if 0x30 <= b <= 0x39 then Some(b - 0x30)
    else if 0x61 <= b <= 0x66 then Some(b - 0x57)
    else None
  }

  /** The letter of a two-byte escape, if the byte has one. */
  function ShortEscape(b: Byte): Option<Byte> {
    if b == QUOTE || b == BACKSLASH then Some(b)
    else if b == 0x08 then Some(0x62)
    else if b == 0x09 then Some(0x74)
    else if b == 0x0A then Some(0x6E)
    else if b == 0x0C then Some(0x66)
    else if b == 0x0D then Some(0x72)
    else None
  }

  function ShortUnescape(letter: Byte): Option<Byte> {
    if letter == QUOTE || letter == BACKSLASH then Some(letter)
    else if letter == 0x62 then Some(0x08)
    else if letter == 0x74 then Some(0x09)
    else if letter == 0x6E then Some(0x0A)
    else if letter == 0x66 then Some(0x0C)
    else if letter == 0x72 then Some(0x0D)
    else None
  }

  function EscapedByte(b: Byte): Text {
    if ShortEscape(b).Some? then [BACKSLASH, ShortEscape(b).value]
    else if b < 0x20 then [BACKSLASH, 0x75, 0x30, 0x30, HexDigit(b / 16), HexDigit(b % 16)]
    else [b]
  }

  /** The escaped bytes of a string and its closing quote, then `rest`. */
  function PrintBody(s: Text, rest: Text): Text {
    if s == [] then [QUOTE] + rest else EscapedByte(s[0]) + PrintBody(s[1..], rest)
  }

  function PrintString(s: Text, rest: Text): Text {
    [QUOTE] + PrintBody(s, rest)
  }

  /** One character of a string body, with what follows it. */
  function ParseByte(t: Text): (r: Option<(Byte, Text)>)
    ensures r.Some? ==> |r.value.1| < |t|
  {
    if t == [] then None
    else if t[0] != BACKSLASH then Some((t[0], t[1..]))
    else if |t| >= 2 && ShortUnescape(t[1]).Some? then Some((ShortUnescape(t[1]).value, t[2..]))
    else if |t| >= 6 && t[1] == 0x75 && t[2] == 0x30 && t[3] == 0x30
         && HexValue(t[4]).Some? && HexValue(t[5]).Some?
    then Some((16 * HexValue(t[4]).value + HexValue(t[5]).value, t[6..]))
    else None
  }

  function ParseBody(t: Text): (r: Option<(Text, Text)>)
    ensures r.Some? ==> |r.value.1| < |t|
    decreases |t|
  {
    if t == [] then None
    else if t[0] == QUOTE then Some(([], t[1..]))
    else
      var head := ParseByte(t);
      if head.None? then None
      else
        var tail := ParseBody(head.value.1);
        if tail.None? then None else Some(([head.value.0] + tail.value.0, tail.value.1))
  }

  function ParseString(t: Text): (r: Option<(Text, Text)>)
    ensures r.Some? ==> |r.value.1| < |t|
  {
    if t != [] && t[0] == QUOTE then ParseBody(t[1..]) else None
  }

  // ---- the printer --------------------------------------------------------------------

  ghost predicate KeyOrder(keys: seq<Text>, of: set<Text>) {
    Sorting.Ascending(keys, Less) && Sorting.Elements(keys) == of
  }

  /** The keys of an object in byte order. */
  ghost function SortedKeys(keys: set<Text>): (s: seq<Text>)
    ensures KeyOrder(s, keys)
  {
    SortedKeysExist(keys);
    var s :| KeyOrder(s, keys);
    s
  }

  ghost function Print(v: Value, rest: Text): Text
    decreases v, 1
  {
    match v
    case Null => NULL + rest
    case Bool(b) => (if b then TRUE else FALSE) + rest
    case Num(token) => token + rest
    case Str(text) => PrintString(text, rest)
    case Arr(items) => [OPEN_ARRAY] + PrintItems(items, [CLOSE_ARRAY] + rest)
    case Obj(members) => [OPEN_OBJECT] + PrintMembers(v, SortedKeys(members.Keys), [CLOSE_OBJECT] + rest)
  }

  ghost function PrintItems(items: seq<Value>, rest: Text): Text
    decreases items, 0
  {
    if items == [] then rest else Print(items[0], PrintMoreItems(items[1..], rest))
  }

  ghost function PrintMoreItems(items: seq<Value>, rest: Text): Text
    decreases items, 0
  {
    if items == [] then rest else [COMMA] + Print(items[0], PrintMoreItems(items[1..], rest))
  }

  ghost function PrintMember(v: Value, key: Text, rest: Text): Text
    requires v.Obj? && key in v.members
    decreases v, 0, 0
  {
    PrintString(key, [COLON] + Print(v.members[key], rest))
  }

  ghost function PrintMembers(v: Value, keys: seq<Text>, rest: Text): Text
    requires v.Obj? && Sorting.Elements(keys) <= v.members.Keys
    decreases v, 0, |keys| + 1
  {
    if keys == [] then rest
    else
      KeysOfTail(v, keys);
      PrintMember(v, keys[0], PrintMoreMembers(v, keys[1..], rest))
  }

  ghost function PrintMoreMembers(v: Value, keys: seq<Text>, rest: Text): Text
    requires v.Obj? && Sorting.Elements(keys) <= v.members.Keys
    decreases v, 0, |keys| + 1
  {
    if keys == [] then rest
    else
      KeysOfTail(v, keys);
      [COMMA] + PrintMember(v, keys[0], PrintMoreMembers(v, keys[1..], rest))
  }

  lemma KeysOfTail(v: Value, keys: seq<Text>)
    requires v.Obj? && Sorting.Elements(keys) <= v.members.Keys && keys != []
    ensures keys[0] in v.members && Sorting.Elements(keys[1..]) <= v.members.Keys
  {
    assert keys[0] in Sorting.Elements(keys);
    assert forall k :: k in keys[1..] ==> k in Sorting.Elements(keys);
  }

  /** The canonical bytes of a value. */
  ghost function Canonical(v: Value): Text {
    Print(v, [])
  }

  // ---- key order ----------------------------------------------------------------------

  lemma LessIsStrictOrder()
    ensures Sorting.StrictOrder(Less)
  {
    forall a: Text { LessIsIrreflexive(a); }
    forall a: Text, b: Text, c: Text | Less(a, b) && Less(b, c) { LessIsTransitive(a, b, c); }
    forall a: Text, b: Text { LessIsTotal(a, b); }
  }

  lemma SortedKeysExist(keys: set<Text>)
    ensures exists s :: KeyOrder(s, keys)
  {
    LessIsStrictOrder();
    var s := Sorting.AscendingExists(keys, Less);
    assert KeyOrder(s, keys);
  }

  /** Whatever order the keys were collected in, sorting them gives the same list. */
  lemma KeyOrderIsUnique(s: seq<Text>, keys: set<Text>)
    requires KeyOrder(s, keys)
    ensures s == SortedKeys(keys)
  {
    LessIsStrictOrder();
    Sorting.AscendingIsUnique(s, SortedKeys(keys), Less);
  }

  // ---- the writer ---------------------------------------------------------------------

  /** Printing before a tail is printing, then the tail. */
  lemma {:induction false} PrintBodyThen(s: Text, rest: Text)
    ensures PrintBody(s, rest) == PrintBody(s, []) + rest
  {
    if s == [] {
      assert [QUOTE] + rest == ([QUOTE] + []) + rest;
    } else {
      PrintBodyThen(s[1..], rest);
      assert EscapedByte(s[0]) + (PrintBody(s[1..], []) + rest) == (EscapedByte(s[0]) + PrintBody(s[1..], [])) + rest;
    }
  }

  lemma PrintStringThen(s: Text, rest: Text)
    ensures PrintString(s, rest) == PrintString(s, []) + rest
  {
    PrintBodyThen(s, rest);
    assert [QUOTE] + (PrintBody(s, []) + rest) == ([QUOTE] + PrintBody(s, [])) + rest;
  }

  lemma {:induction false} PrintThen(v: Value, rest: Text)
    ensures Print(v, rest) == Print(v, []) + rest
    decreases v, 1
  {
    match v
    case Null => assert NULL + rest == (NULL + []) + rest;
    case Bool(b) => assert (if b then TRUE else FALSE) + rest == ((if b then TRUE else FALSE) + []) + rest;
    case Num(token) => assert token + rest == (token + []) + rest;
    case Str(text) => PrintStringThen(text, rest);
    case Arr(items) =>
      PrintItemsThen(items, [CLOSE_ARRAY] + rest);
      PrintItemsThen(items, [CLOSE_ARRAY] + []);
      Regroup([OPEN_ARRAY], PrintItems(items, []), [CLOSE_ARRAY], rest);
    case Obj(members) =>
      var keys := SortedKeys(members.Keys);
      PrintMembersThen(v, keys, [CLOSE_OBJECT] + rest);
      PrintMembersThen(v, keys, [CLOSE_OBJECT] + []);
      Regroup([OPEN_OBJECT], PrintMembers(v, keys, []), [CLOSE_OBJECT], rest);
  }

  lemma Regroup(open: Text, body: Text, close: Text, rest: Text)
    ensures open + (body + (close + rest)) == (open + (body + (close + []))) + rest
  {
  }

  lemma {:induction false} PrintItemsThen(items: seq<Value>, rest: Text)
    ensures PrintItems(items, rest) == PrintItems(items, []) + rest
    decreases items, 0
  {
    if items != [] {
      var more := PrintMoreItems(items[1..], []);
      PrintMoreItemsThen(items[1..], rest);
      PrintThen(items[0], more + rest);
      PrintThen(items[0], more);
      assert Print(items[0], []) + (more + rest) == (Print(items[0], []) + more) + rest;
    }
  }

  lemma {:induction false} PrintMoreItemsThen(items: seq<Value>, rest: Text)
    ensures PrintMoreItems(items, rest) == PrintMoreItems(items, []) + rest
    decreases items, 0
  {
    if items != [] {
      var more := PrintMoreItems(items[1..], []);
      PrintMoreItemsThen(items[1..], rest);
      PrintThen(items[0], more + rest);
      PrintThen(items[0], more);
      assert [COMMA] + (Print(items[0], []) + (more + rest)) == ([COMMA] + (Print(items[0], []) + more)) + rest;
    }
  }

  lemma {:induction false} PrintMemberThen(v: Value, key: Text, rest: Text)
    requires v.Obj? && key in v.members
    ensures PrintMember(v, key, rest) == PrintMember(v, key, []) + rest
    decreases v, 0, 0
  {
    var value := Print(v.members[key], []);
    PrintThen(v.members[key], rest);
    PrintStringThen(key, [COLON] + (value + rest));
    PrintStringThen(key, [COLON] + value);
    assert PrintString(key, []) + ([COLON] + (value + rest)) == (PrintString(key, []) + ([COLON] + value)) + rest;
  }

  lemma {:induction false} PrintMembersThen(v: Value, keys: seq<Text>, rest: Text)
    requires v.Obj? && Sorting.Elements(keys) <= v.members.Keys
    ensures PrintMembers(v, keys, rest) == PrintMembers(v, keys, []) + rest
    decreases v, 0, |keys| + 1
  {
    if keys != [] {
      KeysOfTail(v, keys);
      var more := PrintMoreMembers(v, keys[1..], []);
      PrintMoreMembersThen(v, keys[1..], rest);
      PrintMemberThen(v, keys[0], more + rest);
      PrintMemberThen(v, keys[0], more);
      assert PrintMember(v, keys[0], []) + (more + rest) == (PrintMember(v, keys[0], []) + more) + rest;
    }
  }

  lemma {:induction false} PrintMoreMembersThen(v: Value, keys: seq<Text>, rest: Text)
    requires v.Obj? && Sorting.Elements(keys) <= v.members.Keys
    ensures PrintMoreMembers(v, keys, rest) == PrintMoreMembers(v, keys, []) + rest
    decreases v, 0, |keys| + 1
  {
    if keys != [] {
      KeysOfTail(v, keys);
      var more := PrintMoreMembers(v, keys[1..], []);
      var member := PrintMember(v, keys[0], []);
      PrintMoreMembersThen(v, keys[1..], rest);
      PrintMemberThen(v, keys[0], more + rest);
      PrintMemberThen(v, keys[0], more);
      assert [COMMA] + (member + (more + rest)) == ([COMMA] + (member + more)) + rest;
    }
  }

  /** The growing output vector. */
  class Sink {
    var out: Text

    constructor ()
      ensures out == []
    {
      out := [];
    }

    method Push(b: Byte)
      modifies this
      ensures out == old(out) + [b]
    {
      out := out + [b];
    }

    method WriteString(s: Text)
      modifies this
      ensures out == old(out) + PrintString(s, [])
    {
      Push(QUOTE);
      for i := 0 to |s|
        invariant out + PrintBody(s[i..], []) == old(out) + PrintString(s, [])
      {
        assert s[i..][1..] == s[i + 1..];
        assert out + (EscapedByte(s[i]) + PrintBody(s[i + 1..], [])) == (out + EscapedByte(s[i])) + PrintBody(s[i + 1..], []);
        out := out + EscapedByte(s[i]);
      }
      Push(QUOTE);
    }

    /** Append the canonical bytes of `v`, whatever order its keys are visited in. */
    method Write(v: Value)
      modifies this
      ensures out == old(out) + Canonical(v)
      decreases v, 1
    {
      match v
      case Null => out := out + NULL;
      case Bool(b) => out := out + if b then TRUE else FALSE;
      case Num(token) => out := out + token;
      case Str(text) => WriteString(text);
      case Arr(items) => WriteArray(v);
      case Obj(members) => WriteObject(v);
    }

    method WriteArray(v: Value)
      requires v.Arr?
      modifies this
      ensures out == old(out) + Canonical(v)
      decreases v, 0, 2
    {
      Push(OPEN_ARRAY);
      WriteItems(v.items);
      Push(CLOSE_ARRAY);
      PrintItemsThen(v.items, [CLOSE_ARRAY] + []);
    }

    method WriteObject(v: Value)
      requires v.Obj?
      modifies this
      ensures out == old(out) + Canonical(v)
      decreases v, 0, 2
    {
      var keys := SortKeys(v.members.Keys);
      Push(OPEN_OBJECT);
      WriteMembers(v, keys);
      Push(CLOSE_OBJECT);
      PrintMembersThen(v, keys, [CLOSE_OBJECT] + []);
    }

    method WriteItems(items: seq<Value>)
      modifies this
      ensures out == old(out) + PrintItems(items, [])
      decreases items, 0
    {
      ghost var goal := out + PrintItems(items, []);
      for i := 0 to |items|
        invariant out + ItemsFrom(items, i) == goal
      {
        ghost var before := out;
        ItemsStep(items, i, before);
        if i > 0 {
          Push(COMMA);
        }
        assert out == before + Separator(i);
        Write(items[i]);
      }
      assert out + [] == out;
    }

    method WriteMember(v: Value, key: Text)
      requires v.Obj? && key in v.members
      modifies this
      ensures out == old(out) + PrintMember(v, key, [])
      decreases v, 0, 0
    {
      WriteString(key);
      Push(COLON);
      Write(v.members[key]);
      PrintStringThen(key, [COLON] + Canonical(v.members[key]));
    }

    method WriteMembers(v: Value, keys: seq<Text>)
      requires v.Obj? && Sorting.Elements(keys) <= v.members.Keys
      modifies this
      ensures out == old(out) + PrintMembers(v, keys, [])
      decreases v, 0, 1
    {
      ghost var goal := out + PrintMembers(v, keys, []);
      for i := 0 to |keys|
        invariant Sorting.Elements(keys[i..]) <= v.members.Keys
        invariant out + MembersFrom(v, keys, i) == goal
      {
        ghost var before := out;
        MembersStep(v, keys, i, before);
        if i > 0 {
          Push(COMMA);
        }
        assert out == before + Separator(i);
        WriteMember(v, keys[i]);
      }
      assert out + [] == out;
    }
  }

  /** What a list still has to print once `i` of its elements are out. */
  ghost function ItemsFrom(items: seq<Value>, i: nat): Text
    requires i <= |items|
  {
    if i == 0 then PrintItems(items, []) else PrintMoreItems(items[i..], [])
  }

  ghost function MembersFrom(v: Value, keys: seq<Text>, i: nat): Text
    requires v.Obj? && i <= |keys|
    requires Sorting.Elements(keys[i..]) <= v.members.Keys
  {
    if i == 0 then
      assert keys[0..] == keys;
      PrintMembers(v, keys, [])
    else PrintMoreMembers(v, keys[i..], [])
  }

  function Separator(i: nat): Text {
    if i > 0 then [COMMA] else []
  }

  lemma ItemsStep(items: seq<Value>, i: nat, out: Text)
    requires i < |items|
    ensures out + ItemsFrom(items, i) == ((out + Separator(i)) + Canonical(items[i])) + ItemsFrom(items, i + 1)
  {
    var more := PrintMoreItems(items[i + 1..], []);
    assert items[i..][1..] == items[i + 1..];
    PrintThen(items[i], more);
    assert ItemsFrom(items, i) == Separator(i) + (Canonical(items[i]) + more);
    AppendAll(out, Separator(i), Canonical(items[i]), more);
  }

  lemma MembersStep(v: Value, keys: seq<Text>, i: nat, out: Text)
    requires v.Obj? && i < |keys| && Sorting.Elements(keys[i..]) <= v.members.Keys
    ensures keys[i] in v.members && Sorting.Elements(keys[i + 1..]) <= v.members.Keys
    ensures out + MembersFrom(v, keys, i)
         == ((out + Separator(i)) + PrintMember(v, keys[i], [])) + MembersFrom(v, keys, i + 1)
  {
    KeysOfTail(v, keys[i..]);
    assert keys[i..][1..] == keys[i + 1..];
    assert keys[0..] == keys;
    var more := PrintMoreMembers(v, keys[i + 1..], []);
    PrintMemberThen(v, keys[i], more);
    assert MembersFrom(v, keys, i) == Separator(i) + (PrintMember(v, keys[i], []) + more);
    AppendAll(out, Separator(i), PrintMember(v, keys[i], []), more);
  }

  lemma AppendAll(a: Text, b: Text, c: Text, d: Text)
    ensures a + (b + (c + d)) == ((a + b) + c) + d
  {
  }

  /** The map's iteration order is arbitrary. */
  method CollectKeys(keys: set<Text>) returns (s: seq<Text>)
    ensures Sorting.Distinct(s) && Sorting.Elements(s) == keys
  {
    s := [];
    var left := keys;
    while left != {}
      invariant Sorting.Distinct(s) && Sorting.Elements(s) + left == keys && Sorting.Elements(s) !! left
      decreases left
    {
      var k :| k in left;
      assert k !in Sorting.Elements(s);
      s, left := s + [k], left - {k};
    }
  }

  method SortKeys(keys: set<Text>) returns (s: seq<Text>)
    ensures s == SortedKeys(keys)
  {
    s := CollectKeys(keys);
    LessIsStrictOrder();
    s := Sorting.Sort(s, Less);
    KeyOrderIsUnique(s, keys);
  }

  method CanonicalBytes(v: Value) returns (bytes: Text)
    ensures bytes == Canonical(v)
  {
    var sink := new Sink();
    sink.Write(v);
    bytes := sink.out;
  }

  // ---- the bytes ----------------------------------------------------------------------

  const HEX_DIGITS := "0123456789abcdef"

  /** How each byte of a string is written. */
  predicate Writes(b: Byte, written: Text) {
    match b
    case 0x22 => written == [0x5C, 0x22]
    case 0x5C => written == [0x5C, 0x5C]
    case 0x08 => written == [0x5C, 0x62]
    case 0x09 => written == [0x5C, 0x74]
    case 0x0A => written == [0x5C, 0x6E]
    case 0x0C => written == [0x5C, 0x66]
    case 0x0D => written == [0x5C, 0x72]
    case _ =>
      if b >= 0x20 then written == [b]
      else
        && |written| == 6 && written[..4] == [0x5C, 0x75, 0x30, 0x30]
        && written[4] == HEX_DIGITS[b / 16] as int && written[5] == HEX_DIGITS[b % 16] as int
  }

  function Concat(parts: seq<Text>): Text {
    if parts == [] then [] else parts[0] + Concat(parts[1..])
  }

  /** The parts with commas between them. */
  function Joined(parts: seq<Text>): Text {
    if |parts| <= 1 then Concat(parts) else parts[0] + [0x2C] + Joined(parts[1..])
  }

  lemma JoinedOneMore(first: Text, tail: seq<Text>, rest: Text)
    requires rest == if tail == [] then [] else [0x2C] + Joined(tail)
    ensures first + rest == Joined([first] + tail)
  {
    var all := [first] + tail;
    assert all[0] == first && all[1..] == tail;
    if tail == [] {
      assert Joined(all) == first + Concat([]);
    } else {
      assert first + ([0x2C] + Joined(tail)) == first + [0x2C] + Joined(tail);
    }
  }

  lemma EscapedByteWrites(b: Byte)
    ensures Writes(b, EscapedByte(b))
  {
  }

  lemma {:induction false} BodyInBytes(s: Text) returns (parts: seq<Text>)
    ensures |parts| == |s| && forall i :: 0 <= i < |s| ==> Writes(s[i], parts[i])
    ensures PrintBody(s, []) == Concat(parts) + [0x22]
  {
    parts := [];
    if s != [] {
      var tail := BodyInBytes(s[1..]);
      EscapedByteWrites(s[0]);
      parts := [EscapedByte(s[0])] + tail;
      assert parts[1..] == tail;
      assert EscapedByte(s[0]) + (Concat(tail) + [0x22]) == (EscapedByte(s[0]) + Concat(tail)) + [0x22];
    }
  }

  lemma {:induction false} ItemsInBytes(items: seq<Value>) returns (parts: seq<Text>)
    ensures |parts| == |items| && forall i :: 0 <= i < |items| ==> parts[i] == Canonical(items[i])
    ensures PrintItems(items, []) == Joined(parts)
  {
    parts := [];
    if items != [] {
      var tail := ItemsInBytes(items[1..]);
      var more := PrintMoreItems(items[1..], []);
      parts := [Canonical(items[0])] + tail;
      PrintThen(items[0], more);
      JoinedOneMore(Canonical(items[0]), tail, more);
    }
  }

  /** A member's bytes: its key as a string, a colon, its value. */
  ghost function MemberBytes(v: Value, key: Text): Text
    requires v.Obj? && key in v.members
  {
    Canonical(Str(key)) + [0x3A] + Canonical(v.members[key])
  }

  lemma MemberInBytes(v: Value, key: Text)
    requires v.Obj? && key in v.members
    ensures PrintMember(v, key, []) == MemberBytes(v, key)
  {
    PrintStringThen(key, [COLON] + Canonical(v.members[key]));
    assert PrintString(key, []) + ([COLON] + Canonical(v.members[key])) == MemberBytes(v, key);
  }

  lemma MemberThenMore(v: Value, keys: seq<Text>)
    requires v.Obj? && Sorting.Elements(keys) <= v.members.Keys && keys != []
    ensures keys[0] in v.members && Sorting.Elements(keys[1..]) <= v.members.Keys
    ensures PrintMembers(v, keys, []) == MemberBytes(v, keys[0]) + PrintMoreMembers(v, keys[1..], [])
    ensures PrintMoreMembers(v, keys[1..], []) == if |keys| == 1 then [] else [0x2C] + PrintMembers(v, keys[1..], [])
  {
    KeysOfTail(v, keys);
    MemberInBytes(v, keys[0]);
    PrintMemberThen(v, keys[0], PrintMoreMembers(v, keys[1..], []));
  }

  /** The bytes of the members of these keys, one by one. */
  ghost function MemberParts(v: Value, keys: seq<Text>): seq<Text>
    requires v.Obj? && Sorting.Elements(keys) <= v.members.Keys
  {
    if keys == [] then []
    else
      KeysOfTail(v, keys);
      [MemberBytes(v, keys[0])] + MemberParts(v, keys[1..])
  }

  lemma {:induction false} MemberPartsAt(v: Value, keys: seq<Text>)
    requires v.Obj? && Sorting.Elements(keys) <= v.members.Keys
    ensures |MemberParts(v, keys)| == |keys|
    ensures forall i :: 0 <= i < |keys| ==> keys[i] in v.members && MemberParts(v, keys)[i] == MemberBytes(v, keys[i])
  {
    if keys != [] {
      KeysOfTail(v, keys);
      MemberPartsAt(v, keys[1..]);
      assert forall i :: 0 < i < |keys| ==> keys[i] == keys[1..][i - 1];
    }
  }

  lemma {:induction false} MembersInBytes(v: Value, keys: seq<Text>)
    requires v.Obj? && Sorting.Elements(keys) <= v.members.Keys
    ensures PrintMembers(v, keys, []) == Joined(MemberParts(v, keys))
  {
    if keys != [] {
      KeysOfTail(v, keys);
      var member, tail := MemberBytes(v, keys[0]), MemberParts(v, keys[1..]);
      MembersInBytes(v, keys[1..]);
      MemberPartsAt(v, keys[1..]);
      MemberThenMore(v, keys);
      JoinedOneMore(member, tail, PrintMoreMembers(v, keys[1..], []));
    }
  }

  /** The three words, and a number's own token. */
  lemma WordsInBytes(v: Value)
    ensures v == Null ==> Canonical(v) == [0x6E, 0x75, 0x6C, 0x6C]
    ensures v == Bool(true) ==> Canonical(v) == [0x74, 0x72, 0x75, 0x65]
    ensures v == Bool(false) ==> Canonical(v) == [0x66, 0x61, 0x6C, 0x73, 0x65]
    ensures v.Num? ==> Canonical(v) == v.token
  {
  }

  /** A string is its bytes between quotes, each written as `Writes` says. */
  lemma StringInBytes(text: Text) returns (parts: seq<Text>)
    ensures |parts| == |text| && forall i :: 0 <= i < |text| ==> Writes(text[i], parts[i])
    ensures Canonical(Str(text)) == [0x22] + Concat(parts) + [0x22]
  {
    parts := BodyInBytes(text);
    assert [0x22] + (Concat(parts) + [0x22]) == [0x22] + Concat(parts) + [0x22];
  }

  /** An array is its items' bytes in order, between brackets, with commas and no white space. */
  lemma ArrayInBytes(items: seq<Value>) returns (parts: seq<Text>)
    ensures |parts| == |items| && forall i :: 0 <= i < |items| ==> parts[i] == Canonical(items[i])
    ensures Canonical(Arr(items)) == [0x5B] + Joined(parts) + [0x5D]
  {
    parts := ItemsInBytes(items);
    PrintItemsThen(items, [CLOSE_ARRAY] + []);
    assert [0x5B] + (Joined(parts) + ([0x5D] + [])) == [0x5B] + Joined(parts) + [0x5D];
  }

  /** An object is its members between braces, each key once, ascending byte by byte. */
  lemma ObjectInBytes(v: Value) returns (keys: seq<Text>, parts: seq<Text>)
    requires v.Obj?
    ensures forall key :: key in v.members <==> key in keys
    ensures forall i, j :: 0 <= i < j < |keys| ==> Precedes(keys[i], keys[j])
    ensures |parts| == |keys| && forall i :: 0 <= i < |keys| ==> parts[i] == MemberBytes(v, keys[i])
    ensures Canonical(v) == [0x7B] + Joined(parts) + [0x7D]
  {
    keys := SortedKeys(v.members.Keys);
    parts := MemberParts(v, keys);
    MemberPartsAt(v, keys);
    MembersInBytes(v, keys);
    PrintMembersThen(v, keys, [CLOSE_OBJECT] + []);
    assert [0x7B] + (Joined(parts) + ([0x7D] + [])) == [0x7B] + Joined(parts) + [0x7D];
    assert forall key :: key in keys <==> key in Sorting.Elements(keys);
    forall i, j | 0 <= i < j < |keys|
      ensures Precedes(keys[i], keys[j])
    {
      LessIsLexicographic(keys[i], keys[j]);
    }
  }

  // ---- the parser ---------------------------------------------------------------------

  /** The longest run of number bytes at the front, with what follows it. */
  function SpanNumber(t: Text): (r: (Text, Text))
    ensures |r.0| + |r.1| == |t|
    ensures forall i :: 0 <= i < |r.0| ==> NumberByte(r.0[i])
  {
    if t == [] || !NumberByte(t[0]) then ([], t)
    else
      var r := SpanNumber(t[1..]);
      ([t[0]] + r.0, r.1)
  }

  /** Members in the order read; a later key wins. */
  function ToMap(members: seq<(Text, Value)>): map<Text, Value> {
    if members == [] then map[]
    else ToMap(members[..|members| - 1])[members[|members| - 1].0 := members[|members| - 1].1]
  }

  function Parse(t: Text): (r: Option<(Value, Text)>)
    ensures r.Some? ==> |r.value.1| < |t|
    decreases |t|, 0
  {
    if t == [] then None
    else if NULL <= t then Some((Null, t[4..]))
    else if TRUE <= t then Some((Bool(true), t[4..]))
    else if FALSE <= t then Some((Bool(false), t[5..]))
    else if NumberByte(t[0]) then
      var r := SpanNumber(t);
      Some((Num(r.0), r.1))
    else if t[0] == QUOTE then
      var r := ParseString(t);
      if r.None? then None else Some((Str(r.value.0), r.value.1))
    else if t[0] == OPEN_ARRAY then
      if |t| >= 2 && t[1] == CLOSE_ARRAY then Some((Arr([]), t[2..]))
      else
        var r := ParseItems(t[1..]);
        if r.None? then None else Some((Arr(r.value.0), r.value.1))
    else if t[0] == OPEN_OBJECT then
      if |t| >= 2 && t[1] == CLOSE_OBJECT then Some((Obj(map[]), t[2..]))
      else
        var r := ParseMembers(t[1..]);
        if r.None? then None else Some((Obj(ToMap(r.value.0)), r.value.1))
    else None
  }

  /** One or more items up to the closing bracket. */
  function ParseItems(t: Text): (r: Option<(seq<Value>, Text)>)
    ensures r.Some? ==> |r.value.1| < |t|
    decreases |t|, 1
  {
    var head := Parse(t);
    if head.None? || head.value.1 == [] then None
    else
      var (item, rest) := head.value;
      if rest[0] == CLOSE_ARRAY then Some(([item], rest[1..]))
      else if rest[0] == COMMA then
        var tail := ParseItems(rest[1..]);
        if tail.None? then None else Some(([item] + tail.value.0, tail.value.1))
      else None
  }

  function ParseMember(t: Text): (r: Option<((Text, Value), Text)>)
    ensures r.Some? ==> |r.value.1| < |t|
    decreases |t|, 1
  {
    var key := ParseString(t);
    if key.None? || key.value.1 == [] || key.value.1[0] != COLON then None
    else
      var value := Parse(key.value.1[1..]);
      if value.None? then None else Some(((key.value.0, value.value.0), value.value.1))
  }

  /** One or more members up to the closing brace. */
  function ParseMembers(t: Text): (r: Option<(seq<(Text, Value)>, Text)>)
    ensures r.Some? ==> |r.value.1| < |t|
    decreases |t|, 2
  {
    var head := ParseMember(t);
    if head.None? || head.value.1 == [] then None
    else
      var (member, rest) := head.value;
      if rest[0] == CLOSE_OBJECT then Some(([member], rest[1..]))
      else if rest[0] == COMMA then
        var tail := ParseMembers(rest[1..]);
        if tail.None? then None else Some(([member] + tail.value.0, tail.value.1))
      else None
  }

  // ---- reading undoes printing --------------------------------------------------------

  lemma Hex(n: nat)
    requires n < 16
    ensures HexValue(HexDigit(n)) == Some(n)
  {
  }

  lemma ParseEscapedByte(b: Byte, rest: Text)
    ensures ParseByte(EscapedByte(b) + rest) == Some((b, rest))
    ensures (EscapedByte(b) + rest)[0] != QUOTE
  {
    var t := EscapedByte(b) + rest;
    if ShortEscape(b).Some? {
      assert t[1] == ShortEscape(b).value && t[2..] == rest;
    } else if b < 0x20 {
      Hex(b / 16);
      Hex(b % 16);
      assert t[1] == 0x75 && t[2] == 0x30 && t[3] == 0x30;
      assert t[4] == HexDigit(b / 16) && t[5] == HexDigit(b % 16) && t[6..] == rest;
    } else {
      assert t[1..] == rest;
    }
  }

  lemma {:induction false} ParsePrintBody(s: Text, rest: Text)
    ensures ParseBody(PrintBody(s, rest)) == Some((s, rest))
  {
    if s == [] {
      assert PrintBody(s, rest)[1..] == rest;
    } else {
      ParsePrintBody(s[1..], rest);
      ParseEscapedByte(s[0], PrintBody(s[1..], rest));
      assert [s[0]] + s[1..] == s;
    }
  }

  lemma ParsePrintString(s: Text, rest: Text)
    ensures ParseString(PrintString(s, rest)) == Some((s, rest))
  {
    assert PrintString(s, rest)[1..] == PrintBody(s, rest);
    ParsePrintBody(s, rest);
  }

  /** A tail that cannot be read as more of a number. */
  predicate Ends(rest: Text) {
    rest == [] || !NumberByte(rest[0])
  }

  lemma {:induction false} SpanOfNumber(token: Text, rest: Text)
    requires forall i :: 0 <= i < |token| ==> NumberByte(token[i])
    requires Ends(rest)
    ensures SpanNumber(token + rest) == (token, rest)
  {
    if token == [] {
      assert token + rest == rest;
    } else {
      SpanOfNumber(token[1..], rest);
      assert (token + rest)[1..] == token[1..] + rest;
      assert [token[0]] + token[1..] == token;
    }
  }

  /** The first byte tells the printed shapes apart. */
  lemma FirstByte(v: Value, rest: Text)
    ensures Print(v, rest) != []
    ensures var b := Print(v, rest)[0];
            match v
            case Null => b == 0x6E
            case Bool(x) => b == if x then 0x74 else 0x66
            case Num(token) => NumberByte(b)
            case Str(_) => b == QUOTE
            case Arr(_) => b == OPEN_ARRAY
            case Obj(_) => b == OPEN_OBJECT
  {
  }

  /** Reading the printed bytes of a value gives the value and leaves the tail. */
  lemma {:induction false} ParsePrint(v: Value, rest: Text)
    requires Ends(rest)
    ensures Parse(Print(v, rest)) == Some((v, rest))
    decreases v, 2
  {
    var t := Print(v, rest);
    FirstByte(v, rest);
    match v
    case Null => assert NULL <= t && t[4..] == rest;
    case Bool(b) => assert (if b then TRUE else FALSE) <= t && t[|if b then TRUE else FALSE|..] == rest;
    case Num(token) => SpanOfNumber(token, rest);
    case Str(text) => ParsePrintString(text, rest);
    case Arr(items) => ParsePrintArray(v, rest);
    case Obj(members) => ParsePrintObject(v, rest);
  }

  lemma {:induction false} ParsePrintArray(v: Value, rest: Text)
    requires v.Arr? && Ends(rest)
    ensures Parse(Print(v, rest)) == Some((v, rest))
    decreases v, 1
  {
    var t := Print(v, rest);
    assert t[1..] == PrintItems(v.items, [CLOSE_ARRAY] + rest);
    if v.items == [] {
      assert t[1] == CLOSE_ARRAY && t[2..] == rest;
    } else {
      ParsePrintItems(v.items, rest);
      FirstByte(v.items[0], PrintMoreItems(v.items[1..], [CLOSE_ARRAY] + rest));
    }
  }

  lemma {:induction false} ParsePrintItems(items: seq<Value>, rest: Text)
    requires items != []
    ensures ParseItems(PrintItems(items, [CLOSE_ARRAY] + rest)) == Some((items, rest))
    decreases items, 0
  {
    var more := PrintMoreItems(items[1..], [CLOSE_ARRAY] + rest);
    ParsePrint(items[0], more);
    if items[1..] == [] {
      assert more[1..] == rest;
      assert [items[0]] == items;
    } else {
      assert more[1..] == PrintItems(items[1..], [CLOSE_ARRAY] + rest);
      ParsePrintItems(items[1..], rest);
      assert [items[0]] + items[1..] == items;
    }
  }

  /** The members of an object, key by key. */
  function Members(v: Value, keys: seq<Text>): seq<(Text, Value)>
    requires v.Obj? && forall i :: 0 <= i < |keys| ==> keys[i] in v.members
  {
    seq(|keys|, i requires 0 <= i < |keys| => (keys[i], v.members[keys[i]]))
  }

  lemma {:induction false} MembersGiveTheMap(v: Value, keys: seq<Text>)
    requires v.Obj? && forall i :: 0 <= i < |keys| ==> keys[i] in v.members
    ensures ToMap(Members(v, keys)) == map k | k in Sorting.Elements(keys) && k in v.members :: v.members[k]
  {
    if keys != [] {
      var n := |keys| - 1;
      MembersGiveTheMap(v, keys[..n]);
      assert Members(v, keys)[..n] == Members(v, keys[..n]);
      assert keys == keys[..n] + [keys[n]];
    }
  }

  lemma AllMembersGiveTheObject(v: Value, keys: seq<Text>)
    requires v.Obj? && forall i :: 0 <= i < |keys| ==> keys[i] in v.members
    requires Sorting.Elements(keys) == v.members.Keys
    ensures ToMap(Members(v, keys)) == v.members
  {
    MembersGiveTheMap(v, keys);
    assert v.members == map k | k in Sorting.Elements(keys) && k in v.members :: v.members[k];
  }

  lemma KeysAreMembers(v: Value, keys: seq<Text>)
    requires v.Obj? && Sorting.Elements(keys) <= v.members.Keys
    ensures forall i :: 0 <= i < |keys| ==> keys[i] in v.members
  {
    assert forall i :: 0 <= i < |keys| ==> keys[i] in Sorting.Elements(keys);
  }

  lemma {:induction false} ParsePrintMember(v: Value, key: Text, rest: Text)
    requires v.Obj? && key in v.members && Ends(rest)
    ensures ParseMember(PrintMember(v, key, rest)) == Some(((key, v.members[key]), rest))
    decreases v, 0, 0
  {
    var value := Print(v.members[key], rest);
    ParsePrintString(key, [COLON] + value);
    assert ([COLON] + value)[1..] == value;
    ParsePrint(v.members[key], rest);
  }

  lemma {:induction false} ParsePrintMembers(v: Value, keys: seq<Text>, rest: Text)
    requires v.Obj? && Sorting.Elements(keys) <= v.members.Keys && keys != []
    ensures forall i :: 0 <= i < |keys| ==> keys[i] in v.members
    ensures ParseMembers(PrintMembers(v, keys, [CLOSE_OBJECT] + rest)) == Some((Members(v, keys), rest))
    decreases v, 0, |keys| + 1
  {
    KeysAreMembers(v, keys);
    KeysOfTail(v, keys);
    var more, member := PrintMoreMembers(v, keys[1..], [CLOSE_OBJECT] + rest), (keys[0], v.members[keys[0]]);
    ParsePrintMember(v, keys[0], more);
    if keys[1..] == [] {
      assert more[1..] == rest;
      assert Members(v, keys) == [member];
    } else {
      assert more[1..] == PrintMembers(v, keys[1..], [CLOSE_OBJECT] + rest);
      ParsePrintMembers(v, keys[1..], rest);
      ParseOneMore(PrintMembers(v, keys, [CLOSE_OBJECT] + rest), member, more, Members(v, keys[1..]), rest);
      assert Members(v, keys) == [member] + Members(v, keys[1..]);
    }
  }

  lemma ParseOneMore(t: Text, member: (Text, Value), more: Text, members: seq<(Text, Value)>, rest: Text)
    requires ParseMember(t) == Some((member, more)) && more != [] && more[0] == COMMA
    requires ParseMembers(more[1..]) == Some((members, rest))
    ensures ParseMembers(t) == Some(([member] + members, rest))
  {
  }

  lemma {:induction false} ParsePrintObject(v: Value, rest: Text)
    requires v.Obj? && Ends(rest)
    ensures Parse(Print(v, rest)) == Some((v, rest))
    decreases v, 1
  {
    var t := Print(v, rest);
    var keys := SortedKeys(v.members.Keys);
    assert t[1..] == PrintMembers(v, keys, [CLOSE_OBJECT] + rest);
    Sorting.EmptyElements(keys);
    if keys == [] {
      assert t[1] == CLOSE_OBJECT && t[2..] == rest;
      assert v.members == map[];
    } else {
      ParsePrintMembers(v, keys, rest);
      AllMembersGiveTheObject(v, keys);
      assert t[1..][0] == QUOTE;
      ParseFilledObject(t, Members(v, keys), rest);
    }
  }

  lemma ParseFilledObject(t: Text, members: seq<(Text, Value)>, rest: Text)
    requires |t| > 1 && t[0] == OPEN_OBJECT && t[1] == QUOTE && ParseMembers(t[1..]) == Some((members, rest))
    ensures Parse(t) == Some((Obj(ToMap(members)), rest))
  {
  }

  /** The canonical bytes read back to the value. */
  lemma CanonicalRoundTrip(v: Value)
    ensures Parse(Canonical(v)) == Some((v, []))
  {
    ParsePrint(v, []);
  }

  /** Two values print the same bytes exactly when they are equal, objects read as maps. */
  lemma CanonicalIsInjective(v: Value, w: Value)
    ensures Canonical(v) == Canonical(w) <==> v == w
  {
    CanonicalRoundTrip(v);
    CanonicalRoundTrip(w);
  }

  /** No value's bytes open another's, unless a number could go on. */
  lemma CanonicalIsPrefixFree(v: Value, w: Value, rest: Text)
    requires Ends(rest) && Canonical(v) + rest == Canonical(w)
    ensures v == w && rest == []
  {
    PrintThen(v, rest);
    ParsePrint(v, rest);
    CanonicalRoundTrip(w);
  }
}
