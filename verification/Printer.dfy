/**
 The canonical JSON printer (rust/mdp2p-core/src/canonical.rs): the bytes every signature and every
 manifest reference is computed over. `Canonical` says what is printed; `WriteValue` and
 `WriteString` print it, as the program does, by pushing onto one shared buffer.
 */
module Printer {
  import opened Json
  import opened Text
  import opened Wrappers

  datatype CanonicalError = FloatRefused

  const QUOTE: byte := 34
  const COMMA: byte := 44
  const COLON: byte := 58
  const BACKSLASH: byte := 92
  const MINUS: byte := 45
  const OPEN_BRACKET: byte := 91
  const CLOSE_BRACKET: byte := 93
  const OPEN_BRACE: byte := 123
  const CLOSE_BRACE: byte := 125
  const NULL_TEXT: bytes := [110, 117, 108, 108]
  const TRUE_TEXT: bytes := [116, 114, 117, 101]
  const FALSE_TEXT: bytes := [102, 97, 108, 115, 101]

  type codeunit = u: int | 0 <= u < 0x10000

  // ---- What is printed

  function HexDigit(d: nat): byte
    requires d < 16
  {
    if d < 10 then 48 + d else 87 + d
  }

  // `{:04x}`
  function Hex4(unit: codeunit): bytes
  {
    [HexDigit(unit / 16 / 16 / 16), HexDigit(unit / 16 / 16 % 16), HexDigit(unit / 16 % 16), HexDigit(unit % 16)]
  }

  // Section 2.1 of RFC 2781.
  function Utf16(c: char): seq<codeunit>
  {
    var u := c as int;
    if u < 0x10000 then [u] else [0xD800 + (u - 0x10000) / 0x400, 0xDC00 + (u - 0x10000) % 0x400]
  }

  function EscapedUnits(units: seq<codeunit>): bytes
  {
    if units == [] then [] else [BACKSLASH, 117] + Hex4(units[0]) + EscapedUnits(units[1..])
  }

  function EscapeChar(c: char): bytes
  {
    if c == '\"' then [BACKSLASH, QUOTE]
    else if c == '\\' then [BACKSLASH, BACKSLASH]
    else if c == '\n' then [BACKSLASH, 110]
    else if c == '\r' then [BACKSLASH, 114]
    else if c == '\t' then [BACKSLASH, 116]
    else if c as int == 8 then [BACKSLASH, 98]
    else if c as int == 12 then [BACKSLASH, 102]
    else if !(' ' <= c <= '~') then EscapedUnits(Utf16(c))
    else [c as int]
  }

  function Escaped(s: string): bytes
  {
    if s == [] then [] else EscapeChar(s[0]) + Escaped(s[1..])
  }

  function Quoted(s: string): bytes
  {
    [QUOTE] + Escaped(s) + [QUOTE]
  }

  // `to_string` on an unsigned integer.
  function Decimal(n: nat): bytes
  {
    if n < 10 then [48 + n] else Decimal(n / 10) + [48 + n % 10]
  }

  function IntText(i: int): bytes
  {
    if i < 0 then [MINUS] + Decimal(-i) else Decimal(i)
  }

  // Floats print nothing here: a value holding one is refused before its bytes are used.
  function Canonical(v: Value): bytes
    decreases v, 1, 0
  {
    match v
    case Null => NULL_TEXT
    case Bool(b) => if b then TRUE_TEXT else FALSE_TEXT
    case Integer(i) => IntText(i)
    case Float(_) => []
    case Str(s) => Quoted(s)
    case Array(_) => [OPEN_BRACKET] + ItemsFrom(v, 0) + [CLOSE_BRACKET]
    case Object(members) => [OPEN_BRACE] + MembersFrom(v, SortedKeys(members.Keys), 0) + [CLOSE_BRACE]
  }

  function Separator(i: nat): bytes { if i > 0 then [COMMA] else [] }

  // The array's items from index i on.
  function ItemsFrom(v: Value, i: nat): bytes
    requires v.Array? && i <= |v.items|
    decreases v, 0, |v.items| - i
  {
    if i == |v.items| then [] else Separator(i) + Canonical(v.items[i]) + ItemsFrom(v, i + 1)
  }

  predicate Lists(v: Value, keys: seq<string>)
  {
    v.Object? && forall i | 0 <= i < |keys| :: keys[i] in v.members
  }

  // The object's members from the i-th listed key on.
  function MembersFrom(v: Value, keys: seq<string>, i: nat): bytes
    requires Lists(v, keys) && i <= |keys|
    decreases v, 0, |keys| - i
  {
    if i == |keys| then []
    else Separator(i) + (Quoted(keys[i]) + [COLON] + Canonical(v.members[keys[i]])) + MembersFrom(v, keys, i + 1)
  }

  // What `canonical_json` returns; None stands for `Err(CanonicalError::Float)`.
  function CanonicalJson(v: Value): Option<bytes>
  {
    if FloatFree(v) then Some(Canonical(v)) else None
  }

  // ---- How it is printed

  lemma Regroup(a: bytes, b: bytes, c: bytes)
    ensures a + (b + c) == (a + b) + c
  {
  }

  // The `&mut Vec<u8>` that the writers share.
  class ByteVec {
    var data: bytes

    constructor ()
      ensures data == []
    {
      data := [];
    }

    method Push(b: byte)
      modifies this
      ensures data == old(data) + [b]
    {
      data := data + [b];
    }

    method Extend(b: bytes)
      modifies this
      ensures data == old(data) + b
    {
      data := data + b;
    }
  }

  lemma EmptyTail(a: bytes)
    ensures a + [] == a
  {
  }

  method WriteUnits(units: seq<codeunit>, out: ByteVec)
    modifies out
    ensures out.data == old(out.data) + EscapedUnits(units)
  {
    ghost var start := out.data;
    for j := 0 to |units|
      invariant out.data + EscapedUnits(units[j..]) == start + EscapedUnits(units)
    {
      ghost var sofar := out.data;
      out.Extend([BACKSLASH, 117] + Hex4(units[j]));
      assert units[j..][1..] == units[j + 1..];
      assert out.data + EscapedUnits(units[j + 1..]) == sofar + EscapedUnits(units[j..]);
    }
  }

  method WriteChar(c: char, out: ByteVec)
    modifies out
    ensures out.data == old(out.data) + EscapeChar(c)
  {
    if c == '\"' {
      out.Extend([BACKSLASH, QUOTE]);
    } else if c == '\\' {
      out.Extend([BACKSLASH, BACKSLASH]);
    } else if c == '\n' {
      out.Extend([BACKSLASH, 110]);
    } else if c == '\r' {
      out.Extend([BACKSLASH, 114]);
    } else if c == '\t' {
      out.Extend([BACKSLASH, 116]);
    } else if c as int == 8 {
      out.Extend([BACKSLASH, 98]);
    } else if c as int == 12 {
      out.Extend([BACKSLASH, 102]);
    } else if !(' ' <= c <= '~') {
      WriteUnits(Utf16(c), out);
    } else {
      out.Push(c as int);
    }
  }

  method WriteString(s: string, out: ByteVec)
    modifies out
    ensures out.data == old(out.data) + Quoted(s)
  {
    out.Push(QUOTE);
    ghost var start := out.data;
    for i := 0 to |s|
      invariant out.data + Escaped(s[i..]) == start + Escaped(s)
    {
      ghost var before := out.data;
      WriteChar(s[i], out);
      assert s[i..][1..] == s[i + 1..];
      Regroup(before, EscapeChar(s[i]), Escaped(s[i + 1..]));
    }
    assert out.data == start + Escaped(s);
    out.Push(QUOTE);
  }

  // Refuses exactly the values that hold a float; what it appends is the canonical text.
  method WriteValue(v: Value, out: ByteVec) returns (r: Result<(), CanonicalError>)
    modifies out
    ensures r == if FloatFree(v) then Success(()) else Failure(FloatRefused)
    ensures r.Success? ==> out.data == old(out.data) + Canonical(v)
    decreases v, 1, 0
  {
    r := Success(());
    match v {
      case Null => out.Extend(NULL_TEXT);
      case Bool(b) => out.Extend(if b then TRUE_TEXT else FALSE_TEXT);
      case Integer(i) => out.Extend(IntText(i));
      case Float(_) => r := Failure(FloatRefused);
      case Str(s) => WriteString(s, out);
      case Array(_) => r := WriteArray(v, out);
      case Object(_) => r := WriteObject(v, out);
    }
  }

  lemma ItemsStep(v: Value, i: nat, before: bytes)
    requires v.Array? && i < |v.items|
    ensures before + Separator(i) + Canonical(v.items[i]) + ItemsFrom(v, i + 1) == before + ItemsFrom(v, i)
  {
    Regroup(before, Separator(i), Canonical(v.items[i]));
    Regroup(before, Separator(i) + Canonical(v.items[i]), ItemsFrom(v, i + 1));
  }

  lemma MembersStep(v: Value, keys: seq<string>, i: nat, before: bytes)
    requires Lists(v, keys) && i < |keys|
    ensures before + Separator(i) + MemberText(v, keys[i]) + MembersFrom(v, keys, i + 1) ==
      before + MembersFrom(v, keys, i)
  {
    Regroup(before, Separator(i), MemberText(v, keys[i]));
    Regroup(before, Separator(i) + MemberText(v, keys[i]), MembersFrom(v, keys, i + 1));
  }

  method WriteItem(v: Value, i: nat, out: ByteVec) returns (r: Result<(), CanonicalError>)
    requires v.Array? && i < |v.items|
    modifies out
    ensures r == if FloatFree(v.items[i]) then Success(()) else Failure(FloatRefused)
    ensures r.Success? ==> out.data == old(out.data) + Separator(i) + Canonical(v.items[i])
    decreases v, 0, 0
  {
    if i > 0 {
      out.Push(COMMA);
    }
    assert out.data == old(out.data) + Separator(i);
    r := WriteValue(v.items[i], out);
  }

  method WriteArray(v: Value, out: ByteVec) returns (r: Result<(), CanonicalError>)
    requires v.Array?
    modifies out
    ensures r == if FloatFree(v) then Success(()) else Failure(FloatRefused)
    ensures r.Success? ==> out.data == old(out.data) + ([OPEN_BRACKET] + ItemsFrom(v, 0) + [CLOSE_BRACKET])
    decreases v, 0, 1
  {
    out.Push(OPEN_BRACKET);
    ghost var start := out.data;
    for i := 0 to |v.items|
      invariant forall j | 0 <= j < i :: FloatFree(v.items[j])
      invariant out.data + ItemsFrom(v, i) == start + ItemsFrom(v, 0)
    {
      ItemsStep(v, i, out.data);
      r := WriteItem(v, i, out);
      if r.Failure? {
        return;
      }
    }
    EmptyTail(out.data);
    out.Push(CLOSE_BRACKET);
    Regroup(old(out.data), [OPEN_BRACKET], ItemsFrom(v, 0));
    Regroup(old(out.data), [OPEN_BRACKET] + ItemsFrom(v, 0), [CLOSE_BRACKET]);
    r := Success(());
  }

  function MemberText(v: Value, k: string): bytes
    requires v.Object? && k in v.members
  {
    Quoted(k) + [COLON] + Canonical(v.members[k])
  }

  method WriteMember(v: Value, k: string, i: nat, out: ByteVec) returns (r: Result<(), CanonicalError>)
    requires v.Object? && k in v.members
    modifies out
    ensures r == if FloatFree(v.members[k]) then Success(()) else Failure(FloatRefused)
    ensures r.Success? ==> out.data == old(out.data) + Separator(i) + MemberText(v, k)
    decreases v, 0, 0
  {
    if i > 0 {
      out.Push(COMMA);
    }
    assert out.data == old(out.data) + Separator(i);
    WriteString(k, out);
    out.Push(COLON);
    r := WriteValue(v.members[k], out);
    Regroup(old(out.data) + Separator(i), Quoted(k), [COLON]);
    Regroup(old(out.data) + Separator(i), Quoted(k) + [COLON], Canonical(v.members[k]));
  }

  ghost predicate MembersFloatFree(v: Value, keys: seq<string>)
    requires Lists(v, keys)
  {
    forall j | 0 <= j < |keys| :: FloatFree(v.members[keys[j]])
  }

  method WriteMembers(v: Value, keys: seq<string>, out: ByteVec) returns (r: Result<(), CanonicalError>)
    requires Lists(v, keys)
    modifies out
    ensures r == if MembersFloatFree(v, keys) then Success(()) else Failure(FloatRefused)
    ensures r.Success? ==> out.data == old(out.data) + MembersFrom(v, keys, 0)
    decreases v, 0, 1
  {
    ghost var start := out.data;
    for i := 0 to |keys|
      invariant forall j | 0 <= j < i :: FloatFree(v.members[keys[j]])
      invariant out.data + MembersFrom(v, keys, i) == start + MembersFrom(v, keys, 0)
    {
      MembersStep(v, keys, i, out.data);
      r := WriteMember(v, keys[i], i, out);
      if r.Failure? {
        return;
      }
    }
    EmptyTail(out.data);
    r := Success(());
  }

  method WriteObject(v: Value, out: ByteVec) returns (r: Result<(), CanonicalError>)
    requires v.Object?
    modifies out
    ensures r == if FloatFree(v) then Success(()) else Failure(FloatRefused)
    ensures r.Success? ==>
      out.data == old(out.data) + ([OPEN_BRACE] + MembersFrom(v, SortedKeys(v.members.Keys), 0) + [CLOSE_BRACE])
    decreases v, 0, 2
  {
    var keys := SortedKeys(v.members.Keys);
    out.Push(OPEN_BRACE);
    r := WriteMembers(v, keys, out);
    out.Push(CLOSE_BRACE);
    Regroup(old(out.data), [OPEN_BRACE], MembersFrom(v, keys, 0));
    Regroup(old(out.data), [OPEN_BRACE] + MembersFrom(v, keys, 0), [CLOSE_BRACE]);
    assert MembersFloatFree(v, keys) <==> FloatFree(v) by {
      if MembersFloatFree(v, keys) {
        forall k | k in v.members ensures FloatFree(v.members[k]) {
          assert k in keys;
        }
      }
    }
  }

  method WriteCanonical(v: Value) returns (r: Result<bytes, CanonicalError>)
    ensures r.Success? <==> FloatFree(v)
    ensures r.Success? ==> CanonicalJson(v) == Some(r.value)
  {
    var out := new ByteVec();
    var written := WriteValue(v, out);
    if written.Failure? {
      return Failure(written.error);
    }
    assert [] + Canonical(v) == Canonical(v);
    r := Success(out.data);
  }
}
