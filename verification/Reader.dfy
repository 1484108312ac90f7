/**
 A reader for JSON texts, written from the grammar of RFC 8259 rather than from the printer, and the proof
 that it inverts the printer. It makes the printer injective, which is what signatures and references rely
 on. Python's messages travel in canonical form (wire.py:36), but whoever sends a message may write it in any
 way the grammar allows: with white space, with characters unescaped in UTF-8, with names in any order or
 more than once. Fractions, exponents and integers beyond 64 bits are left out: values that hold one are not read.
 */
module Reader {
  import opened Json
  import opened Printer
  import opened Text
  import opened Wrappers

  datatype Parsed<+T> = Rejected | Parsed(value: T, rest: bytes)

  // ---- White space (section 2 of RFC 8259)

  predicate IsSpace(b: byte) { b == 32 || b == 9 || b == 10 || b == 13 }

  function SkipSpace(s: bytes): (r: bytes)
    ensures |r| <= |s| && (r == [] || !IsSpace(r[0]))
  {
    if s != [] && IsSpace(s[0]) then SkipSpace(s[1..]) else s
  }

  // ---- Strings (section 7 of RFC 8259)

  function HexValue(b: byte): Option<nat>
  {
    if 48 <= b <= 57 then Some(b - 48)
    else if 97 <= b <= 102 then Some(b - 87)
    else if 65 <= b <= 70 then Some(b - 55)
    else None
  }

  function ParseHex4(s: bytes): Option<codeunit>
    requires |s| >= 4
  {
    var a, b, c, d := HexValue(s[0]), HexValue(s[1]), HexValue(s[2]), HexValue(s[3]);
    if a.None? || b.None? || c.None? || d.None? then None
    else
      var n := ((a.value * 16 + b.value) * 16 + c.value) * 16 + d.value;
      if n < 0x10000 then Some(n) else None
  }

  // A `\uXXXX` escape, or two of them for a surrogate pair; a lone surrogate is no character.
  function ParseUnicodeEscape(s: bytes): (r: Parsed<char>)
    requires |s| >= 2
    ensures r.Parsed? ==> |r.rest| < |s|
  {
    if |s| < 6 then Rejected
    else
      var unit := ParseHex4(s[2..6]);
      if unit.None? then Rejected
      else if unit.value < 0xD800 || 0xE000 <= unit.value then Parsed(unit.value as char, s[6..])
      else if unit.value >= 0xDC00 || |s| < 12 || s[6] != BACKSLASH || s[7] != 117 then Rejected
      else
        var low := ParseHex4(s[8..12]);
        if low.None? || !(0xDC00 <= low.value < 0xE000) then Rejected
        else
          var u := 0x10000 + (unit.value - 0xD800) * 0x400 + (low.value - 0xDC00);
          Parsed(u as char, s[12..])
  }

  function ParseChar(s: bytes): (r: Parsed<char>)
    requires s != []
    ensures r.Parsed? ==> |r.rest| < |s|
  {
    if s[0] == BACKSLASH then
      if |s| < 2 then Rejected
      else if s[1] == QUOTE then Parsed('\"', s[2..])
      else if s[1] == BACKSLASH then Parsed('\\', s[2..])
      else if s[1] == 47 then Parsed('/', s[2..])
      else if s[1] == 110 then Parsed('\n', s[2..])
      else if s[1] == 114 then Parsed('\r', s[2..])
      else if s[1] == 116 then Parsed('\t', s[2..])
      else if s[1] == 98 then Parsed(8 as char, s[2..])
      else if s[1] == 102 then Parsed(12 as char, s[2..])
      else if s[1] == 117 then ParseUnicodeEscape(s)
      else Rejected
    else if s[0] < 0x20 || s[0] == QUOTE then Rejected
    else
      var first := DecodeChar(s);
      if first.None? then Rejected else Parsed(first.value.0, s[first.value.1..])
  }

  // The characters up to the closing quote.
  function ParseChars(s: bytes): (r: Parsed<string>)
    ensures r.Parsed? ==> |r.rest| < |s|
    decreases |s|
  {
    if s == [] then Rejected
    else if s[0] == QUOTE then Parsed([], s[1..])
    else
      var first := ParseChar(s);
      if first.Rejected? then Rejected
      else
        var more := ParseChars(first.rest);
        if more.Rejected? then Rejected else Parsed([first.value] + more.value, more.rest)
  }

  function ParseString(s: bytes): (r: Parsed<string>)
    ensures r.Parsed? ==> |r.rest| < |s|
  {
    if s != [] && s[0] == QUOTE then ParseChars(s[1..]) else Rejected
  }

  // ---- Integers (section 6 of RFC 8259, without fractions and exponents): they have no closing delimiter and end
  // where the digits end; a leading zero stands alone.

  predicate IsDigit(b: byte) { 48 <= b <= 57 }

  function DigitRun(s: bytes): (n: nat)
    ensures n <= |s|
  {
    if s == [] || !IsDigit(s[0]) then 0 else 1 + DigitRun(s[1..])
  }

  function DigitsValue(s: bytes): nat
    requires forall i | 0 <= i < |s| :: IsDigit(s[i])
  {
    if s == [] then 0
    else
      assert IsDigit(s[|s| - 1]);
      DigitsValue(s[..|s| - 1]) * 10 + (s[|s| - 1] as int - 48)
  }

  lemma {:induction false} DigitRunIsDigits(s: bytes)
    ensures forall i | 0 <= i < DigitRun(s) :: IsDigit(s[i])
  {
    if s != [] && IsDigit(s[0]) {
      DigitRunIsDigits(s[1..]);
      forall i | 0 <= i < DigitRun(s) ensures IsDigit(s[i]) {
        if i > 0 { assert s[i] == s[1..][i - 1]; }
      }
    }
  }

  function ParseInteger(s: bytes): (r: Parsed<Value>)
    ensures r.Parsed? ==> |r.rest| < |s|
  {
    var negative := s != [] && s[0] == MINUS;
    var d := if negative then s[1..] else s;
    var n := DigitRun(d);
    DigitRunIsDigits(d);
    var magnitude := DigitsValue(d[..n]);
    var i := if negative then 0 - magnitude as int else magnitude as int;
    if n == 0 || (n > 1 && d[0] == 48) || !(-0x8000_0000_0000_0000 <= i < 0x1_0000_0000_0000_0000) then Rejected
    else Parsed(Integer(i), d[n..])
  }

  // ---- Values

  function ParseValue(input: bytes): (r: Parsed<Value>)
    ensures r.Parsed? ==> |r.rest| < |input|
    decreases |input|, 0
  {
    var s := SkipSpace(input);
    if s == [] then Rejected
    else if NULL_TEXT <= s then Parsed(Null, s[4..])
    else if TRUE_TEXT <= s then Parsed(Bool(true), s[4..])
    else if FALSE_TEXT <= s then Parsed(Bool(false), s[5..])
    else if s[0] == QUOTE then
      var text := ParseString(s);
      if text.Rejected? then Rejected else Parsed(Str(text.value), text.rest)
    else if s[0] == OPEN_BRACKET then
      var items := ParseItems(s[1..], true);
      if items.Rejected? then Rejected else Parsed(Array(items.value), items.rest)
    else if s[0] == OPEN_BRACE then
      var members := ParseMembers(s[1..], true);
      if members.Rejected? then Rejected else Parsed(Object(members.value), members.rest)
    else ParseInteger(s)
  }

  function ParseItems(input: bytes, first: bool): (r: Parsed<seq<Value>>)
    ensures r.Parsed? ==> |r.rest| < |input|
    decreases |input|, 1
  {
    var s := SkipSpace(input);
    if s == [] then Rejected
    else if s[0] == CLOSE_BRACKET then Parsed([], s[1..])
    else if !first && s[0] != COMMA then Rejected
    else
      var item := ParseValue(if first then s else s[1..]);
      if item.Rejected? then Rejected
      else
        var more := ParseItems(item.rest, false);
        if more.Rejected? then Rejected else Parsed([item.value] + more.value, more.rest)
  }

  // A name and its value; of a name that comes twice the last value counts.
  function ParseMember(input: bytes): (r: Parsed<(string, Value)>)
    ensures r.Parsed? ==> |r.rest| < |input|
    decreases |input|, 1
  {
    var key := ParseString(SkipSpace(input));
    if key.Rejected? then Rejected
    else
      var s := SkipSpace(key.rest);
      if s == [] || s[0] != COLON then Rejected
      else
        var member := ParseValue(s[1..]);
        if member.Rejected? then Rejected else Parsed((key.value, member.value), member.rest)
  }

  function ParseMembers(input: bytes, first: bool): (r: Parsed<map<string, Value>>)
    ensures r.Parsed? ==> |r.rest| < |input|
    decreases |input|, 2
  {
    var s := SkipSpace(input);
    if s == [] then Rejected
    else if s[0] == CLOSE_BRACE then Parsed(map[], s[1..])
    else if !first && s[0] != COMMA then Rejected
    else
      var member := ParseMember(if first then s else s[1..]);
      if member.Rejected? then Rejected
      else
        var more := ParseMembers(member.rest, false);
        if more.Rejected? then Rejected
        else Parsed(map[member.value.0 := member.value.1] + more.value, more.rest)
  }

  // ---- The reader inverts the printer

  lemma HexRoundTrip(d: nat)
    requires d < 16
    ensures HexValue(HexDigit(d)) == Some(d)
  {
  }

  lemma Hex4RoundTrip(u: codeunit)
    ensures ParseHex4(Hex4(u)) == Some(u)
  {
    HexRoundTrip(u / 16 / 16 / 16);
    HexRoundTrip(u / 16 / 16 % 16);
    HexRoundTrip(u / 16 % 16);
    HexRoundTrip(u % 16);
  }

  lemma UnicodeEscapeRoundTrip(c: char, t: bytes)
    ensures ParseUnicodeEscape(EscapedUnits(Utf16(c)) + t) == Parsed(c, t)
  {
    var u := c as int;
    var s := EscapedUnits(Utf16(c)) + t;
    if u < 0x10000 {
      assert EscapedUnits(Utf16(c)) == [BACKSLASH, 117] + Hex4(u);
      Hex4RoundTrip(u);
      assert s[2..6] == Hex4(u) && s[6..] == t;
    } else {
      var hi: codeunit, lo: codeunit := 0xD800 + (u - 0x10000) / 0x400, 0xDC00 + (u - 0x10000) % 0x400;
      assert Utf16(c)[1..] == [lo];
      assert EscapedUnits([lo]) == [BACKSLASH, 117] + Hex4(lo);
      assert EscapedUnits(Utf16(c)) == [BACKSLASH, 117] + Hex4(hi) + ([BACKSLASH, 117] + Hex4(lo));
      Hex4RoundTrip(hi);
      Hex4RoundTrip(lo);
      assert s[2..6] == Hex4(hi) && s[8..12] == Hex4(lo) && s[12..] == t;
    }
  }

  lemma EscapeCharRoundTrip(c: char, t: bytes)
    ensures EscapeChar(c) != [] && EscapeChar(c)[0] != QUOTE
    ensures ParseChar(EscapeChar(c) + t) == Parsed(c, t)
  {
    var s := EscapeChar(c) + t;
    if EscapeChar(c) == EscapedUnits(Utf16(c)) {
      UnicodeEscapeRoundTrip(c, t);
    } else if |EscapeChar(c)| == 1 {
      assert s[1..] == t && DecodeChar(s) == Some((c, 1));
    } else {
      assert s[2..] == t;
    }
  }

  lemma {:induction false} EscapedRoundTrip(text: string, t: bytes)
    ensures ParseChars(Escaped(text) + ([QUOTE] + t)) == Parsed(text, t)
  {
    if text == [] {
      assert Escaped(text) + ([QUOTE] + t) == [QUOTE] + t;
    } else {
      var tail := Escaped(text[1..]) + ([QUOTE] + t);
      Regroup(EscapeChar(text[0]), Escaped(text[1..]), [QUOTE] + t);
      EscapeCharRoundTrip(text[0], tail);
      EscapedRoundTrip(text[1..], t);
      StartsAsFirst(EscapeChar(text[0]), tail);
      assert Escaped(text) + ([QUOTE] + t) == EscapeChar(text[0]) + tail;
      assert text == [text[0]] + text[1..];
      hide ParseChar;
      hide EscapeChar;
      hide Escaped;
    }
  }

  lemma QuotedRoundTrip(text: string, t: bytes)
    ensures ParseString(Quoted(text) + t) == Parsed(text, t)
  {
    assert Quoted(text) + t == [QUOTE] + (Escaped(text) + ([QUOTE] + t));
    EscapedRoundTrip(text, t);
  }

  lemma {:induction false} DecimalDigits(n: nat)
    ensures forall i | 0 <= i < |Decimal(n)| :: IsDigit(Decimal(n)[i])
    ensures |Decimal(n)| > 0 && DigitsValue(Decimal(n)) == n
  {
    if n >= 10 {
      DecimalDigits(n / 10);
      var d := Decimal(n);
      assert d[..|d| - 1] == Decimal(n / 10);
    } else {
      assert Decimal(n)[..0] == [];
    }
  }

  lemma {:induction false} NoLeadingZero(n: nat)
    ensures |Decimal(n)| > 0 && (n > 0 ==> Decimal(n)[0] != 48) && (n == 0 ==> |Decimal(n)| == 1)
  {
    if n >= 10 { NoLeadingZero(n / 10); }
  }

  predicate Delimits(t: bytes)
  {
    t == [] || !IsDigit(t[0])
  }

  lemma {:induction false} DigitRunStops(d: bytes, t: bytes)
    requires forall i | 0 <= i < |d| :: IsDigit(d[i])
    requires Delimits(t)
    ensures DigitRun(d + t) == |d|
  {
    if d == [] {
      assert d + t == t;
    } else {
      assert (d + t)[1..] == d[1..] + t;
      DigitRunStops(d[1..], t);
    }
  }

  lemma NaturalRoundTrip(n: nat, t: bytes)
    requires Delimits(t)
    ensures var d, k := Decimal(n) + t, |Decimal(n)|;
      && DigitRun(d) == k > 0 && d[..k] == Decimal(n) && d[k..] == t && IsDigit(d[0]) && d[0] == Decimal(n)[0]
      && (k > 1 ==> d[0] != 48)
  {
    NoLeadingZero(n);
    DecimalDigits(n);
    DigitRunStops(Decimal(n), t);
  }

  lemma IntegerRoundTrip(i: JsonInt, t: bytes)
    requires Delimits(t)
    ensures ParseInteger(IntText(i) + t) == Parsed(Integer(i), t)
    ensures IntText(i) != [] && (IntText(i)[0] == MINUS || IsDigit(IntText(i)[0]))
  {
    var m := if i < 0 then -i else i;
    NaturalRoundTrip(m, t);
    DecimalDigits(m);
    if i < 0 {
      Regroup([MINUS], Decimal(m), t);
      DropHead(MINUS, Decimal(m) + t);
    }
  }

  // What follows an item: the next separator or the closing bracket.
  function ItemsText(v: Value, i: nat, t: bytes): bytes
    requires v.Array? && i <= |v.items|
  {
    ItemsFrom(v, i) + ([CLOSE_BRACKET] + t)
  }

  function MembersText(v: Value, keys: seq<string>, i: nat, t: bytes): bytes
    requires Lists(v, keys) && i <= |keys|
  {
    MembersFrom(v, keys, i) + ([CLOSE_BRACE] + t)
  }

  lemma ItemsTextUnfold(v: Value, i: nat, t: bytes)
    requires v.Array? && i < |v.items|
    ensures ItemsText(v, i, t) == Separator(i) + (Canonical(v.items[i]) + ItemsText(v, i + 1, t))
  {
    var a, b, c := Separator(i), Canonical(v.items[i]), ItemsFrom(v, i + 1);
    Regroup(a + b, c, [CLOSE_BRACKET] + t);
    Regroup(a, b, ItemsText(v, i + 1, t));
  }

  lemma MembersTextUnfold(v: Value, keys: seq<string>, i: nat, t: bytes)
    requires Lists(v, keys) && i < |keys|
    ensures MembersText(v, keys, i, t) ==
      Separator(i) + (Quoted(keys[i]) + ([COLON] + (Canonical(v.members[keys[i]]) + MembersText(v, keys, i + 1, t))))
  {
    var a, q, b, c := Separator(i), Quoted(keys[i]), Canonical(v.members[keys[i]]), MembersFrom(v, keys, i + 1);
    var rest := MembersText(v, keys, i + 1, t);
    Regroup(a + (q + [COLON] + b), c, [CLOSE_BRACE] + t);
    Regroup(a, q + [COLON] + b, rest);
    Regroup(q + [COLON], b, rest);
    Regroup(q, [COLON], b + rest);
  }

  // The first byte of a value tells the kinds apart; none of them closes or separates anything.
  lemma CanonicalStart(v: Value)
    requires FloatFree(v)
    ensures Canonical(v) != []
    ensures Canonical(v)[0] != CLOSE_BRACKET && !IsSpace(Canonical(v)[0])
  {
    if v.Integer? { IntegerRoundTrip(v.i, []); }
  }

  ghost function Restricted(v: Value, keys: seq<string>, i: nat): map<string, Value>
    requires Lists(v, keys) && i <= |keys|
  {
    map k | k in keys[i..] :: v.members[k]
  }

  // One step of the reader, by the first byte.
  lemma ReadNumber(s: bytes)
    requires s != [] && (s[0] == MINUS || IsDigit(s[0]))
    ensures ParseValue(s) == ParseInteger(s)
  {
  }

  lemma ReadString(s: bytes, text: string, t: bytes)
    requires s != [] && s[0] == QUOTE && ParseString(s) == Parsed(text, t)
    ensures ParseValue(s) == Parsed(Str(text), t)
  {
  }

  lemma ReadArray(s: bytes, items: seq<Value>, t: bytes)
    requires s != [] && s[0] == OPEN_BRACKET && ParseItems(s[1..], true) == Parsed(items, t)
    ensures ParseValue(s) == Parsed(Array(items), t)
  {
  }

  lemma ReadObject(s: bytes, members: map<string, Value>, t: bytes)
    requires s != [] && s[0] == OPEN_BRACE && ParseMembers(s[1..], true) == Parsed(members, t)
    ensures ParseValue(s) == Parsed(Object(members), t)
  {
  }

  lemma ReadItem(body: bytes, first: bool, item: Value, rest: bytes, more: seq<Value>, t: bytes)
    requires body != [] && body[0] != CLOSE_BRACKET && !IsSpace(body[0])
    requires ParseValue(body) == Parsed(item, rest) && ParseItems(rest, false) == Parsed(more, t)
    ensures ParseItems(Separator(if first then 0 else 1) + body, first) == Parsed([item] + more, t)
  {
    var s := Separator(if first then 0 else 1) + body;
    assert (if first then s else s[1..]) == body;
  }

  lemma ReadMember(body: bytes, first: bool, k: string, afterKey: bytes, item: Value, rest: bytes,
                   more: map<string, Value>, t: bytes)
    requires body != [] && body[0] == QUOTE && ParseString(body) == Parsed(k, [COLON] + afterKey)
    requires ParseValue(afterKey) == Parsed(item, rest) && ParseMembers(rest, false) == Parsed(more, t)
    ensures ParseMembers(Separator(if first then 0 else 1) + body, first) == Parsed(map[k := item] + more, t)
  {
    var s := Separator(if first then 0 else 1) + body;
    assert (if first then s else s[1..]) == body;
    assert ([COLON] + afterKey)[1..] == afterKey;
    assert ParseMember(body) == Parsed((k, item), rest);
  }

  // Whatever follows a value, as long as it does not continue a number, reading the printed value
  // gives the value back and stops exactly where it ends.
  lemma {:induction false} ValueRoundTrip(v: Value, t: bytes)
    requires FloatFree(v) && Delimits(t)
    ensures ParseValue(Canonical(v) + t) == Parsed(v, t)
    decreases v, 1, 0
  {
    match v
    case Null => LiteralRoundTrip(v, t);
    case Bool(_) => LiteralRoundTrip(v, t);
    case Integer(i) =>
      IntegerRoundTrip(i, t);
      ReadNumber(IntText(i) + t);
    case Str(text) =>
      QuotedRoundTrip(text, t);
      ReadString(Quoted(text) + t, text, t);
    case Array(items) =>
      ItemsRoundTrip(v, 0, t);
      assert items[0..] == items;
      Regroup([OPEN_BRACKET] + ItemsFrom(v, 0), [CLOSE_BRACKET], t);
      Regroup([OPEN_BRACKET], ItemsFrom(v, 0), [CLOSE_BRACKET] + t);
      DropHead(OPEN_BRACKET, ItemsText(v, 0, t));
      ReadArray([OPEN_BRACKET] + ItemsText(v, 0, t), items, t);
    case Object(members) =>
      var keys := SortedKeys(members.Keys);
      MembersRoundTrip(v, keys, 0, t);
      assert Restricted(v, keys, 0) == members;
      Regroup([OPEN_BRACE] + MembersFrom(v, keys, 0), [CLOSE_BRACE], t);
      Regroup([OPEN_BRACE], MembersFrom(v, keys, 0), [CLOSE_BRACE] + t);
      DropHead(OPEN_BRACE, MembersText(v, keys, 0, t));
      ReadObject([OPEN_BRACE] + MembersText(v, keys, 0, t), members, t);
  }

  lemma DropHead(b: byte, s: bytes)
    ensures ([b] + s)[0] == b && ([b] + s)[1..] == s
  {
  }

  lemma LiteralRoundTrip(v: Value, t: bytes)
    requires v.Null? || v.Bool?
    ensures ParseValue(Canonical(v) + t) == Parsed(v, t)
  {
    var c := Canonical(v);
    var s := c + t;
    assert c <= s && s[0] == c[0] && s[|c|..] == t;
    assert NULL_TEXT <= s ==> s[0] == NULL_TEXT[0];
    assert TRUE_TEXT <= s ==> s[0] == TRUE_TEXT[0];
  }

  lemma ItemsEnd(v: Value, t: bytes)
    requires v.Array?
    ensures ParseItems(ItemsText(v, |v.items|, t), |v.items| == 0) == Parsed(v.items[|v.items|..], t)
  {
    assert v.items[|v.items|..] == [];
    assert ItemsText(v, |v.items|, t) == [CLOSE_BRACKET] + t;
    DropHead(CLOSE_BRACKET, t);
  }

  lemma {:induction false} ItemsRoundTrip(v: Value, i: nat, t: bytes)
    requires v.Array? && FloatFree(v) && i <= |v.items|
    ensures ParseItems(ItemsText(v, i, t), i == 0) == Parsed(v.items[i..], t)
    decreases v, 0, |v.items| - i
  {
    if i == |v.items| {
      ItemsEnd(v, t);
    } else {
      var item, rest := v.items[i], ItemsText(v, i + 1, t);
      assert FloatFree(item);
      ItemsDelimit(v, i + 1, t);
      ValueRoundTrip(item, rest);
      ItemsRoundTrip(v, i + 1, t);
      hide *;
      ItemsStepRead(v, i, t);
    }
  }

  lemma ItemsStepRead(v: Value, i: nat, t: bytes)
    requires v.Array? && i < |v.items| && FloatFree(v.items[i])
    requires var rest := ItemsText(v, i + 1, t);
      && ParseValue(Canonical(v.items[i]) + rest) == Parsed(v.items[i], rest)
      && ParseItems(rest, false) == Parsed(v.items[i + 1..], t)
    ensures ParseItems(ItemsText(v, i, t), i == 0) == Parsed(v.items[i..], t)
  {
    hide *;
    var item, rest := v.items[i], ItemsText(v, i + 1, t);
    CanonicalStart(item);
    StartsAsFirst(Canonical(item), rest);
    SeparatorIs(i);
    assert v.items[i..] == [item] + v.items[i + 1..];
    ItemsTextUnfold(v, i, t);
    ReadItem(Canonical(item) + rest, i == 0, item, rest, v.items[i + 1..], t);
  }

  lemma SeparatorIs(i: nat)
    ensures Separator(i) == Separator(if i == 0 then 0 else 1)
  {
  }

  lemma StartsAsFirst(a: bytes, b: bytes)
    requires a != []
    ensures a + b != [] && (a + b)[0] == a[0]
  {
  }

  lemma ItemsDelimit(v: Value, i: nat, t: bytes)
    requires v.Array? && 0 < i <= |v.items|
    ensures Delimits(ItemsText(v, i, t))
  {
    if i < |v.items| { ItemsTextUnfold(v, i, t); }
  }

  lemma MembersDelimit(v: Value, keys: seq<string>, i: nat, t: bytes)
    requires Lists(v, keys) && 0 < i <= |keys|
    ensures Delimits(MembersText(v, keys, i, t))
  {
    if i < |keys| { MembersTextUnfold(v, keys, i, t); }
  }

  lemma MembersEnd(v: Value, keys: seq<string>, t: bytes)
    requires Lists(v, keys)
    ensures ParseMembers(MembersText(v, keys, |keys|, t), |keys| == 0) == Parsed(Restricted(v, keys, |keys|), t)
  {
    assert Restricted(v, keys, |keys|) == map[];
    assert MembersText(v, keys, |keys|, t) == [CLOSE_BRACE] + t;
    DropHead(CLOSE_BRACE, t);
  }

  lemma {:induction false} MembersRoundTrip(v: Value, keys: seq<string>, i: nat, t: bytes)
    requires Lists(v, keys) && FloatFree(v) && i <= |keys|
    ensures ParseMembers(MembersText(v, keys, i, t), i == 0) == Parsed(Restricted(v, keys, i), t)
    decreases v, 0, |keys| - i
  {
    hide Restricted;
    hide ParseMembers;
    hide ParseValue;
    hide MembersText;
    hide Canonical;
    hide Delimits;
    if i == |keys| {
      MembersEnd(v, keys, t);
    } else {
      assert keys[i] in v.members && FloatFree(v.members[keys[i]]);
      MembersDelimit(v, keys, i + 1, t);
      ValueRoundTrip(v.members[keys[i]], MembersText(v, keys, i + 1, t));
      MembersRoundTrip(v, keys, i + 1, t);
      MembersStepRead(v, keys, i, t);
    }
  }

  lemma MembersStepRead(v: Value, keys: seq<string>, i: nat, t: bytes)
    requires v.Object? && Lists(v, keys) && i < |keys| && keys[i] in v.members
    requires var rest := MembersText(v, keys, i + 1, t);
      && ParseValue(Canonical(v.members[keys[i]]) + rest) == Parsed(v.members[keys[i]], rest)
      && ParseMembers(rest, false) == Parsed(Restricted(v, keys, i + 1), t)
    ensures ParseMembers(MembersText(v, keys, i, t), i == 0) == Parsed(Restricted(v, keys, i), t)
  {
    hide *;
    var k, rest := keys[i], MembersText(v, keys, i + 1, t);
    var afterKey := Canonical(v.members[k]) + rest;
    var body := Quoted(k) + ([COLON] + afterKey);
    SeparatorIs(i);
    QuotedRoundTrip(k, [COLON] + afterKey);
    QuotedStart(k, [COLON] + afterKey);
    MembersTextUnfold(v, keys, i, t);
    ReadMember(body, i == 0, k, afterKey, v.members[k], rest, Restricted(v, keys, i + 1), t);
    RestrictedStep(v, keys, i);
  }

  lemma QuotedStart(text: string, t: bytes)
    ensures Quoted(text) + t != [] && (Quoted(text) + t)[0] == QUOTE
  {
    hide Escaped;
  }

  lemma RestrictedStep(v: Value, keys: seq<string>, i: nat)
    requires Lists(v, keys) && i < |keys|
    ensures Restricted(v, keys, i) == map[keys[i] := v.members[keys[i]]] + Restricted(v, keys, i + 1)
  {
    assert keys[i..] == [keys[i]] + keys[i + 1..];
  }

  // Two values with the same canonical bytes are the same data: member order is not part of a value,
  // and no two strings, numbers or nestings are confused. A signature or a reference over the bytes
  // therefore commits to the value.
  lemma CanonicalInjective(v: Value, w: Value)
    requires FloatFree(v) && FloatFree(w)
    requires Canonical(v) == Canonical(w)
    ensures v == w
  {
    ValueRoundTrip(v, []);
    ValueRoundTrip(w, []);
    assert Canonical(v) + [] == Canonical(v) && Canonical(w) + [] == Canonical(w);
  }
}
