/**
 Messages that do not come in canonical form. A receiver limits the bytes it reads (wire.py:50-52); what it
 read may print longer, as the printer escapes what a sender may leave as it is. Never more than six times
 longer, which a text of DEL characters comes close to.
 */
module Spelling {
  import opened Json
  import opened Messages
  import opened Printer
  import opened Reader
  import opened Text
  import opened Wrappers

  // ---- Strings and numbers

  lemma EscapeCharLength(c: char)
    ensures |EscapeChar(c)| <= 12 && (c as int < 0x10000 ==> |EscapeChar(c)| <= 6)
  {
    var units := Utf16(c);
    UnitsLength(units);
    hide EscapedUnits;
    assert |units| == if c as int < 0x10000 then 1 else 2;
  }

  lemma {:induction false} UnitsLength(units: seq<codeunit>)
    ensures |EscapedUnits(units)| == 6 * |units|
  {
    if units != [] { UnitsLength(units[1..]); }
  }

  lemma CharSixfold(s: bytes)
    requires s != [] && ParseChar(s).Parsed?
    ensures |EscapeChar(ParseChar(s).value)| <= 6 * (|s| - |ParseChar(s).rest|)
  {
    hide EscapeChar;
    EscapeCharLength(ParseChar(s).value);
    hide ParseHex4;
  }

  lemma {:induction false} CharsSixfold(s: bytes)
    requires ParseChars(s).Parsed?
    ensures |Escaped(ParseChars(s).value)| + 6 <= 6 * (|s| - |ParseChars(s).rest|)
    decreases |s|
  {
    hide EscapeChar;
    hide ParseChar;
    if s[0] != QUOTE {
      CharSixfold(s);
      CharsSixfold(ParseChar(s).rest);
    }
  }

  lemma StringSixfold(s: bytes)
    requires ParseString(s).Parsed?
    ensures |Quoted(ParseString(s).value)| + 10 <= 6 * (|s| - |ParseString(s).rest|)
  {
    hide Escaped;
    hide ParseChars;
    CharsSixfold(s[1..]);
  }

  lemma {:induction false} DigitsValueBound(s: bytes)
    requires forall i | 0 <= i < |s| :: IsDigit(s[i])
    ensures DigitsValue(s) < Ten(|s|)
  {
    if s != [] {
      DigitsValueBound(s[..|s| - 1]);
    }
  }

  lemma IntegerNotLonger(s: bytes)
    requires ParseInteger(s).Parsed?
    ensures |Canonical(ParseInteger(s).value)| <= |s| - |ParseInteger(s).rest|
  {
    var d := if s[0] == MINUS then s[1..] else s;
    var n := DigitRun(d);
    DigitRunIsDigits(d);
    DigitsValueBound(d[..n]);
    DecimalLength(DigitsValue(d[..n]), n);
    hide Decimal;
    hide DigitsValue;
    hide DigitRun;
  }

  // ---- One more member

  lemma {:induction false} SizesConcat(v: Value, a: seq<string>, b: seq<string>)
    requires Lists(v, a) && Lists(v, b)
    ensures Lists(v, a + b) && MemberSizes(v, a + b) == MemberSizes(v, a) + MemberSizes(v, b)
  {
    hide MemberSize;
    if a == [] {
      assert a + b == b;
    } else {
      assert (a + b)[1..] == a[1..] + b;
      SizesConcat(v, a[1..], b);
    }
  }

  lemma {:induction false} SizesAgree(v: Value, w: Value, keys: seq<string>)
    requires Lists(v, keys) && Lists(w, keys) && forall k | k in keys :: v.members[k] == w.members[k]
    ensures MemberSizes(v, keys) == MemberSizes(w, keys)
  {
    if keys != [] {
      forall k | k in keys[1..] ensures v.members[k] == w.members[k] {
        assert k in keys;
      }
      SizesAgree(v, w, keys[1..]);
    }
  }

  // All members of an object, a comma after each.
  function AllSizes(v: Value): nat
    requires v.Object?
  {
    var keys := SortedKeys(v.members.Keys);
    assert forall i | 0 <= i < |keys| :: keys[i] in keys;
    MemberSizes(v, keys) + |keys|
  }

  lemma AllSizesLength(v: Value)
    requires v.Object?
    ensures |Canonical(v)| <= AllSizes(v) + 2
  {
    hide Canonical;
    hide MemberSizes;
    var keys := SortedKeys(v.members.Keys);
    if keys == [] {
      assert |v.members.Keys| == 0;
      EmptyObject(v);
    } else {
      ObjectLength(v, keys);
    }
  }

  lemma EmptyObject(v: Value)
    requires v.Object? && v.members.Keys == {}
    ensures |Canonical(v)| == 2
  {
    NoKeys();
  }

  lemma NoKeys()
    ensures SortedKeys({}) == []
  {
    var none: set<string> := {};
    assert |SortedKeys(none)| == 0;
  }

  lemma WithoutOne(keys: seq<string>, ks: set<string>, i: nat)
    requires Increasing(keys) && i < |keys| && forall k :: k in keys <==> k in ks
    ensures var others := keys[..i] + keys[i + 1..];
      Increasing(others) && forall k :: k in others <==> k in ks - {keys[i]}
  {
    hide ByteLess;
    IncreasingDistinct(keys);
    var others := keys[..i] + keys[i + 1..];
    forall k ensures k in others <==> k in ks - {keys[i]} {
      if k in ks - {keys[i]} {
        var j :| 0 <= j < |keys| && keys[j] == k;
        assert others[if j < i then j else j - 1] == k;
      }
    }
  }

  // A sorted listing without one of its keys is the sorted listing of the others.
  lemma SortedWithout(ks: set<string>, i: nat)
    requires i < |SortedKeys(ks)|
    ensures var keys := SortedKeys(ks); SortedKeys(ks - {keys[i]}) == keys[..i] + keys[i + 1..]
  {
    hide *;
    var keys := SortedKeys(ks);
    assert keys[i] in keys;
    WithoutOne(keys, ks, i);
    var others := keys[..i] + keys[i + 1..];
    assert |SortedKeys(ks - {keys[i]})| == |ks| - 1;
    IncreasingUnique(others, SortedKeys(ks - {keys[i]}));
  }

  lemma OneMoreMember(k: string, x: Value, more: map<string, Value>)
    ensures AllSizes(Object(map[k := x] + more)) <= AllSizes(Object(more)) + |Quoted(k)| + 2 + |Canonical(x)|
  {
    hide AllSizes;
    hide Canonical;
    hide Quoted;
    var v, w := Object(map[k := x] + more), Object(more);
    if k in more {
      assert map[k := x] + more == more;
    } else {
      assert v.members.Keys - {k} == more.Keys && v.members[k] == x;
      NewMember(v, w, k);
    }
  }

  lemma NewMember(v: Value, w: Value, k: string)
    requires v.Object? && w.Object? && k in v.members && v.members.Keys - {k} == w.members.Keys
    requires forall l | l in w.members :: v.members[l] == w.members[l]
    ensures AllSizes(v) == AllSizes(w) + |Quoted(k)| + 2 + |Canonical(v.members[k])|
  {
    hide Canonical;
    hide Quoted;
    hide SortedKeys;
    hide Increasing;
    hide MemberSizes;
    var keys := SortedKeys(v.members.Keys);
    assert k in keys;
    var i :| 0 <= i < |keys| && keys[i] == k;
    SortedWithout(v.members.Keys, i);
    InsertedSize(v, w, keys, i);
  }

  lemma InsertedSize(v: Value, w: Value, keys: seq<string>, i: nat)
    requires v.Object? && w.Object? && i < |keys| && Lists(v, keys) && Lists(w, keys[..i] + keys[i + 1..])
    requires forall k | k in w.members :: k in v.members && v.members[k] == w.members[k]
    ensures MemberSizes(v, keys) == MemberSizes(w, keys[..i] + keys[i + 1..]) + MemberSize(v, keys[i])
  {
    hide MemberSize;
    var a, b := keys[..i], keys[i + 1..];
    assert keys == a + ([keys[i]] + b);
    SizesConcat(v, [keys[i]], b);
    SizesConcat(v, a, [keys[i]] + b);
    SizesConcat(v, a, b);
    assert [keys[i]][1..] == [];
    assert MemberSizes(v, [keys[i]]) == MemberSize(v, keys[i]);
    SizesAgree(v, w, a + b);
  }

  // ---- Values

  // What is read prints at most six times as long as it came.
  lemma {:induction false} ValueSixfold(s: bytes)
    requires ParseValue(s).Parsed?
    ensures |Canonical(ParseValue(s).value)| <= 6 * (|s| - |ParseValue(s).rest|)
    decreases |s|, 0
  {
    var t := SkipSpace(s);
    if NULL_TEXT <= t || TRUE_TEXT <= t || FALSE_TEXT <= t {
      LiteralNotLonger(s);
    } else if t[0] == QUOTE {
      StringSixfold(t);
      hide ParseString;
      hide Quoted;
    } else if t[0] == OPEN_BRACKET {
      ItemsSixfold(t[1..], true);
      ArrayLength(ParseItems(t[1..], true).value);
      hide ParseItems;
      hide ItemsFrom;
    } else if t[0] == OPEN_BRACE {
      MembersSixfold(t[1..], true);
      AllSizesLength(Object(ParseMembers(t[1..], true).value));
      hide ParseMembers;
    } else {
      IntegerNotLonger(t);
      hide ParseInteger;
    }
  }

  lemma LiteralNotLonger(s: bytes)
    requires ParseValue(s).Parsed?
    requires var t := SkipSpace(s); NULL_TEXT <= t || TRUE_TEXT <= t || FALSE_TEXT <= t
    ensures |Canonical(ParseValue(s).value)| <= |s| - |ParseValue(s).rest|
  {
    hide SkipSpace;
  }

  lemma {:induction false} ItemsSixfold(s: bytes, first: bool)
    requires ParseItems(s, first).Parsed?
    ensures var r := ParseItems(s, first);
      ItemsLength(r.value) + |r.value| + (if first then 1 else 2) <= 6 * (|s| - |r.rest|)
    decreases |s|, 1
  {
    var t := SkipSpace(s);
    if t[0] != CLOSE_BRACKET {
      var from := if first then t else t[1..];
      var item := ParseValue(from);
      ValueSixfold(from);
      ItemsSixfold(item.rest, false);
      var more := ParseItems(item.rest, false);
      hide ParseValue;
      hide Canonical;
      assert ([item.value] + more.value)[1..] == more.value;
    }
  }

  lemma {:induction false} MembersSixfold(s: bytes, first: bool)
    requires ParseMembers(s, first).Parsed?
    ensures var r := ParseMembers(s, first); AllSizes(Object(r.value)) + 2 <= 6 * (|s| - |r.rest|)
    decreases |s|, 2
  {
    var t := SkipSpace(s);
    if t[0] == CLOSE_BRACE {
      NoMembers();
    } else {
      var from := if first then t else t[1..];
      var member := ParseMember(from);
      MemberSixfold(from);
      MembersSixfold(member.rest, false);
      var more := ParseMembers(member.rest, false);
      hide AllSizes;
      hide ParseMember;
      OneMoreMember(member.value.0, member.value.1, more.value);
    }
  }

  lemma NoMembers()
    ensures AllSizes(Object(map[])) == 0
  {
    var v := Object(map[]);
    NoKeys();
    assert v.members.Keys == {};
  }

  lemma {:induction false} MemberSixfold(s: bytes)
    requires ParseMember(s).Parsed?
    ensures var r := ParseMember(s); |Quoted(r.value.0)| + 2 + |Canonical(r.value.1)| <= 6 * (|s| - |r.rest|)
    decreases |s|, 1
  {
    var t := SkipSpace(s);
    var key := ParseString(t);
    StringSixfold(t);
    var u := SkipSpace(key.rest);
    ValueSixfold(u[1..]);
    hide ParseValue;
    hide ParseString;
  }

  // What comes in a payload, however it is written, has a canonical text of at most six times its bytes.
  lemma PrintsAtMostSixfold(payload: bytes)
    ensures Decode(payload).Some? ==> |Canonical(Decode(payload).value)| <= 6 * |payload|
  {
    hide ParseValue;
    hide Canonical;
    if ParseValue(payload).Parsed? { ValueSixfold(payload); }
  }

  // ---- Texts that are shorter than the canonical one

  // Characters that may stand in a string as they are.
  predicate Literal(s: string)
  {
    forall c | c in s :: ' ' <= c && c != '\"' && c != '\\'
  }

  function RawQuoted(s: string): bytes { [QUOTE] + Utf8(s) + [QUOTE] }

  lemma RawCharRoundTrip(c: char, t: bytes)
    requires ' ' <= c && c != '\"' && c != '\\'
    ensures EncodeChar(c)[0] != QUOTE && ParseChar(EncodeChar(c) + t) == Parsed(c, t)
  {
    var e := EncodeChar(c);
    DecodeEncodeChar(c, t);
    assert (e + t)[|e|..] == t && (e + t)[0] == e[0];
    hide DecodeChar;
    hide ParseUnicodeEscape;
  }

  lemma {:induction false} RawCharsRoundTrip(s: string, t: bytes)
    requires Literal(s)
    ensures ParseChars(Utf8(s) + ([QUOTE] + t)) == Parsed(s, t)
  {
    if s == [] {
      assert Utf8(s) + ([QUOTE] + t) == [QUOTE] + t;
    } else {
      var tail := Utf8(s[1..]) + ([QUOTE] + t);
      assert s[0] in s && forall c | c in s[1..] :: c in s;
      RawCharsRoundTrip(s[1..], t);
      hide ParseChar;
      hide EncodeChar;
      RawCharRoundTrip(s[0], tail);
      StartsAsFirst(EncodeChar(s[0]), tail);
      Regroup(EncodeChar(s[0]), Utf8(s[1..]), [QUOTE] + t);
      assert Utf8(s) + ([QUOTE] + t) == EncodeChar(s[0]) + tail;
      assert s == [s[0]] + s[1..];
    }
  }

  // However it is followed, the text is read as the value.
  ghost predicate Spells(text: bytes, v: Value)
  {
    forall t | Delimits(t) :: ParseValue(text + t) == Parsed(v, t)
  }

  lemma SpelledIsRead(text: bytes, v: Value)
    requires Spells(text, v)
    ensures Decode(text) == Some(v)
  {
    hide ParseValue;
    assert text + [] == text;
    assert Delimits([]);
  }

  lemma RawSpells(s: string)
    requires Literal(s)
    ensures Spells(RawQuoted(s), Str(s))
  {
    hide Utf8;
    hide ParseChars;
    forall t | Delimits(t) ensures ParseValue(RawQuoted(s) + t) == Parsed(Str(s), t) {
      RawCharsRoundTrip(s, t);
      assert RawQuoted(s) + t == [QUOTE] + (Utf8(s) + ([QUOTE] + t));
      ReadString(RawQuoted(s) + t, s, t);
    }
  }

  // An object with its members in this order, the first one written in another way.
  function Respelt(v: Value, keys: seq<string>, first: bytes): bytes
    requires Lists(v, keys) && keys != []
  {
    [OPEN_BRACE] + (Quoted(keys[0]) + ([COLON] + (first + MembersText(v, keys, 1, []))))
  }

  lemma RespeltSpells(v: Value, keys: seq<string>, first: bytes)
    requires Lists(v, keys) && keys != [] && FloatFree(v) && forall k :: k in keys <==> k in v.members
    requires Spells(first, v.members[keys[0]])
    ensures Spells(Respelt(v, keys, first), v)
  {
    hide ParseValue;
    hide Quoted;
    hide MembersText;
    forall t | Delimits(t) ensures ParseValue(Respelt(v, keys, first) + t) == Parsed(v, t) {
      RespeltReads(v, keys, first, t);
    }
  }

  lemma RespeltReads(v: Value, keys: seq<string>, first: bytes, t: bytes)
    requires Lists(v, keys) && keys != [] && FloatFree(v) && forall k :: k in keys <==> k in v.members
    requires Spells(first, v.members[keys[0]]) && Delimits(t)
    ensures ParseValue(Respelt(v, keys, first) + t) == Parsed(v, t)
  {
    var k, rest := keys[0], MembersText(v, keys, 1, t);
    var afterKey := first + rest;
    var body := Quoted(k) + ([COLON] + afterKey);
    MembersDelimit(v, keys, 1, t);
    MembersRoundTrip(v, keys, 1, t);
    QuotedRoundTrip(k, [COLON] + afterKey);
    RestrictedStep(v, keys, 0);
    AllRestricted(v, keys);
    RespeltThen(v, keys, first, t);
    assert body[0] == QUOTE;
    assert ParseValue(afterKey) == Parsed(v.members[k], rest);
    hide *;
    ReadMember(body, true, k, afterKey, v.members[k], rest, Restricted(v, keys, 1), t);
    assert Separator(0) + body == body;
    DropHead(OPEN_BRACE, body);
    ReadObject([OPEN_BRACE] + body, v.members, t);
  }

  lemma AllRestricted(v: Value, keys: seq<string>)
    requires Lists(v, keys) && forall k :: k in keys <==> k in v.members
    ensures Restricted(v, keys, 0) == v.members
  {
    assert keys[0..] == keys;
  }

  lemma RespeltThen(v: Value, keys: seq<string>, first: bytes, t: bytes)
    requires Lists(v, keys) && keys != []
    ensures Respelt(v, keys, first) + t ==
      [OPEN_BRACE] + (Quoted(keys[0]) + ([COLON] + (first + MembersText(v, keys, 1, t))))
  {
    var m, q := MembersFrom(v, keys, 1), Quoted(keys[0]);
    hide MembersFrom;
    hide Quoted;
    assert m + ([CLOSE_BRACE] + []) + t == m + ([CLOSE_BRACE] + t);
    assert Respelt(v, keys, first) + t == [OPEN_BRACE] + (q + ([COLON] + (first + (m + ([CLOSE_BRACE] + []) + t))));
  }

  lemma RespeltLength(v: Value, keys: seq<string>, first: bytes)
    requires Lists(v, keys) && keys != []
    ensures Lists(v, keys[1..])
    ensures |Respelt(v, keys, first)| == |Quoted(keys[0])| + 1 + |first| + MemberSizes(v, keys[1..]) + |keys| + 1
  {
    hide MemberSizes;
    hide Quoted;
    hide MembersFrom;
    MembersFromSizes(v, keys, 1);
  }

  ghost predicate Distinct(keys: seq<string>)
  {
    forall i, j | 0 <= i < j < |keys| :: keys[i] != keys[j]
  }

  lemma SortedIsDistinct(keys: seq<string>)
    requires Increasing(keys)
    ensures Distinct(keys)
  {
    hide Increasing;
    IncreasingDistinct(keys);
  }

  lemma WithoutOneDistinct(keys: seq<string>, i: nat)
    requires Distinct(keys) && i < |keys|
    ensures var others := keys[..i] + keys[i + 1..];
      Distinct(others) && forall k :: k in others <==> k in keys && k != keys[i]
  {
    var others := keys[..i] + keys[i + 1..];
    forall k ensures k in others <==> k in keys && k != keys[i] {
      if k in keys && k != keys[i] {
        var j :| 0 <= j < |keys| && keys[j] == k;
        assert others[if j < i then j else j - 1] == k;
      }
    }
  }

  lemma FirstIsIn(keys: seq<string>)
    ensures keys == [] || keys[0] in keys
  {
  }

  // The order of the members does not change their length.
  lemma {:induction false} SizesIgnoreOrder(v: Value, a: seq<string>, b: seq<string>)
    requires Lists(v, a) && Lists(v, b) && Distinct(a) && Distinct(b) && forall k :: k in a <==> k in b
    ensures MemberSizes(v, a) == MemberSizes(v, b) && |a| == |b|
  {
    if a == [] {
      FirstIsIn(b);
    } else {
      assert a[0] in b;
      var i :| 0 <= i < |b| && b[i] == a[0];
      var others := b[..i] + b[i + 1..];
      WithoutOneDistinct(b, i);
      WithoutOneDistinct(a, 0);
      assert a[..0] + a[1..] == a[1..];
      hide MemberSize;
      InsertedSize(v, v, b, i);
      SizesIgnoreOrder(v, a[1..], others);
    }
  }

  // Only the first member makes a difference.
  lemma RespeltSaves(v: Value, keys: seq<string>, first: bytes)
    requires v.Object? && Distinct(keys) && keys != [] && forall k :: k in keys <==> k in v.members
    ensures Lists(v, keys)
    ensures |Respelt(v, keys, first)| + |Canonical(v.members[keys[0]])| == |Canonical(v)| + |first|
  {
    var sorted := SortedKeys(v.members.Keys);
    assert keys[0] in v.members.Keys;
    AnyOrder(v, keys);
    ObjectLength(v, sorted);
    RespeltLength(v, keys, first);
    hide *;
    assert MemberSizes(v, keys) == MemberSize(v, keys[0]) + MemberSizes(v, keys[1..]) by {
      FirstSize(v, keys);
    }
    assert MemberSize(v, keys[0]) == |Quoted(keys[0])| + 1 + |Canonical(v.members[keys[0]])| by {
      MemberIs(v, keys[0]);
    }
  }

  lemma AnyOrder(v: Value, keys: seq<string>)
    requires v.Object? && Distinct(keys) && forall k :: k in keys <==> k in v.members
    ensures Lists(v, keys) && Lists(v, SortedKeys(v.members.Keys))
    ensures var sorted := SortedKeys(v.members.Keys);
      |keys| == |sorted| && MemberSizes(v, keys) == MemberSizes(v, sorted)
  {
    hide MemberSizes;
    hide SortedKeys;
    var sorted := SortedKeys(v.members.Keys);
    IncreasingDistinct(sorted);
    hide Increasing;
    SizesIgnoreOrder(v, keys, sorted);
  }

  lemma FirstSize(v: Value, keys: seq<string>)
    requires Lists(v, keys) && keys != []
    ensures Lists(v, keys[1..]) && MemberSizes(v, keys) == MemberSize(v, keys[0]) + MemberSizes(v, keys[1..])
  {
  }

  lemma MemberIs(v: Value, k: string)
    requires v.Object? && k in v.members
    ensures MemberSize(v, k) == |Quoted(k)| + 1 + |Canonical(v.members[k])|
  {
    hide Canonical;
    hide Quoted;
  }

  // ---- One character, many times

  lemma {:induction false} RepeatedLength(c: char, n: nat)
    ensures |Utf8(Repeated(c, n))| == |EncodeChar(c)| * n && |Escaped(Repeated(c, n))| == |EscapeChar(c)| * n
    ensures ' ' <= c && c != '\"' && c != '\\' ==> Literal(Repeated(c, n))
  {
    hide EncodeChar;
    hide EscapeChar;
    if n > 0 {
      assert Repeated(c, n)[1..] == Repeated(c, n - 1);
      RepeatedLength(c, n - 1);
    }
  }

  lemma Widths()
    ensures |EncodeChar('a')| == 1 && |EscapeChar('a')| == 1
    ensures |EncodeChar('\U{7f}')| == 1 && |EscapeChar('\U{7f}')| == 6
    ensures |EncodeChar('\U{e9}')| == 2 && |EscapeChar('\U{e9}')| == 6
    ensures MAX_MSG_SIZE == 1_048_576
  {
    EscapeOne('\U{7f}');
    EscapeOne('\U{e9}');
  }

  lemma EscapeOne(c: char)
    requires '~' < c && c as int < 0x10000
    ensures |EscapeChar(c)| == 6
  {
    UnitsLength(Utf16(c));
  }

  // ---- What else the grammar allows

  // Blanks, tabs, line feeds and carriage returns, and nothing else, may stand between the parts of a text.
  lemma {:induction false} SpaceIsSkipped(space: bytes, s: bytes)
    requires s != []
    ensures SkipSpace(space + s) == s <==>
      s[0] !in {0x20, 0x09, 0x0A, 0x0D} && forall b | b in space :: b in {0x20, 0x09, 0x0A, 0x0D}
  {
    var all := space + s;
    if space == [] {
      assert all == s;
    } else {
      assert all[0] == space[0] && all[1..] == space[1..] + s;
      assert forall b :: b in space <==> b == space[0] || b in space[1..];
      if space[0] in {0x20, 0x09, 0x0A, 0x0D} {
        SpaceIsSkipped(space[1..], s);
      } else {
        assert space[0] in space && SkipSpace(all) == all && |all| != |s|;
      }
    }
  }

  // A hex digit may be a capital, and a slash may be escaped.
  lemma OtherEscapes(b: byte, s: bytes)
    ensures 0x41 <= b <= 0x46 ==> HexValue(b) == HexValue(b + 0x20)
    ensures HexValue(b).Some? <==> 0x30 <= b <= 0x39 || 0x41 <= b <= 0x46 || 0x61 <= b <= 0x66
    ensures ParseChar([0x5C, 0x2F] + s) == Parsed('/', s)
  {
    assert ([0x5C, 0x2F] + s)[2..] == s;
    hide ParseUnicodeEscape;
    hide DecodeChar;
  }
}
