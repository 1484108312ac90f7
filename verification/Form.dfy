/**
 Canonical form, told from the bytes alone (rust/mdp2p-core/src/canonical.rs:1-25): printable ASCII, no white space
 outside strings, the short escapes where there are any, `\u` escapes in the digits 0-9 and a-f and only for what
 cannot be written otherwise, names in increasing order and none twice. A value has exactly one text of this form, and
 it is the one the printer prints.
 */
module Form {
  import opened Json
  import opened Ordering
  import opened Printer
  import opened Reader
  import opened Text
  import opened Wrappers

  // ---- The form of a text, in the terms of the grammar

  function Code(c: char): int { c as int }

  ghost predicate LowerHex(b: byte) { Code('0') <= b <= Code('9') || Code('a') <= b <= Code('f') }

  // The letters of the short escapes other than those of the quote and the backslash.
  ghost predicate ShortEscape(b: byte) { b in {Code('b'), Code('f'), Code('n'), Code('r'), Code('t')} }

  // Characters with a way of their own to be written: as they are, or by a short escape.
  ghost predicate HasShortForm(c: char)
  {
    Code(' ') <= Code(c) <= Code('~') || Code(c) in {8, 9, 10, 12, 13}
  }

  // How one character is written at the start of `s`.
  ghost predicate CharForm(s: bytes)
  {
    && s != []
    && if s[0] != Code('\\') then Code(' ') <= s[0] <= Code('~') && s[0] != Code('\"')
       else
         && |s| >= 2
         && (s[1] in {Code('\"'), Code('\\')} || ShortEscape(s[1]) ||
             (s[1] == Code('u') && ParseChar(s).Parsed? && !HasShortForm(ParseChar(s).value) &&
              forall i | 2 <= i < |s| - |ParseChar(s).rest| && i !in {6, 7} :: LowerHex(s[i])))
  }

  // The characters up to the closing quote.
  ghost predicate CharsForm(s: bytes)
    decreases |s|
  {
    s != [] && (s[0] == Code('\"') || (CharForm(s) && ParseChar(s).Parsed? && CharsForm(ParseChar(s).rest)))
  }

  ghost predicate StringForm(s: bytes) { s != [] && s[0] == Code('\"') && CharsForm(s[1..]) }

  // No zero has a sign; the reader refuses leading zeros.
  ghost predicate NumberForm(s: bytes)
  {
    |s| >= 2 && s[0] == Code('-') ==> s[1] != Code('0')
  }

  ghost predicate ValueForm(s: bytes)
    decreases |s|, 0
  {
    && s != []
    && if s[0] == Code('\"') then StringForm(s)
       else if s[0] == Code('[') then ItemsForm(s[1..], true)
       else if s[0] == Code('{') then MembersForm(s[1..], true) && Increasing(NamesIn(s[1..], true))
       else if s[0] in {Code('n'), Code('t'), Code('f')} then true
       else (s[0] == Code('-') || Code('0') <= s[0] <= Code('9')) && NumberForm(s)
  }

  // Items with one comma between two, up to the closing bracket.
  ghost predicate ItemsForm(s: bytes, first: bool)
    decreases |s|, 1
  {
    && s != []
    && (s[0] == Code(']') ||
        ((first || s[0] == Code(',')) &&
         var item := if first then s else s[1..];
         ValueForm(item) && ParseValue(item).Parsed? && ItemsForm(ParseValue(item).rest, false)))
  }

  // A name, a colon and a value.
  ghost predicate MemberForm(s: bytes)
    decreases |s|, 1
  {
    && StringForm(s) && ParseString(s).Parsed?
    && var rest := ParseString(s).rest;
    && rest != [] && rest[0] == Code(':') && ValueForm(rest[1..])
  }

  // Members with one comma between two, up to the closing brace.
  ghost predicate MembersForm(s: bytes, first: bool)
    decreases |s|, 2
  {
    && s != []
    && (s[0] == Code('}') ||
        ((first || s[0] == Code(',')) &&
         var member := if first then s else s[1..];
         && MemberForm(member) && ParseMember(member).Parsed?
         && MembersForm(ParseMember(member).rest, false)))
  }

  // The names of the members, in the order they come.
  ghost function NamesIn(s: bytes, first: bool): seq<string>
    decreases |s|
  {
    if s == [] || s[0] == Code('}') then []
    else
      var member := if first then s else s[1..];
      if ParseMember(member).Rejected? then []
      else [ParseMember(member).value.0] + NamesIn(ParseMember(member).rest, false)
  }

  // The text of one value in canonical form, and nothing else.
  ghost predicate CanonicalForm(b: bytes)
  {
    ValueForm(b) && ParseValue(b).Parsed? && ParseValue(b).rest == []
  }

  // ---- Only one text of this form has a given value

  lemma HexFormBack(b: byte)
    requires LowerHex(b)
    ensures HexValue(b).Some? && HexValue(b).value < 16 && HexDigit(HexValue(b).value) == b
  {
  }

  lemma Hex4FormBack(s: bytes)
    requires |s| == 4 && forall i | 0 <= i < 4 :: LowerHex(s[i])
    ensures ParseHex4(s).Some? && Hex4(ParseHex4(s).value) == s
  {
    HexFormBack(s[0]);
    HexFormBack(s[1]);
    HexFormBack(s[2]);
    HexFormBack(s[3]);
    hide HexDigit;
    hide HexValue;
    var a, b, c, d := HexValue(s[0]).value, HexValue(s[1]).value, HexValue(s[2]).value, HexValue(s[3]).value;
    Digit16(a, b);
    Digit16(a * 16 + b, c);
    Digit16((a * 16 + b) * 16 + c, d);
  }

  lemma Digit16(n: nat, d: nat)
    requires d < 16
    ensures (n * 16 + d) / 16 == n && (n * 16 + d) % 16 == d
  {
  }

  lemma EscapeFormBack(s: bytes)
    requires |s| >= 2 && s[0] == BACKSLASH && s[1] == 117 && ParseUnicodeEscape(s).Parsed?
    requires forall i | 2 <= i < |s| - |ParseUnicodeEscape(s).rest| && i !in {6, 7} :: LowerHex(s[i])
    ensures s == EscapedUnits(Utf16(ParseUnicodeEscape(s).value)) + ParseUnicodeEscape(s).rest
  {
    EscapeShape(s);
    var first := s[2..6];
    forall i | 0 <= i < 4 ensures LowerHex(first[i]) { assert first[i] == s[i + 2]; }
    hide *;
    Hex4FormBack(first);
    if ParseUnicodeEscape(s).value as int < 0x10000 {
      OneEscapeBack(s, ParseHex4(first).value);
    } else {
      var second := s[8..12];
      forall i | 0 <= i < 4 ensures LowerHex(second[i]) { assert second[i] == s[i + 8]; }
      Hex4FormBack(second);
      TwoEscapesBack(s, ParseHex4(first).value, ParseHex4(second).value);
    }
  }

  // What a `\u` escape, or a pair of them, is read as.
  lemma EscapeShape(s: bytes)
    requires |s| >= 2 && s[0] == BACKSLASH && s[1] == 117 && ParseUnicodeEscape(s).Parsed?
    ensures var c, rest := ParseUnicodeEscape(s).value, ParseUnicodeEscape(s).rest;
      && |s| >= 6 && ParseHex4(s[2..6]).Some?
      && if c as int < 0x10000 then Utf16(c) == [ParseHex4(s[2..6]).value] && rest == s[6..]
         else
           && |s| >= 12 && s[6] == BACKSLASH && s[7] == 117 && ParseHex4(s[8..12]).Some? && rest == s[12..]
           && Utf16(c) == [ParseHex4(s[2..6]).value, ParseHex4(s[8..12]).value]
  {
    hide ParseHex4;
  }

  lemma OneEscapeBack(s: bytes, u: codeunit)
    requires |s| >= 6 && s[0] == BACKSLASH && s[1] == 117 && s[2..6] == Hex4(u)
    ensures s == EscapedUnits([u]) + s[6..]
  {
    hide Hex4;
    assert [u][1..] == [];
    assert EscapedUnits([u]) == [BACKSLASH, 117] + Hex4(u);
    assert s == [BACKSLASH, 117] + s[2..6] + s[6..];
  }

  lemma TwoEscapesBack(s: bytes, hi: codeunit, lo: codeunit)
    requires |s| >= 12 && s[0] == BACKSLASH && s[1] == 117 && s[2..6] == Hex4(hi)
    requires s[6] == BACKSLASH && s[7] == 117 && s[8..12] == Hex4(lo)
    ensures s == EscapedUnits([hi, lo]) + s[12..]
  {
    TwoUnits(hi, lo);
    hide Hex4;
    hide EscapedUnits;
    assert s == [BACKSLASH, 117] + s[2..6] + [BACKSLASH, 117] + s[8..12] + s[12..];
  }

  lemma TwoUnits(hi: codeunit, lo: codeunit)
    ensures EscapedUnits([hi, lo]) == [BACKSLASH, 117] + Hex4(hi) + [BACKSLASH, 117] + Hex4(lo)
  {
    assert [hi, lo][1..] == [lo] && [lo][1..] == [];
    assert EscapedUnits([lo]) == [BACKSLASH, 117] + Hex4(lo);
  }

  lemma CharFormBack(s: bytes)
    requires CharForm(s) && ParseChar(s).Parsed?
    ensures s == EscapeChar(ParseChar(s).value) + ParseChar(s).rest
  {
    var c, rest := ParseChar(s).value, ParseChar(s).rest;
    if s[0] != BACKSLASH {
      assert DecodeChar(s) == Some((s[0] as char, 1));
      assert s == [s[0]] + s[1..];
    } else if s[1] == 117 {
      EscapeFormBack(s);
      hide EscapedUnits;
      hide ParseUnicodeEscape;
      assert !(' ' <= c <= '~');
    } else {
      assert s == [s[0], s[1]] + s[2..];
    }
  }

  lemma {:induction false} CharsFormBack(s: bytes)
    requires CharsForm(s) && ParseChars(s).Parsed?
    ensures s == Escaped(ParseChars(s).value) + ([QUOTE] + ParseChars(s).rest)
    decreases |s|
  {
    var text, t := ParseChars(s).value, ParseChars(s).rest;
    if s[0] == QUOTE {
      assert s == [] + ([QUOTE] + s[1..]);
    } else {
      var rest := ParseChar(s).rest;
      CharFormBack(s);
      CharsFormBack(rest);
      hide ParseChar;
      hide EscapeChar;
      assert text[0] == ParseChar(s).value && text[1..] == ParseChars(rest).value;
      Regroup(EscapeChar(text[0]), Escaped(text[1..]), [QUOTE] + t);
    }
  }

  lemma StringFormBack(s: bytes)
    requires StringForm(s) && ParseString(s).Parsed?
    ensures s == Quoted(ParseString(s).value) + ParseString(s).rest
  {
    hide ParseChars;
    hide Escaped;
    CharsFormBack(s[1..]);
    var text, t := ParseString(s).value, ParseString(s).rest;
    assert s == [QUOTE] + s[1..];
    Regroup([QUOTE], Escaped(text), [QUOTE] + t);
    Regroup([QUOTE] + Escaped(text), [QUOTE], t);
  }

  lemma {:induction false} DigitsFormBack(d: bytes)
    requires d != [] && (forall i | 0 <= i < |d| :: IsDigit(d[i])) && (|d| > 1 ==> d[0] != 48)
    ensures Decimal(DigitsValue(d)) == d && (DigitsValue(d) == 0 ==> d == [48])
  {
    var init, last := d[..|d| - 1], d[|d| - 1];
    assert d == init + [last];
    if init == [] {
      assert DigitsValue(init) == 0 && d == [last];
    } else {
      assert init[0] == d[0];
      DigitsFormBack(init);
      assert DigitsValue(d) == DigitsValue(init) * 10 + (last as int - 48);
    }
  }

  lemma NumberFormBack(s: bytes)
    requires NumberForm(s) && ParseInteger(s).Parsed?
    ensures ParseInteger(s).value.Integer? && s == IntText(ParseInteger(s).value.i) + ParseInteger(s).rest
  {
    IntegerParts(s);
    var negative := s[0] == MINUS;
    var d := if negative then s[1..] else s;
    var n := DigitRun(d);
    DigitRunIsDigits(d);
    if negative { SignForbidsZero(s); }
    hide *;
    DigitsBack(s, d, n, negative);
  }

  lemma DigitsBack(s: bytes, d: bytes, n: nat, negative: bool)
    requires s != [] && d == (if negative then s[1..] else s) && 0 < n <= |d|
    requires (negative ==> s[0] == MINUS && d[0] != 48) && (n > 1 ==> d[0] != 48)
    requires forall i | 0 <= i < n :: IsDigit(d[i])
    ensures s == IntText(if negative then 0 - DigitsValue(d[..n]) as int else DigitsValue(d[..n]) as int) + d[n..]
  {
    hide *;
    var digits := d[..n];
    assert forall i | 0 <= i < n :: digits[i] == d[i];
    DigitsFormBack(digits);
    assert d == digits + d[n..];
    SignedBack(s, digits, d[n..], DigitsValue(digits), negative);
  }

  lemma IntegerParts(s: bytes)
    requires ParseInteger(s).Parsed?
    ensures s != [] && var d := if s[0] == MINUS then s[1..] else s; var n := DigitRun(d);
      && n > 0 && (n > 1 ==> d[0] != 48) && (forall i | 0 <= i < n :: IsDigit(d[i])) && ParseInteger(s).rest == d[n..]
      && ParseInteger(s).value ==
          Integer(if s[0] == MINUS then 0 - DigitsValue(d[..n]) as int else DigitsValue(d[..n]) as int)
  {
    DigitRunIsDigits(if s[0] == MINUS then s[1..] else s);
    hide DigitsValue;
  }

  lemma SignForbidsZero(s: bytes)
    requires NumberForm(s) && ParseInteger(s).Parsed? && s[0] == MINUS
    ensures |s| > 1 && s[1] != 48
  {
    hide DigitsValue;
  }

  lemma SignedBack(s: bytes, digits: bytes, rest: bytes, magnitude: nat, negative: bool)
    requires s != [] && (if negative then s[0] == MINUS && s[1..] == digits + rest else s == digits + rest)
    requires Decimal(magnitude) == digits && (negative ==> magnitude != 0)
    ensures s == IntText(if negative then 0 - magnitude else magnitude) + rest
  {
    hide Decimal;
    if negative { Regroup([MINUS], digits, rest); }
  }

  // Whatever is read from a text of this form, the text is what the printer prints of it.
  lemma {:induction false} ValueFormBack(s: bytes)
    requires ValueForm(s) && ParseValue(s).Parsed?
    ensures s == Canonical(ParseValue(s).value) + ParseValue(s).rest && FloatFree(ParseValue(s).value)
    decreases |s|, 1
  {
    assert SkipSpace(s) == s;
    if s[0] == QUOTE {
      StringFormBack(s);
      hide ParseString;
      hide Quoted;
    } else if s[0] == OPEN_BRACKET {
      ArrayFormBack(s);
    } else if s[0] == OPEN_BRACE {
      ObjectFormBack(s);
    } else if NULL_TEXT <= s || TRUE_TEXT <= s || FALSE_TEXT <= s {
      LiteralFormBack(s);
    } else {
      NumberFormBack(s);
      hide ParseInteger;
      hide IntText;
    }
  }

  lemma LiteralFormBack(s: bytes)
    requires NULL_TEXT <= s || TRUE_TEXT <= s || FALSE_TEXT <= s
    ensures ParseValue(s).Parsed?
    ensures s == Canonical(ParseValue(s).value) + ParseValue(s).rest && FloatFree(ParseValue(s).value)
  {
    assert SkipSpace(s) == s;
    assert NULL_TEXT <= s ==> s[0] == NULL_TEXT[0];
    assert TRUE_TEXT <= s ==> s[0] == TRUE_TEXT[0];
    assert FALSE_TEXT <= s ==> s[0] == FALSE_TEXT[0];
    assert s == s[..4] + s[4..];
    if FALSE_TEXT <= s { assert s == s[..5] + s[5..]; }
  }

  lemma AfterSeparator(s: bytes, i: nat)
    requires s != [] && (i > 0 ==> s[0] == COMMA)
    ensures s == Separator(i) + (if i == 0 then s else s[1..])
  {
  }

  lemma HeadAndTail<T>(xs: seq<T>, i: nat)
    requires i < |xs|
    ensures xs[i..] == [xs[i]] + xs[i + 1..] && xs[i..][0] == xs[i] && xs[i..][1..] == xs[i + 1..]
  {
  }

  lemma {:induction false} ArrayFormBack(s: bytes)
    requires s != [] && s[0] == OPEN_BRACKET && ItemsForm(s[1..], true) && ParseItems(s[1..], true).Parsed?
    ensures ParseValue(s) == Parsed(Array(ParseItems(s[1..], true).value), ParseItems(s[1..], true).rest)
    ensures s == Canonical(ParseValue(s).value) + ParseValue(s).rest && FloatFree(ParseValue(s).value)
    decreases |s|, 0
  {
    var items, t := ParseItems(s[1..], true).value, ParseItems(s[1..], true).rest;
    ReadArray(s, items, t);
    ItemsFormBack(s[1..], Array(items), 0);
    hide ParseItems;
    hide ParseValue;
    assert items[0..] == items && s == [OPEN_BRACKET] + s[1..];
    var body := ItemsFrom(Array(items), 0);
    Regroup([OPEN_BRACKET], body, [CLOSE_BRACKET] + t);
    Regroup([OPEN_BRACKET] + body, [CLOSE_BRACKET], t);
  }

  lemma {:induction false} ItemsFormBack(s: bytes, v: Value, i: nat)
    requires v.Array? && i <= |v.items| && ItemsForm(s, i == 0)
    requires ParseItems(s, i == 0).Parsed? && ParseItems(s, i == 0).value == v.items[i..]
    ensures s == ItemsText(v, i, ParseItems(s, i == 0).rest)
    ensures forall x | x in v.items[i..] :: FloatFree(x)
    decreases |s|, 2
  {
    assert SkipSpace(s) == s;
    if s[0] == CLOSE_BRACKET {
      assert i == |v.items| && s == [] + ([CLOSE_BRACKET] + s[1..]);
    } else {
      var body := if i == 0 then s else s[1..];
      var item, rest := ParseValue(body).value, ParseValue(body).rest;
      HeadAndTail(v.items, i);
      AfterSeparator(s, i);
      assert v.items[i] == item && ParseItems(s, i == 0).rest == ParseItems(rest, false).rest;
      ValueFormBack(body);
      ItemsFormBack(rest, v, i + 1);
      hide *;
      ItemsTextUnfold(v, i, ParseItems(rest, false).rest);
    }
  }

  lemma {:induction false} ObjectFormBack(s: bytes)
    requires s != [] && s[0] == OPEN_BRACE && MembersForm(s[1..], true) && Increasing(NamesIn(s[1..], true))
    requires ParseMembers(s[1..], true).Parsed?
    ensures ParseValue(s) == Parsed(Object(ParseMembers(s[1..], true).value), ParseMembers(s[1..], true).rest)
    ensures s == Canonical(ParseValue(s).value) + ParseValue(s).rest && FloatFree(ParseValue(s).value)
    decreases |s|, 0
  {
    var members, t := ParseMembers(s[1..], true).value, ParseMembers(s[1..], true).rest;
    var keys := NamesIn(s[1..], true);
    NamesAreKeys(s[1..], true);
    SameListing(keys, members.Keys);
    IncreasingDistinct(keys);
    hide *;
    ReadObject(s, members, t);
    MembersFormBack(s[1..], Object(members), keys, 0);
    ObjectTextBack(s, members, keys, t);
  }

  lemma ObjectTextBack(s: bytes, members: map<string, Value>, keys: seq<string>, t: bytes)
    requires keys == SortedKeys(members.Keys) && forall k | k in keys[0..] :: FloatFree(members[k])
    requires s != [] && s[0] == OPEN_BRACE && s[1..] == MembersText(Object(members), keys, 0, t)
    ensures s == Canonical(Object(members)) + t && FloatFree(Object(members))
  {
    hide SortedKeys;
    hide Increasing;
    hide MembersFrom;
    assert keys[0..] == keys && s == [OPEN_BRACE] + s[1..];
    assert forall k | k in members :: k in keys;
    var body := MembersFrom(Object(members), keys, 0);
    Regroup([OPEN_BRACE], body, [CLOSE_BRACE] + t);
    Regroup([OPEN_BRACE] + body, [CLOSE_BRACE], t);
  }

  lemma SameListing(keys: seq<string>, ks: set<string>)
    requires Increasing(keys) && forall k :: k in keys <==> k in ks
    ensures keys == SortedKeys(ks)
  {
    hide Increasing;
    IncreasingDistinct(keys);
    DistinctLength(keys, ks);
    IncreasingUnique(keys, SortedKeys(ks));
  }

  // The names are the keys of what is read.
  lemma {:induction false} NamesAreKeys(s: bytes, first: bool)
    requires MembersForm(s, first) && ParseMembers(s, first).Parsed?
    ensures forall k :: k in NamesIn(s, first) <==> k in ParseMembers(s, first).value
    decreases |s|
  {
    assert SkipSpace(s) == s;
    if s[0] != CLOSE_BRACE {
      var member := ParseMember(if first then s else s[1..]);
      NamesAreKeys(member.rest, false);
      hide ParseMember;
    }
  }

  lemma {:induction false} MembersFormBack(s: bytes, v: Value, keys: seq<string>, i: nat)
    requires Lists(v, keys) && i <= |keys| && MembersForm(s, i == 0) && ParseMembers(s, i == 0).Parsed?
    requires NamesIn(s, i == 0) == keys[i..] && forall j, k | 0 <= j < k < |keys| :: keys[j] != keys[k]
    requires forall k | k in keys[i..] :: k in ParseMembers(s, i == 0).value &&
                                          ParseMembers(s, i == 0).value[k] == v.members[k]
    ensures s == MembersText(v, keys, i, ParseMembers(s, i == 0).rest)
    ensures forall k | k in keys[i..] :: FloatFree(v.members[k])
    decreases |s|, 2
  {
    assert SkipSpace(s) == s;
    if s[0] == CLOSE_BRACE {
      assert i == |keys| && s == [] + ([CLOSE_BRACE] + s[1..]);
    } else {
      var body := if i == 0 then s else s[1..];
      var r := ParseMember(body);
      HeadAndTail(keys, i);
      AfterSeparator(s, i);
      assert keys[i] == r.value.0;
      OneMemberBack(body);
      LaterMembers(s, i == 0, keys, i, v);
      MembersFormBack(r.rest, v, keys, i + 1);
      hide *;
      MembersTextUnfold(v, keys, i, ParseMembers(r.rest, false).rest);
    }
  }

  lemma {:induction false} OneMemberBack(s: bytes)
    requires MemberForm(s) && ParseMember(s).Parsed?
    ensures var r := ParseMember(s);
      && s == Quoted(r.value.0) + ([COLON] + (Canonical(r.value.1) + r.rest))
      && FloatFree(r.value.1)
    decreases |s|, 0
  {
    assert SkipSpace(s) == s;
    var key := ParseString(s);
    StringFormBack(s);
    assert SkipSpace(key.rest) == key.rest;
    ValueFormBack(key.rest[1..]);
    assert key.rest == [COLON] + key.rest[1..];
  }

  // What the first member does not say, the others do.
  lemma LaterMembers(s: bytes, first: bool, keys: seq<string>, i: nat, v: Value)
    requires Lists(v, keys) && i < |keys| && MembersForm(s, first) && ParseMembers(s, first).Parsed?
    requires s[0] != CLOSE_BRACE && forall j, k | 0 <= j < k < |keys| :: keys[j] != keys[k]
    requires ParseMember(if first then s else s[1..]).Parsed?
    requires ParseMember(if first then s else s[1..]).value.0 == keys[i]
    requires forall k | k in keys[i..] :: k in ParseMembers(s, first).value &&
                                          ParseMembers(s, first).value[k] == v.members[k]
    requires NamesIn(ParseMember(if first then s else s[1..]).rest, false) == keys[i + 1..]
    ensures var r := ParseMember(if first then s else s[1..]);
      && r.value.1 == v.members[keys[i]]
      && ParseMembers(r.rest, false).Parsed? && ParseMembers(r.rest, false).rest == ParseMembers(s, first).rest
      && forall k | k in keys[i + 1..] :: k in ParseMembers(r.rest, false).value &&
                                            ParseMembers(r.rest, false).value[k] == v.members[k]
  {
    assert SkipSpace(s) == s;
    var r := ParseMember(if first then s else s[1..]);
    NamesAreKeys(r.rest, false);
    hide ParseMember;
    hide MembersForm;
    hide NamesIn;
    KeysFrom(keys, i);
  }

  lemma KeysFrom(keys: seq<string>, i: nat)
    requires i < |keys| && forall j, k | 0 <= j < k < |keys| :: keys[j] != keys[k]
    ensures keys[i] in keys[i..] && keys[i] !in keys[i + 1..] && forall k | k in keys[i + 1..] :: k in keys[i..]
  {
    forall k | k in keys[i + 1..] ensures k in keys[i..] {
      var j :| 0 <= j < |keys[i + 1..]| && keys[i + 1..][j] == k;
      assert keys[i..][j + 1] == k;
    }
  }

  // ---- What the printer prints is of this form

  lemma HexIsLower(u: codeunit)
    ensures |Hex4(u)| == 4 && forall i | 0 <= i < 4 :: LowerHex(Hex4(u)[i])
  {
  }

  lemma UnitsAreLower(c: char)
    ensures var e := EscapedUnits(Utf16(c));
      && (|e| == 6 || |e| == 12) && e[0] == BACKSLASH && e[1] == 117
      && forall i | 2 <= i < |e| && i !in {6, 7} :: LowerHex(e[i])
  {
    var units := Utf16(c);
    if c as int < 0x10000 {
      HexIsLower(units[0]);
      assert EscapedUnits(units) == [BACKSLASH, 117] + Hex4(units[0]);
    } else {
      HexIsLower(units[0]);
      HexIsLower(units[1]);
      TwoUnits(units[0], units[1]);
      assert units == [units[0], units[1]];
    }
  }

  lemma CharHasForm(c: char, t: bytes)
    ensures CharForm(EscapeChar(c) + t) && EscapeChar(c) != [] && EscapeChar(c)[0] != QUOTE
  {
    EscapeCharRoundTrip(c, t);
    if HasShortForm(c) {
      ShortHasForm(c, t);
    } else {
      NoShortForm(c);
      hide *;
      UnitsAreLower(c);
      LongHasForm(c, EscapeChar(c), t);
    }
  }

  lemma NoShortForm(c: char)
    requires !HasShortForm(c)
    ensures EscapeChar(c) == EscapedUnits(Utf16(c))
  {
    hide EscapedUnits;
  }

  lemma ShortHasForm(c: char, t: bytes)
    requires HasShortForm(c)
    ensures CharForm(EscapeChar(c) + t)
  {
    StartsAsFirst(EscapeChar(c), t);
    hide ParseChar;
  }

  lemma LongHasForm(c: char, e: bytes, t: bytes)
    requires |e| >= 6 && e[0] == BACKSLASH && e[1] == 117 && ParseChar(e + t) == Parsed(c, t) && !HasShortForm(c)
    requires forall i | 2 <= i < |e| && i !in {6, 7} :: LowerHex(e[i])
    ensures CharForm(e + t)
  {
    var s := e + t;
    hide ParseChar;
    hide HasShortForm;
    forall i | 2 <= i < |s| - |t| && i !in {6, 7} ensures LowerHex(s[i]) {
      assert s[i] == e[i];
    }
  }

  lemma {:induction false} CharsHaveForm(text: string, t: bytes)
    ensures CharsForm(Escaped(text) + ([QUOTE] + t))
  {
    if text == [] {
      assert Escaped(text) + ([QUOTE] + t) == [QUOTE] + t;
    } else {
      var tail := Escaped(text[1..]) + ([QUOTE] + t);
      CharsHaveForm(text[1..], t);
      CharHasForm(text[0], tail);
      EscapeCharRoundTrip(text[0], tail);
      Regroup(EscapeChar(text[0]), Escaped(text[1..]), [QUOTE] + t);
      hide EscapeChar;
      hide ParseChar;
      hide CharForm;
    }
  }

  lemma StringHasForm(text: string, t: bytes)
    ensures StringForm(Quoted(text) + t)
  {
    CharsHaveForm(text, t);
    hide CharsForm;
    hide Escaped;
    Regroup([QUOTE] + Escaped(text), [QUOTE], t);
    Regroup([QUOTE], Escaped(text), [QUOTE] + t);
    DropHead(QUOTE, Escaped(text) + ([QUOTE] + t));
  }

  lemma NumberHasForm(i: JsonInt, t: bytes)
    requires Delimits(t)
    ensures ValueForm(IntText(i) + t)
  {
    SignThenDigit(i);
    hide *;
    NumericForm(IntText(i), t);
  }

  lemma SignThenDigit(i: JsonInt)
    ensures var s := IntText(i); s != [] && (if s[0] == MINUS then |s| > 1 && s[1] != 48 else IsDigit(s[0]))
  {
    var m := if i < 0 then -i else i;
    NoLeadingZero(m);
    DecimalDigits(m);
    hide Decimal;
  }

  lemma NumericForm(s: bytes, t: bytes)
    requires s != [] && (if s[0] == MINUS then |s| > 1 && s[1] != 48 else IsDigit(s[0]))
    ensures ValueForm(s + t)
  {
    assert (s + t)[0] == s[0];
    if s[0] == MINUS { assert (s + t)[1] == s[1]; }
  }

  lemma LiteralHasForm(v: Value, t: bytes)
    requires v.Null? || v.Bool?
    ensures ValueForm(Canonical(v) + t)
  {
    StartsAsFirst(Canonical(v), t);
  }

  lemma {:induction false} ValueHasForm(v: Value, t: bytes)
    requires FloatFree(v) && Delimits(t)
    ensures ValueForm(Canonical(v) + t)
    decreases v, 1, 0
  {
    match v
    case Null => LiteralHasForm(v, t);
    case Bool(_) => LiteralHasForm(v, t);
    case Integer(i) => NumberHasForm(i, t);
    case Str(text) =>
      StringHasForm(text, t);
      hide StringForm;
      StartsAsFirst(Quoted(text), t);
    case Array(items) =>
      ItemsHaveForm(v, 0, t);
      hide ItemsForm;
      Regroup([OPEN_BRACKET] + ItemsFrom(v, 0), [CLOSE_BRACKET], t);
      Regroup([OPEN_BRACKET], ItemsFrom(v, 0), [CLOSE_BRACKET] + t);
      DropHead(OPEN_BRACKET, ItemsText(v, 0, t));
    case Object(members) =>
      var keys := SortedKeys(members.Keys);
      MembersHaveForm(v, keys, 0, t);
      hide MembersForm;
      hide NamesIn;
      assert keys[0..] == keys;
      Regroup([OPEN_BRACE] + MembersFrom(v, keys, 0), [CLOSE_BRACE], t);
      Regroup([OPEN_BRACE], MembersFrom(v, keys, 0), [CLOSE_BRACE] + t);
      DropHead(OPEN_BRACE, MembersText(v, keys, 0, t));
  }

  lemma {:induction false} ItemsHaveForm(v: Value, i: nat, t: bytes)
    requires v.Array? && FloatFree(v) && i <= |v.items|
    ensures ItemsForm(ItemsText(v, i, t), i == 0)
    decreases v, 0, |v.items| - i
  {
    if i == |v.items| {
      assert ItemsText(v, i, t) == [CLOSE_BRACKET] + t;
    } else {
      var item, rest := v.items[i], ItemsText(v, i + 1, t);
      assert FloatFree(item);
      ItemsDelimit(v, i + 1, t);
      ValueHasForm(item, rest);
      ValueRoundTrip(item, rest);
      ItemsHaveForm(v, i + 1, t);
      CanonicalStart(item);
      StartsAsFirst(Canonical(item), rest);
      ItemsTextUnfold(v, i, t);
      hide ItemsText;
      hide Canonical;
      hide ValueForm;
      hide ParseValue;
      OneItemForm(Canonical(item) + rest, rest, i == 0);
    }
  }

  lemma OneItemForm(body: bytes, rest: bytes, first: bool)
    requires body != [] && ValueForm(body) && ParseValue(body).Parsed? && ParseValue(body).rest == rest
    requires ItemsForm(rest, false)
    ensures ItemsForm(Separator(if first then 0 else 1) + body, first)
  {
    var s := Separator(if first then 0 else 1) + body;
    assert (if first then s else s[1..]) == body;
    hide ValueForm;
    hide ParseValue;
  }

  lemma {:induction false} MembersHaveForm(v: Value, keys: seq<string>, i: nat, t: bytes)
    requires Lists(v, keys) && FloatFree(v) && i <= |keys|
    ensures MembersForm(MembersText(v, keys, i, t), i == 0)
    ensures NamesIn(MembersText(v, keys, i, t), i == 0) == keys[i..]
    decreases v, 0, |keys| - i
  {
    hide MembersForm;
    hide NamesIn;
    hide ValueForm;
    hide Canonical;
    hide MembersText;
    if i == |keys| {
      MembersEndForm(v, keys, t);
    } else {
      MembersHaveForm(v, keys, i + 1, t);
      assert keys[i] in v.members && FloatFree(v.members[keys[i]]);
      MembersDelimit(v, keys, i + 1, t);
      ValueHasForm(v.members[keys[i]], MembersText(v, keys, i + 1, t));
      MembersStepForm(v, keys, i, t);
    }
  }

  lemma MembersEndForm(v: Value, keys: seq<string>, t: bytes)
    requires Lists(v, keys)
    ensures MembersForm(MembersText(v, keys, |keys|, t), |keys| == 0)
    ensures NamesIn(MembersText(v, keys, |keys|, t), |keys| == 0) == keys[|keys|..]
  {
    assert MembersText(v, keys, |keys|, t) == [CLOSE_BRACE] + t;
  }

  lemma MembersStepForm(v: Value, keys: seq<string>, i: nat, t: bytes)
    requires v.Object? && Lists(v, keys) && i < |keys| && keys[i] in v.members && FloatFree(v.members[keys[i]])
    requires var rest := MembersText(v, keys, i + 1, t);
      && ValueForm(Canonical(v.members[keys[i]]) + rest) && Delimits(rest)
      && MembersForm(rest, false) && NamesIn(rest, false) == keys[i + 1..]
    ensures MembersForm(MembersText(v, keys, i, t), i == 0)
    ensures NamesIn(MembersText(v, keys, i, t), i == 0) == keys[i..]
  {
    hide *;
    var member, rest := v.members[keys[i]], MembersText(v, keys, i + 1, t);
    SeparatorIs(i);
    ValueRoundTrip(member, rest);
    MembersTextUnfold(v, keys, i, t);
    OneMemberForm(keys[i], Canonical(member) + rest, member, rest, i == 0);
    assert keys[i..] == [keys[i]] + keys[i + 1..];
  }

  lemma OneMemberForm(k: string, afterKey: bytes, member: Value, rest: bytes, first: bool)
    requires ValueForm(afterKey) && ParseValue(afterKey) == Parsed(member, rest) && MembersForm(rest, false)
    ensures var s := Separator(if first then 0 else 1) + (Quoted(k) + ([COLON] + afterKey));
      MembersForm(s, first) && NamesIn(s, first) == [k] + NamesIn(rest, false)
  {
    var body := Quoted(k) + ([COLON] + afterKey);
    var s := Separator(if first then 0 else 1) + body;
    assert (if first then s else s[1..]) == body;
    StringHasForm(k, [COLON] + afterKey);
    QuotedRoundTrip(k, [COLON] + afterKey);
    DropHead(COLON, afterKey);
    assert body[0] == QUOTE && SkipSpace(body) == body && SkipSpace([COLON] + afterKey) == [COLON] + afterKey;
    hide StringForm;
    hide ParseString;
    hide Quoted;
    hide ValueForm;
    hide ParseValue;
    assert ParseMember(body) == Parsed((k, member), rest);
    assert MemberForm(body);
  }

  // The printer's text of a value is of this form, and no other text of this form has the value: what is signed and
  // referred to is determined by the grammar, not by how it is printed.
  lemma OneCanonicalForm(v: Value)
    requires FloatFree(v)
    ensures forall b :: (CanonicalForm(b) && ParseValue(b) == Parsed(v, [])) <==> b == Canonical(v)
  {
    hide *;
    ValueHasForm(v, []) by { NothingDelimits(); }
    ValueRoundTrip(v, []) by { NothingDelimits(); }
    EmptyTail(Canonical(v));
    forall b ensures (CanonicalForm(b) && ParseValue(b) == Parsed(v, [])) <==> b == Canonical(v) {
      FormIs(b);
      if CanonicalForm(b) && ParseValue(b) == Parsed(v, []) {
        ValueFormBack(b);
        EmptyTail(Canonical(v));
      }
    }
  }

  lemma NothingDelimits()
    ensures Delimits([])
  {
  }

  lemma FormIs(b: bytes)
    ensures CanonicalForm(b) <==> ValueForm(b) && ParseValue(b).Parsed? && ParseValue(b).rest == []
  {
    hide ValueForm;
    hide ParseValue;
  }
}
