/**
 Messages: a value printed in canonical form, framed, and read back (wire.py:33-56). Python sends this form
 of every message; values that hold a float are not covered, their text is Python's own.
 */
module Messages {
  import opened Json
  import opened Ordering
  import opened Printer
  import opened Reader
  import opened Text
  import opened Wire
  import opened Wrappers

  // The naming server's limits on a response and on a request (naming.py:66-67).
  const MAX_MSG_SIZE := 1024 * 1024
  const MAX_REQUEST_SIZE := 64 * 1024

  // `json.loads` on a payload without floats: one value and nothing but white space after it.
  function Decode(payload: bytes): Option<Value>
  {
    var r := ParseValue(payload);
    if r.Parsed? && SkipSpace(r.rest) == [] then Some(r.value) else None
  }

  // What a receiver makes of the bytes on a stream, and what it leaves unread.
  function ReceiveMessage(data: bytes, max: nat): (Option<Value>, bytes)
  {
    var (payload, unread) := Receive(data, max);
    (if payload.None? then None else Decode(payload.value), unread)
  }

  lemma DecodesCanonical(v: Value)
    requires FloatFree(v)
    ensures Decode(Canonical(v)) == Some(v)
  {
    hide ParseValue;
    hide Canonical;
    ValueRoundTrip(v, []);
    assert Canonical(v) + [] == Canonical(v);
  }

  // A message arrives as it was sent and leaves what follows it, exactly when its text is within the limit.
  lemma MessageRoundTrip(v: Value, rest: bytes, max: nat)
    requires FloatFree(v) && |Canonical(v)| < MAX_FRAME
    ensures ReceiveMessage(Frame(Canonical(v)) + rest, max) ==
      if |Canonical(v)| <= max then (Some(v), rest) else (None, Canonical(v) + rest)
  {
    hide Receive;
    hide Decode;
    hide Canonical;
    FramingRoundTrip(Canonical(v), rest, max);
    DecodesCanonical(v);
  }

  // ---- How long a text is

  // An array's text: its items, a comma between two, and the brackets.
  function ItemsLength(items: seq<Value>): nat
  {
    if items == [] then 0 else |Canonical(items[0])| + ItemsLength(items[1..])
  }

  lemma {:induction false} ItemsFromLength(v: Value, i: nat)
    requires v.Array? && i <= |v.items|
    ensures |ItemsFrom(v, i)| == ItemsLength(v.items[i..]) +
      (if i == |v.items| then 0 else |v.items| - i - (if i == 0 then 1 else 0))
    decreases |v.items| - i
  {
    hide Canonical;
    if i < |v.items| {
      ItemsFromLength(v, i + 1);
      assert v.items[i..][1..] == v.items[i + 1..];
    }
  }

  lemma ArrayLength(items: seq<Value>)
    ensures |Canonical(Array(items))| == ItemsLength(items) + (if items == [] then 2 else |items| + 1)
  {
    hide ItemsFrom;
    ItemsFromLength(Array(items), 0);
    assert items[0..] == items;
  }

  // No member is longer than the object that holds it.
  lemma {:induction false} MemberFromLength(v: Value, keys: seq<string>, i: nat, j: nat)
    requires Lists(v, keys) && i <= j < |keys|
    ensures |MembersFrom(v, keys, i)| >= |Canonical(v.members[keys[j]])|
    decreases j - i
  {
    hide Canonical;
    hide Quoted;
    if i < j { MemberFromLength(v, keys, i + 1, j); }
  }

  lemma MemberLength(v: Value, k: string)
    requires v.Object? && k in v.members
    ensures |Canonical(v)| >= |Canonical(v.members[k])|
  {
    var keys := SortedKeys(v.members.Keys);
    var j :| 0 <= j < |keys| && keys[j] == k;
    hide MembersFrom;
    MemberFromLength(v, keys, 0, j);
  }

  // Characters that are printed as they are.
  predicate Plain(s: string)
  {
    forall c | c in s :: ' ' <= c <= '~' && c != '\"' && c != '\\'
  }

  lemma {:induction false} EscapedLength(s: string)
    ensures |s| <= |Escaped(s)|
    ensures Plain(s) ==> |Escaped(s)| == |s|
  {
    if s != [] {
      EscapedLength(s[1..]);
      assert s[0] in s && forall c | c in s[1..] :: c in s;
      assert |EscapeChar(s[0])| >= 1;
    }
  }

  lemma TextLength(s: string)
    ensures |Canonical(Str(s))| == |Quoted(s)| == |Escaped(s)| + 2 && |s| <= |Escaped(s)|
    ensures Plain(s) ==> |Canonical(Str(s))| == |s| + 2
  {
    EscapedLength(s);
  }

  lemma {:induction false} DecimalLength(n: nat, digits: nat)
    requires digits > 0 && n < Ten(digits)
    ensures |Decimal(n)| <= digits
  {
    if n >= 10 { DecimalLength(n / 10, digits - 1); }
  }

  function Ten(digits: nat): nat { if digits == 0 then 1 else 10 * Ten(digits - 1) }

  lemma NumberLength(i: JsonInt)
    ensures |Canonical(Integer(i))| <= 21
  {
    assert Ten(4) == 10_000;
    assert Ten(8) == 100_000_000;
    assert Ten(12) == 1_000_000_000_000;
    assert Ten(16) == 10_000_000_000_000_000;
    assert Ten(20) == 100_000_000_000_000_000_000;
    DecimalLength(if i < 0 then -i else i, 20);
  }

  // An object's text follows any increasing listing of its keys.
  lemma ObjectText(v: Value, keys: seq<string>)
    requires v.Object? && Increasing(keys) && forall k :: k in keys <==> k in v.members
    requires |keys| == |v.members|
    ensures Lists(v, keys) && |Canonical(v)| == |MembersFrom(v, keys, 0)| + 2
  {
    hide MembersFrom;
    hide Increasing;
    assert |v.members| == |v.members.Keys|;
    assert forall k :: k in v.members.Keys <==> k in v.members;
    IncreasingUnique(keys, SortedKeys(v.members.Keys));
  }

  lemma HeadsDecide(a: string, b: string)
    requires a != [] && b != [] && a[0] as int < b[0] as int < 128
    ensures ByteLess(a, b)
  {
    assert Utf8(a)[0] == a[0] as int && Utf8(b)[0] == b[0] as int;
  }

  ghost predicate HeadsIncrease(keys: seq<string>)
  {
    && (forall i | 0 <= i < |keys| :: keys[i] != [] && keys[i][0] as int < 128)
    && forall i, j | 0 <= i < j < |keys| :: keys[i][0] as int < keys[j][0] as int
  }

  lemma HeadsMeanIncreasing(keys: seq<string>)
    requires HeadsIncrease(keys)
    ensures Increasing(keys)
  {
    hide ByteLess;
    forall i, j | 0 <= i < j < |keys| ensures ByteLess(keys[i], keys[j]) {
      HeadsDecide(keys[i], keys[j]);
    }
  }

  // The name of a member and its text, with the quotes and the colon.
  function MemberSize(v: Value, k: string): nat
    requires v.Object? && k in v.members
  {
    |Quoted(k)| + 1 + |Canonical(v.members[k])|
  }

  function MemberSizes(v: Value, keys: seq<string>): nat
    requires Lists(v, keys)
  {
    if keys == [] then 0
    else
      assert forall i | 0 <= i < |keys| - 1 :: keys[1..][i] == keys[i + 1];
      MemberSize(v, keys[0]) + MemberSizes(v, keys[1..])
  }

  lemma {:induction false} MembersFromSizes(v: Value, keys: seq<string>, i: nat)
    requires Lists(v, keys) && i <= |keys|
    ensures Lists(v, keys[i..])
    ensures |MembersFrom(v, keys, i)| == MemberSizes(v, keys[i..]) + |keys| - i -
      (if i == 0 && keys != [] then 1 else 0)
    decreases |keys| - i
  {
    hide Canonical;
    hide Quoted;
    if i < |keys| {
      MembersFromSizes(v, keys, i + 1);
      assert keys[i..][1..] == keys[i + 1..] && keys[i..][0] == keys[i];
    }
  }

  // An object's text: its members, a comma between two, and the braces.
  lemma ObjectLength(v: Value, keys: seq<string>)
    requires v.Object? && keys != [] && Increasing(keys) && forall k :: k in keys <==> k in v.members
    ensures Lists(v, keys) && |Canonical(v)| == MemberSizes(v, keys) + |keys| + 1
  {
    hide Canonical;
    hide MemberSizes;
    IncreasingDistinct(keys);
    hide Increasing;
    DistinctLength(keys, v.members.Keys);
    ObjectText(v, keys);
    MembersFromSizes(v, keys, 0);
    assert keys[0..] == keys;
  }

  lemma TwoMembers(v: Value, a: string, b: string)
    requires v.Object? && v.members.Keys == {a, b} && HeadsIncrease([a, b])
    ensures |Canonical(v)| == MemberSize(v, a) + MemberSize(v, b) + 3
  {
    hide Canonical;
    hide MemberSize;
    assert forall k :: k in [a, b] <==> k in v.members.Keys;
    HeadsMeanIncreasing([a, b]);
    ObjectLength(v, [a, b]);
    assert [a, b][1..] == [b] && [b][1..] == [];
    assert MemberSizes(v, [b]) == MemberSize(v, b);
  }

  lemma ThreeMembers(v: Value, a: string, b: string, c: string)
    requires v.Object? && v.members.Keys == {a, b, c} && HeadsIncrease([a, b, c])
    ensures |Canonical(v)| == MemberSize(v, a) + MemberSize(v, b) + MemberSize(v, c) + 4
  {
    hide Canonical;
    hide MemberSize;
    assert forall k :: k in [a, b, c] <==> k in v.members.Keys;
    HeadsMeanIncreasing([a, b, c]);
    ObjectLength(v, [a, b, c]);
    assert [a, b, c][1..] == [b, c] && [b, c][1..] == [c] && [c][1..] == [];
    assert MemberSizes(v, [c]) == MemberSize(v, c);
    assert MemberSizes(v, [b, c]) == MemberSize(v, b) + MemberSize(v, c);
  }

  lemma FiveMembers(v: Value, a: string, b: string, c: string, d: string, e: string)
    requires v.Object? && v.members.Keys == {a, b, c, d, e} && Increasing([a, b, c, d, e])
    ensures |Canonical(v)| ==
      MemberSize(v, a) + MemberSize(v, b) + MemberSize(v, c) + MemberSize(v, d) + MemberSize(v, e) + 6
  {
    hide Canonical;
    hide MemberSize;
    assert forall k :: k in [a, b, c, d, e] <==> k in v.members.Keys;
    ObjectLength(v, [a, b, c, d, e]);
    assert [a, b, c, d, e][1..] == [b, c, d, e] && [b, c, d, e][1..] == [c, d, e];
    assert [c, d, e][1..] == [d, e] && [d, e][1..] == [e] && [e][1..] == [];
    assert MemberSizes(v, [e]) == MemberSize(v, e);
    assert MemberSizes(v, [d, e]) == MemberSize(v, d) + MemberSize(v, e);
    assert MemberSizes(v, [c, d, e]) == MemberSize(v, c) + MemberSizes(v, [d, e]);
    assert MemberSizes(v, [b, c, d, e]) == MemberSize(v, b) + MemberSizes(v, [c, d, e]);
  }

  // The names of members are made of letters and underscores.
  lemma {:induction false} KeyLength(s: string)
    requires forall i | 0 <= i < |s| :: s[i] == '_' || 'a' <= s[i] <= 'z'
    ensures |Quoted(s)| == |s| + 2 && |Canonical(Str(s))| == |s| + 2
  {
    assert Plain(s);
    TextLength(s);
  }

  lemma {:induction false} ItemsLengthAtMost(items: seq<Value>, each: nat)
    requires forall x | x in items :: |Canonical(x)| <= each
    ensures ItemsLength(items) <= each * |items|
  {
    hide Canonical;
    if items != [] {
      forall x | x in items[1..] ensures |Canonical(x)| <= each {
        assert x in items;
      }
      ItemsLengthAtMost(items[1..], each);
      assert items[0] in items && each * |items| == each + each * (|items| - 1);
    }
  }

  lemma {:induction false} ItemsLengthAtLeast(items: seq<Value>, n: nat, each: nat)
    requires n <= |items| && forall i | 0 <= i < n :: |Canonical(items[i])| >= each
    ensures ItemsLength(items) >= each * n
  {
    hide Canonical;
    if n > 0 {
      forall i | 0 <= i < n - 1 ensures |Canonical(items[1..][i])| >= each {
        assert items[1..][i] == items[i + 1];
      }
      ItemsLengthAtLeast(items[1..], n - 1, each);
    }
  }

  lemma NullLength()
    ensures |Canonical(Null)| == 4
  {
  }
}
