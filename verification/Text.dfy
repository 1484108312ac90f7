/**
 UTF-8 (section 3 of RFC 3629). A Dafny `char` is a Unicode scalar value, so `string` is exactly
 what a Rust `str` holds; a Python `str` may also hold lone surrogates, which are not modelled.
 */
module Text {
  import opened Ordering
  import opened Wrappers

  type byte = b: int | 0 <= b < 256
  type bytes = seq<byte>

  function EncodeChar(c: char): (e: bytes)
    ensures 1 <= |e| <= 4
  {
    var u := c as int;
    if u < 0x80 then [u]
    else if u < 0x800 then [0xC0 + u / 64, 0x80 + u % 64]
    else if u < 0x10000 then [0xE0 + u / 64 / 64, 0x80 + u / 64 % 64, 0x80 + u % 64]
    else [0xF0 + u / 64 / 64 / 64, 0x80 + u / 64 / 64 % 64, 0x80 + u / 64 % 64, 0x80 + u % 64]
  }

  // What `str::as_bytes` and `str.encode("utf-8")` return.
  function Utf8(s: string): bytes
  {
    if s == [] then [] else EncodeChar(s[0]) + Utf8(s[1..])
  }

  function Repeated(c: char, n: nat): string { seq(n, _ => c) }

  predicate Continuation(b: byte) { 0x80 <= b < 0xC0 }

  // The first character of `b` and the number of bytes it takes; overlong forms, surrogates and
  // values above U+10FFFF are refused.
  function DecodeChar(b: bytes): (r: Option<(char, nat)>)
    requires b != []
    ensures r.Some? ==> 1 <= r.value.1 <= |b|
  {
    if b[0] < 0x80 then Some((b[0] as char, 1))
    else if 0xC0 <= b[0] < 0xE0 && |b| >= 2 && Continuation(b[1]) then
      var u := (b[0] as int - 0xC0) * 64 + (b[1] as int - 0x80);
      if 0x80 <= u then Some((u as char, 2)) else None
    else if 0xE0 <= b[0] < 0xF0 && |b| >= 3 && Continuation(b[1]) && Continuation(b[2]) then
      var u := (b[0] as int - 0xE0) * 4096 + (b[1] as int - 0x80) * 64 + (b[2] as int - 0x80);
      if 0x800 <= u && !(0xD800 <= u < 0xE000) then Some((u as char, 3)) else None
    else if 0xF0 <= b[0] < 0xF8 && |b| >= 4 && Continuation(b[1]) && Continuation(b[2]) && Continuation(b[3]) then
      var u :=
        (b[0] as int - 0xF0) * 262144 + (b[1] as int - 0x80) * 4096 + (b[2] as int - 0x80) * 64 + (b[3] as int - 0x80);
      if 0x10000 <= u < 0x110000 then Some((u as char, 4)) else None
    else None
  }

  // What `String::from_utf8` returns.
  function FromUtf8(b: bytes): Option<string>
    decreases |b|
  {
    if b == [] then Some([])
    else
      var first := DecodeChar(b);
      if first.None? then None
      else
        var rest := FromUtf8(b[first.value.1..]);
        if rest.None? then None else Some([first.value.0] + rest.value)
  }

  lemma DecodeEncodeChar(c: char, rest: bytes)
    ensures DecodeChar(EncodeChar(c) + rest) == Some((c, |EncodeChar(c)|))
  {
    var u := c as int;
    var b := EncodeChar(c) + rest;
    if u < 0x80 {
    } else if u < 0x800 {
      assert b[0] == 0xC0 + u / 64 && b[1] == 0x80 + u % 64;
    } else if u < 0x10000 {
      assert b[0] == 0xE0 + u / 64 / 64 && b[1] == 0x80 + u / 64 % 64 && b[2] == 0x80 + u % 64;
    } else {
      assert b[0] == 0xF0 + u / 64 / 64 / 64 && b[1] == 0x80 + u / 64 / 64 % 64;
      assert b[2] == 0x80 + u / 64 % 64 && b[3] == 0x80 + u % 64;
    }
  }

  // The bytes of a character as section 3 of RFC 3629 lays them out: how many there are shows in the first one, the
  // others are marked, their bits together are the character, and no shorter form would do.
  lemma Utf8Layout(c: char)
    ensures var e, u := EncodeChar(c), c as int;
      && (|e| == 1 <==> u <= 0x7F) && (|e| <= 2 <==> u <= 0x7FF) && (|e| <= 3 <==> u <= 0xFFFF)
      && (forall i | 1 <= i < |e| :: 0x80 <= e[i] <= 0xBF)
      && (|e| == 1 ==> e[0] as int == u)
      && (|e| == 2 ==> 0xC0 <= e[0] <= 0xDF && u == (e[0] as int - 0xC0) * 0x40 + (e[1] as int - 0x80))
      && (|e| == 3 ==>
            && 0xE0 <= e[0] <= 0xEF
            && u == (e[0] as int - 0xE0) * 0x1000 + (e[1] as int - 0x80) * 0x40 + (e[2] as int - 0x80))
      && (|e| == 4 ==>
            && 0xF0 <= e[0] <= 0xF7
            && u == (e[0] as int - 0xF0) * 0x4_0000 + (e[1] as int - 0x80) * 0x1000 +
                 (e[2] as int - 0x80) * 0x40 + (e[3] as int - 0x80))
  {
    var u := c as int;
    assert u == u / 64 * 64 + u % 64 && u / 64 == u / 64 / 64 * 64 + u / 64 % 64;
    assert u / 64 / 64 == u / 64 / 64 / 64 * 64 + u / 64 / 64 % 64;
  }

  // Reading back what was written loses nothing, so a served file has exactly the accepted text.
  lemma {:induction false} Utf8RoundTrip(s: string)
    ensures FromUtf8(Utf8(s)) == Some(s)
  {
    if s != [] {
      var e := EncodeChar(s[0]);
      DecodeEncodeChar(s[0], Utf8(s[1..]));
      assert Utf8(s) == e + Utf8(s[1..]);
      assert Utf8(s)[|e|..] == Utf8(s[1..]);
      Utf8RoundTrip(s[1..]);
      assert s == [s[0]] + s[1..];
    }
  }

  // The decoder accepts nothing but what the encoder writes.
  lemma EncodeDecodeChar(b: bytes)
    requires b != [] && DecodeChar(b).Some?
    ensures EncodeChar(DecodeChar(b).value.0) == b[..DecodeChar(b).value.1]
  {
    var (c, n) := DecodeChar(b).value;
    if n == 4 {
      assert (c as int) / 64 / 64 / 64 == b[0] - 0xF0;
    }
  }

  lemma {:induction false} DecodedIsEncoded(b: bytes)
    requires FromUtf8(b).Some?
    ensures Utf8(FromUtf8(b).value) == b
    decreases |b|
  {
    hide EncodeChar;
    hide DecodeChar;
    if b != [] {
      var (c, n) := DecodeChar(b).value;
      EncodeDecodeChar(b);
      DecodedIsEncoded(b[n..]);
      var rest := FromUtf8(b[n..]).value;
      assert ([c] + rest)[1..] == rest;
      assert b == b[..n] + b[n..];
    }
  }

  lemma Utf8Injective(s: string, t: string)
    requires Utf8(s) == Utf8(t)
    ensures s == t
  {
    Utf8RoundTrip(s);
    Utf8RoundTrip(t);
  }

  lemma {:induction false} Utf8Concat(s: string, t: string)
    ensures Utf8(s + t) == Utf8(s) + Utf8(t)
  {
    if s == [] {
      assert s + t == t;
    } else {
      assert (s + t)[1..] == s[1..] + t;
      Utf8Concat(s[1..], t);
    }
  }

  function CodePoints(s: string): (r: seq<int>)
    ensures |r| == |s|
  {
    seq(|s|, i requires 0 <= i < |s| => s[i] as int)
  }

  // Rust compares strings byte by byte, Python code point by code point.
  predicate ByteLess(a: string, b: string) { LexLess(Utf8(a), Utf8(b)) }

  predicate CodePointLess(a: string, b: string) { LexLess(CodePoints(a), CodePoints(b)) }

  ghost predicate DiffersFirstAt(e: bytes, f: bytes, i: nat)
  {
    i < |e| && i < |f| && e[..i] == f[..i] && e[i] < f[i]
  }

  lemma CharOrder(c: char, d: char) returns (i: nat)
    requires c < d
    ensures DiffersFirstAt(EncodeChar(c), EncodeChar(d), i)
  {
    var u, v := c as int, d as int;
    if |EncodeChar(c)| < |EncodeChar(d)| {
      i := 0;
    } else {
      i := CharOrderSameLength(u, v, c, d);
    }
  }

  // u and v agree in their leading base-64 digits; the first digit in which they differ decides.
  lemma CharOrderSameLength(u: nat, v: nat, c: char, d: char) returns (i: nat)
    requires u == c as int && v == d as int && u < v
    requires |EncodeChar(c)| == |EncodeChar(d)|
    ensures DiffersFirstAt(EncodeChar(c), EncodeChar(d), i)
  {
    var e, f := EncodeChar(c), EncodeChar(d);
    var n := |e|;
    DigitOrder(u, v);
    DigitOrder(u / 64, v / 64);
    DigitOrder(u / 64 / 64, v / 64 / 64);
    if n == 1 || u / 64 == v / 64 {
      i := n - 1;
    } else if n == 2 || u / 64 / 64 == v / 64 / 64 {
      i := n - 2;
    } else if n == 3 || u / 64 / 64 / 64 == v / 64 / 64 / 64 {
      i := n - 3;
    } else {
      i := 0;
    }
    assert e[i] < f[i];
    assert forall j | 0 <= j < i :: e[j] == f[j];
  }

  lemma DigitOrder(u: nat, v: nat)
    requires u <= v
    ensures u / 64 <= v / 64
    ensures u < v && u / 64 == v / 64 ==> u % 64 < v % 64
  {
  }

  // The two programs sort object keys alike.
  lemma {:induction false} ByteOrderIsCodePointOrder(a: string, b: string)
    ensures ByteLess(a, b) <==> CodePointLess(a, b)
  {
    if a == [] || b == [] {
    } else if a[0] == b[0] {
      LexCommonPrefix(EncodeChar(a[0]), Utf8(a[1..]), Utf8(b[1..]));
      assert CodePoints(a)[1..] == CodePoints(a[1..]) && CodePoints(b)[1..] == CodePoints(b[1..]);
      ByteOrderIsCodePointOrder(a[1..], b[1..]);
    } else if a[0] < b[0] {
      var i := CharOrder(a[0], b[0]);
      LexFirstDifference(EncodeChar(a[0]), EncodeChar(b[0]), i, Utf8(a[1..]), Utf8(b[1..]));
    } else {
      var i := CharOrder(b[0], a[0]);
      LexFirstDifference(EncodeChar(b[0]), EncodeChar(a[0]), i, Utf8(b[1..]), Utf8(a[1..]));
      LexAsymmetric(Utf8(b), Utf8(a));
    }
  }

  lemma LexAsymmetric(a: seq<int>, b: seq<int>)
    requires LexLess(a, b)
    ensures !LexLess(b, a)
  {
    if LexLess(b, a) {
      LexTransitive(a, b, a);
      LexIrreflexive(a);
    }
  }

  lemma ByteOrderIsStrictTotal(a: string, b: string)
    ensures !ByteLess(a, a)
    ensures ByteLess(a, b) ==> !ByteLess(b, a)
    ensures ByteLess(a, b) || a == b || ByteLess(b, a)
  {
    LexIrreflexive(Utf8(a));
    LexTotal(Utf8(a), Utf8(b));
    if ByteLess(a, b) { LexAsymmetric(Utf8(a), Utf8(b)); }
    if Utf8(a) == Utf8(b) { Utf8Injective(a, b); }
  }

  lemma ByteOrderTransitive(a: string, b: string, c: string)
    requires ByteLess(a, b) && ByteLess(b, c)
    ensures ByteLess(a, c)
  {
    LexTransitive(Utf8(a), Utf8(b), Utf8(c));
  }

  ghost predicate Increasing(ks: seq<string>)
  {
    forall i, j :: 0 <= i < j < |ks| ==> ByteLess(ks[i], ks[j])
  }

  predicate LeastKey(k: string, ks: set<string>)
  {
    k in ks && forall j | j in ks :: j == k || ByteLess(k, j)
  }

  lemma {:induction false} LeastKeyExists(ks: set<string>)
    requires ks != {}
    ensures exists k :: LeastKey(k, ks)
  {
    var k :| k in ks;
    if ks == {k} {
      assert LeastKey(k, ks);
    } else {
      LeastKeyExists(ks - {k});
      var l :| LeastKey(l, ks - {k});
      ByteOrderIsStrictTotal(k, l);
      if ByteLess(l, k) {
        assert LeastKey(l, ks);
      } else {
        forall j | j in ks ensures j == k || ByteLess(k, j) {
          if j != k && j != l { ByteOrderTransitive(k, l, j); }
        }
        assert LeastKey(k, ks);
      }
    }
  }

  lemma LeastKeyUnique(k: string, l: string, ks: set<string>)
    requires LeastKey(k, ks) && LeastKey(l, ks)
    ensures k == l
  {
    ByteOrderIsStrictTotal(k, l);
  }

  // The order in which a serde_json object (a BTreeMap) is iterated.
  function SortedKeys(ks: set<string>): (r: seq<string>)
    ensures Increasing(r)
    ensures forall k :: k in r <==> k in ks
    ensures |r| == |ks|
  {
    if ks == {} then []
    else
      LeastKeyExists(ks);
      assert forall k, l | LeastKey(k, ks) && LeastKey(l, ks) :: k == l by {
        forall k, l | LeastKey(k, ks) && LeastKey(l, ks) ensures k == l { LeastKeyUnique(k, l, ks); }
      }
      var k :| LeastKey(k, ks);
      [k] + SortedKeys(ks - {k})
  }

  lemma IncreasingDistinct(ks: seq<string>)
    requires Increasing(ks)
    ensures forall i, j :: 0 <= i < j < |ks| ==> ks[i] != ks[j]
  {
    forall i, j | 0 <= i < j < |ks| ensures ks[i] != ks[j] {
      ByteOrderIsStrictTotal(ks[i], ks[j]);
    }
  }

  // There is only one increasing listing of a set of keys.
  lemma {:induction false} IncreasingUnique(a: seq<string>, b: seq<string>)
    requires Increasing(a) && Increasing(b) && |a| == |b|
    requires forall k :: k in a <==> k in b
    ensures a == b
  {
    if a != [] {
      assert a[0] in b && b != [];
      assert b[0] in a;
      ByteOrderIsStrictTotal(a[0], b[0]);
      assert a[0] == b[0];
      IncreasingDistinct(a);
      IncreasingDistinct(b);
      assert a == [a[0]] + a[1..] && b == [b[0]] + b[1..];
      assert a[0] !in a[1..] && b[0] !in b[1..];
      forall k ensures k in a[1..] <==> k in b[1..] {
        assert k in a[1..] ==> k in a;
        assert k in b[1..] ==> k in b;
      }
      IncreasingUnique(a[1..], b[1..]);
    }
  }
}
