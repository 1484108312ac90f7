/**
 The hand-written protobuf of the Kademlia exchange (rust/mdp2p-node/src/codec.rs:143-232). Words are
 64-bit: a shifted byte is truncated to them. `|` on disjoint bits is written `+`.
 */
module Codec {
  import opened Printer
  import opened Text
  import opened Wrappers

  const WORD := 0x1_0000_0000_0000_0000

  type u64 = n: int | 0 <= n < WORD

  datatype CodecError = TruncatedVarint | VarintTooLong | TruncatedField | UnsupportedWireType

  const KAD_GET_PROVIDERS: u64 := 3

  // ---- Varints

  function Varint(v: nat): bytes
  {
    if v < 128 then [v] else [v % 128 + 128] + Varint(v / 128)
  }

  method PutVarint(out: ByteVec, n: u64)
    modifies out
    ensures out.data == old(out.data) + Varint(n)
  {
    var v: nat := n;
    while true
      invariant out.data + Varint(v) == old(out.data) + Varint(n)
      decreases v
    {
      var b := v % 128;
      v := v / 128;
      if v == 0 {
        out.Push(b);
        return;
      }
      Regroup(out.data, [b + 128], Varint(v));
      out.Push(b + 128);
    }
  }

  function Pow2(n: nat): (p: nat)
    ensures p >= 1
  {
    if n == 0 then 1 else 2 * Pow2(n - 1)
  }

  // `u64::from(b & 0x7f) << shift`
  function Shifted(b: byte, shift: nat): nat
  {
    (b % 128) * Pow2(shift) % WORD
  }

  // The value and what follows it, `value` having been read from the bytes before.
  function VarintAt(s: bytes, shift: nat, value: nat): (r: Result<(nat, bytes), CodecError>)
    ensures r.Success? ==> |r.value.1| < |s|
    decreases 64 - shift
  {
    if shift >= 64 then Failure(VarintTooLong)
    else if s == [] then Failure(TruncatedVarint)
    else
      var next := value + Shifted(s[0], shift);
      if s[0] < 128 then Success((next, s[1..])) else VarintAt(s[1..], shift + 7, next)
  }

  lemma {:induction false} Pow2Split(a: nat, b: nat)
    ensures Pow2(a + b) == Pow2(a) * Pow2(b)
  {
    if b > 0 {
      Pow2Split(a, b - 1);
      assert Pow2(a + b) == 2 * (Pow2(a) * Pow2(b - 1)) == Pow2(a) * (2 * Pow2(b - 1));
    }
  }

  lemma WordIsPow2()
    ensures Pow2(64) == WORD && Pow2(7) == 128
  {
    assert Pow2(7) == 128;
    Pow2Split(7, 1);
    assert Pow2(8) == 256;
    Pow2Split(8, 8);
    assert Pow2(16) == 0x10000;
    Pow2Split(16, 16);
    assert Pow2(32) == 0x1_0000_0000;
    Pow2Split(32, 32);
  }

  lemma Pow2TooBig(shift: nat)
    requires shift >= 64
    ensures Pow2(shift) >= WORD
  {
    WordIsPow2();
    Pow2Split(64, shift - 64);
    assert Pow2(64) * Pow2(shift - 64) >= Pow2(64) * 1;
  }

  // What is read never leaves 64 bits: `value` holds the bits below `shift`, and the last byte's upper bits
  // are cut off.
  lemma {:induction false} VarintFitsWord(s: bytes, shift: nat, value: nat)
    requires shift % 7 == 0 && value < Pow2(shift) && value < WORD
    ensures VarintAt(s, shift, value).Success? ==> VarintAt(s, shift, value).value.0 < WORD
    decreases 64 - shift
  {
    hide Shifted;
    hide Pow2;
    if shift < 64 && s != [] {
      DigitFits(s[0], shift, value);
      if shift < 63 { VarintFitsWord(s[1..], shift + 7, value + Shifted(s[0], shift)); }
    }
  }

  // One more digit: what has been read stays below the next power of 128, and in the end below 2^64.
  lemma DigitFits(b: byte, shift: nat, value: nat)
    requires shift % 7 == 0 && shift < 64 && value < Pow2(shift) && value < WORD
    ensures value + Shifted(b, shift) < WORD
    ensures shift < 63 ==> value + Shifted(b, shift) < Pow2(shift + 7)
  {
    hide Pow2;
    var p, d := Pow2(shift), b % 128;
    Pow2Split(shift, 7);
    WordIsPow2();
    if shift < 63 {
      assert shift <= 56;
      Pow2Split(shift, 56 - shift);
      Pow2Split(56, 8);
      WordSplit();
      SmallDigit(d, p, Pow2(56 - shift));
    } else {
      assert shift == 63;
      Pow2Split(63, 1);
      OneBit();
      TopBit(d, p);
      ADigit(d % 2, p);
    }
  }

  lemma WordSplit()
    ensures Pow2(8) == 256
  {
    assert Pow2(4) == 16;
  }

  lemma OneBit()
    ensures Pow2(1) == 2
  {
  }

  lemma ADigit(bit: nat, p: nat)
    requires bit < 2
    ensures bit * p <= p
  {
  }

  lemma SmallDigit(d: nat, p: nat, q: nat)
    requires d < 128 && p * q * 256 == WORD && q >= 1
    ensures d * p % WORD == d * p && d * p + p <= 128 * p <= p * q * 256
  {
    assert d * p + p == (d + 1) * p <= 128 * p;
    assert p * 1 <= p * q;
  }

  lemma TopBit(d: nat, p: nat)
    requires 2 * p == WORD
    ensures d * p % WORD == (d % 2) * p
  {
    assert d * p == (d / 2) * WORD + (d % 2) * p;
    assert (d % 2) * p < WORD;
  }

  lemma ShiftDigit(b: byte, shift: nat)
    requires (b % 128) * Pow2(shift) < WORD
    ensures Shifted(b, shift) == (b % 128) * Pow2(shift)
  {
  }

  lemma ShiftMore(w: nat, shift: nat)
    requires w >= 128 && w * Pow2(shift) < WORD && shift < 64
    ensures shift + 7 < 64
    ensures (w / 128) * Pow2(shift + 7) < WORD
    ensures Shifted(w % 128 + 128, shift) + (w / 128) * Pow2(shift + 7) == w * Pow2(shift)
  {
    hide Shifted;
    hide Pow2;
    var p, lo, hi := Pow2(shift), w % 128, w / 128;
    Pow2Split(shift, 7);
    WordIsPow2();
    assert Pow2(shift + 7) == 128 * p;
    Digits(w, lo, hi, p);
    AtLeast(hi, Pow2(shift + 7));
    if shift + 7 >= 64 {
      Pow2TooBig(shift + 7);
      assert false;
    }
    ShiftDigit(lo + 128, shift);
  }

  lemma Digits(w: nat, lo: nat, hi: nat, p: nat)
    requires w == lo + 128 * hi
    ensures w * p == lo * p + hi * (128 * p) && lo * p >= 0 && hi * (128 * p) >= 0
  {
  }

  lemma AtLeast(k: nat, p: nat)
    requires k >= 1
    ensures k * p >= p
  {
  }

  // Reading gives back what was written and stops right after it, in the middle of any buffer.
  lemma {:induction false} VarintRoundTripAt(w: nat, rest: bytes, shift: nat, value: nat)
    requires w * Pow2(shift) < WORD && shift < 64
    ensures VarintAt(Varint(w) + rest, shift, value) == Success((value + w * Pow2(shift), rest))
    decreases w
  {
    hide Shifted;
    hide Pow2;
    var s := Varint(w) + rest;
    if w < 128 {
      ShiftDigit(w, shift);
      assert s[1..] == rest;
    } else {
      ShiftMore(w, shift);
      assert s[0] == w % 128 + 128 && s[1..] == Varint(w / 128) + rest;
      VarintRoundTripAt(w / 128, rest, shift + 7, value + Shifted(w % 128 + 128, shift));
    }
  }

  lemma VarintRoundTrip(n: u64, rest: bytes)
    ensures VarintAt(Varint(n) + rest, 0, 0) == Success((n, rest))
  {
    hide VarintAt;
    hide Varint;
    assert Pow2(0) == 1;
    assert n * Pow2(0) == n;
    VarintRoundTripAt(n, rest, 0, 0);
  }

  // `buf` and a position in it, advanced past the varint.
  method GetVarint(buf: bytes, pos: nat) returns (r: Result<u64, CodecError>, next: nat)
    requires pos <= |buf|
    ensures pos <= next <= |buf|
    ensures r.Failure? ==> VarintAt(buf[pos..], 0, 0) == Failure(r.error)
    ensures r.Success? ==> next > pos && VarintAt(buf[pos..], 0, 0) == Success((r.value, buf[next..]))
  {
    hide Shifted;
    hide Pow2;
    hide VarintAt;
    VarintFitsWord(buf[pos..], 0, 0);
    var value: nat := 0;
    var shift: nat := 0;
    next := pos;
    while shift < 64
      invariant pos <= next <= |buf|
      invariant shift > 0 ==> next > pos
      invariant VarintAt(buf[next..], shift, value) == VarintAt(buf[pos..], 0, 0)
      decreases 70 - shift
    {
      VarintStep(buf, next, shift, value);
      if next >= |buf| {
        return Failure(TruncatedVarint), next;
      }
      var b := buf[next];
      next := next + 1;
      value := value + Shifted(b, shift);
      if b < 128 {
        return Success(value), next;
      }
      shift := shift + 7;
    }
    VarintStep(buf, next, shift, value);
    r := Failure(VarintTooLong);
  }

  lemma VarintStep(buf: bytes, next: nat, shift: nat, value: nat)
    requires next <= |buf|
    ensures VarintAt(buf[next..], shift, value) ==
      if shift >= 64 then Failure(VarintTooLong)
      else if next == |buf| then Failure(TruncatedVarint)
      else
        var v := value + Shifted(buf[next], shift);
        if buf[next] < 128 then Success((v, buf[next + 1..])) else VarintAt(buf[next + 1..], shift + 7, v)
  {
    hide Shifted;
    if next < |buf| { assert buf[next..][1..] == buf[next + 1..]; }
  }

  // ---- Fields

  type Field = (nat, bytes)

  function Drop(s: bytes, n: nat): bytes
  {
    if n <= |s| then s[n..] else []
  }

  function Prepend<T>(x: T, r: Result<seq<T>, CodecError>): Result<seq<T>, CodecError>
  {
    if r.Failure? then r else Success([x] + r.value)
  }

  // The fields of a message. A fixed-width field is skipped whether or not all of it is there.
  function FieldsOf(s: bytes): Result<seq<Field>, CodecError>
    decreases |s|
  {
    if s == [] then Success([])
    else
      var tag := VarintAt(s, 0, 0);
      if tag.Failure? then Failure(tag.error)
      else
        var (t, rest) := tag.value;
        if t % 8 == 0 then
          var skipped := VarintAt(rest, 0, 0);
          if skipped.Failure? then Failure(skipped.error) else Prepend((t / 8, []), FieldsOf(skipped.value.1))
        else if t % 8 == 2 then
          var len := VarintAt(rest, 0, 0);
          if len.Failure? then Failure(len.error)
          else
            var (n, body) := len.value;
            if n > |body| then Failure(TruncatedField) else Prepend((t / 8, body[..n]), FieldsOf(body[n..]))
        else if t % 8 == 1 then FieldsOf(Drop(rest, 8))
        else if t % 8 == 5 then FieldsOf(Drop(rest, 4))
        else Failure(UnsupportedWireType)
  }

  ghost function Continued<T>(done: seq<T>, r: Result<seq<T>, CodecError>): Result<seq<T>, CodecError>
  {
    if r.Failure? then r else Success(done + r.value)
  }

  lemma ContinuedPrepend<T>(done: seq<T>, x: T, r: Result<seq<T>, CodecError>)
    ensures Continued(done, Prepend(x, r)) == Continued(done + [x], r)
  {
    if r.Success? { assert done + ([x] + r.value) == done + [x] + r.value; }
  }

  function WithField(field: Option<Field>, rest: Result<seq<Field>, CodecError>): Result<seq<Field>, CodecError>
  {
    if field.Some? then Prepend(field.value, rest) else rest
  }

  // One turn of the loop over the fields: what is pushed, if anything, and where to go on.
  method NextField(buf: bytes, pos: nat) returns (r: Result<Option<Field>, CodecError>, next: nat)
    requires pos < |buf|
    ensures r.Failure? ==> FieldsOf(buf[pos..]) == Failure(r.error)
    ensures r.Success? ==> next > pos
    ensures r.Success? ==> FieldsOf(buf[pos..]) == WithField(r.value, FieldsOf(Drop(buf, next)))
  {
    hide VarintAt;
    var tag;
    tag, next := GetVarint(buf, pos);
    if tag.Failure? {
      return Failure(tag.error), next;
    }
    var t := tag.value;
    if t % 8 == 0 {
      var skipped;
      skipped, next := GetVarint(buf, next);
      if skipped.Failure? {
        return Failure(skipped.error), next;
      }
      return Success(Some((t / 8, []))), next;
    } else if t % 8 == 2 {
      var len;
      len, next := GetVarint(buf, next);
      if len.Failure? {
        return Failure(len.error), next;
      }
      var end := next + len.value;
      if end > |buf| {
        return Failure(TruncatedField), next;
      }
      assert buf[next..][..len.value] == buf[next..end] && buf[next..][len.value..] == buf[end..];
      return Success(Some((t / 8, buf[next..end]))), end;
    } else if t % 8 == 1 {
      DropDrop(buf, next, 8);
      return Success(None), next + 8;
    } else if t % 8 == 5 {
      DropDrop(buf, next, 4);
      return Success(None), next + 4;
    }
    return Failure(UnsupportedWireType), next;
  }

  lemma DropDrop(s: bytes, a: nat, b: nat)
    requires a <= |s|
    ensures Drop(s[a..], b) == Drop(s, a + b)
  {
  }

  // Every turn moves on and no slice leaves the buffer, on any input.
  method Fields(buf: bytes) returns (r: Result<seq<Field>, CodecError>)
    ensures r == FieldsOf(buf)
  {
    hide FieldsOf;
    var out: seq<Field> := [];
    var pos: nat := 0;
    ContinuedStart(buf);
    while pos < |buf|
      invariant Continued(out, FieldsOf(Drop(buf, pos))) == FieldsOf(buf)
      decreases |buf| - pos
    {
      var field, next := NextField(buf, pos);
      if field.Failure? {
        return Failure(field.error);
      }
      if field.value.Some? {
        ContinuedPrepend(out, field.value.value, FieldsOf(Drop(buf, next)));
        out := out + [field.value.value];
      }
      pos := next;
    }
    assert Drop(buf, pos) == [];
    NoMoreFields(out);
    r := Success(out);
  }

  lemma ContinuedStart(buf: bytes)
    ensures Continued([], FieldsOf(Drop(buf, 0))) == FieldsOf(buf)
  {
    assert Drop(buf, 0) == buf;
    if FieldsOf(buf).Success? { assert [] + FieldsOf(buf).value == FieldsOf(buf).value; }
  }

  lemma NoMoreFields(out: seq<Field>)
    ensures Continued(out, FieldsOf([])) == Success(out)
  {
    assert out + [] == out;
  }

  // ---- Messages

  // A length-delimited field.
  function EncodeField(number: nat, payload: bytes): bytes
  {
    Varint(number * 8 + 2) + (Varint(|payload|) + payload)
  }

  lemma ReadDelimited(s: bytes, t: nat, rest: bytes, n: nat, body: bytes)
    requires s != [] && VarintAt(s, 0, 0) == Success((t, rest)) && t % 8 == 2
    requires VarintAt(rest, 0, 0) == Success((n, body)) && n <= |body|
    ensures FieldsOf(s) == Prepend((t / 8, body[..n]), FieldsOf(body[n..]))
  {
    hide VarintAt;
  }

  lemma ReadSkipped(s: bytes, t: nat, rest: bytes, n: nat, body: bytes)
    requires s != [] && VarintAt(s, 0, 0) == Success((t, rest)) && t % 8 == 0
    requires VarintAt(rest, 0, 0) == Success((n, body))
    ensures FieldsOf(s) == Prepend((t / 8, []), FieldsOf(body))
  {
    hide VarintAt;
  }

  lemma EncodedFieldReadsBack(number: nat, payload: bytes, rest: bytes)
    requires number * 8 + 2 < WORD && |payload| < WORD
    ensures FieldsOf(EncodeField(number, payload) + rest) == Prepend((number, payload), FieldsOf(rest))
  {
    hide VarintAt;
    hide Varint;
    hide FieldsOf;
    var t := number * 8 + 2;
    var body := payload + rest;
    Regroup(Varint(|payload|), payload, rest);
    Regroup(Varint(t), Varint(|payload|) + payload, rest);
    VarintRoundTrip(t, Varint(|payload|) + body);
    VarintRoundTrip(|payload|, body);
    Sliced(payload, rest);
    VarintNotEmpty(t);
    ReadDelimited(Varint(t) + (Varint(|payload|) + body), t, Varint(|payload|) + body, |payload|, body);
  }

  lemma Sliced(a: bytes, b: bytes)
    ensures (a + b)[..|a|] == a && (a + b)[|a|..] == b
  {
  }

  lemma VarintNotEmpty(n: nat)
    ensures Varint(n) != []
  {
  }

  // A varint field is there without its value.
  lemma VarintFieldReadsBack(number: nat, n: u64, rest: bytes)
    requires number * 8 < WORD
    ensures FieldsOf(Varint(number * 8) + (Varint(n) + rest)) == Prepend((number, []), FieldsOf(rest))
  {
    hide VarintAt;
    hide Varint;
    hide FieldsOf;
    var t, tail := number * 8, Varint(n) + rest;
    VarintRoundTrip(t, tail);
    VarintRoundTrip(n, rest);
    VarintNotEmpty(t);
    ReadSkipped(Varint(t) + tail, t, tail, n, rest);
  }

  // Fields of eight and of four bytes are passed over, or as much of them as there is; no other kind of field is known.
  lemma FixedFieldsAreSkipped(number: nat, wire: nat, payload: bytes, rest: bytes)
    requires wire < 8 && number * 8 + wire < WORD && wire != 0 && wire != 2
    ensures var s := Varint(number * 8 + wire) + (payload + rest);
      && (wire == 1 && |payload| == 8 ==> FieldsOf(s) == FieldsOf(rest))
      && (wire == 5 && |payload| == 4 ==> FieldsOf(s) == FieldsOf(rest))
      && (wire == 1 && |payload| < 8 && rest == [] ==> FieldsOf(s) == Success([]))
      && (wire == 5 && |payload| < 4 && rest == [] ==> FieldsOf(s) == Success([]))
      && (wire in {3, 4, 6, 7} ==> FieldsOf(s) == Failure(UnsupportedWireType))
  {
    assert (number * 8 + wire) % 8 == wire;
    hide *;
    var t, tail := number * 8 + wire, payload + rest;
    VarintRoundTrip(t, tail);
    VarintNotEmpty(t);
    NoFields();
    DropWhole(payload, rest, if wire == 1 then 8 else 4);
    OtherWireTypes(Varint(t) + tail, t, tail);
  }

  lemma DropWhole(payload: bytes, rest: bytes, n: nat)
    ensures |payload| == n ==> Drop(payload + rest, n) == rest
    ensures |payload| < n && rest == [] ==> Drop(payload + rest, n) == []
  {
    if |payload| == n { assert (payload + rest)[n..] == rest; }
  }

  lemma OtherWireTypes(s: bytes, t: nat, rest: bytes)
    requires s != [] && VarintAt(s, 0, 0) == Success((t, rest))
    ensures t % 8 == 1 ==> FieldsOf(s) == FieldsOf(Drop(rest, 8))
    ensures t % 8 == 5 ==> FieldsOf(s) == FieldsOf(Drop(rest, 4))
    ensures t % 8 in {3, 4, 6, 7} ==> FieldsOf(s) == Failure(UnsupportedWireType)
  {
    hide VarintAt;
  }

  // `encode_get_providers`
  function GetProviders(key: bytes): bytes
  {
    Varint(8) + (Varint(KAD_GET_PROVIDERS) + EncodeField(2, key))
  }

  method EncodeGetProviders(key: bytes) returns (msg: bytes)
    requires |key| < WORD
    ensures msg == GetProviders(key)
  {
    var out := new ByteVec();
    PutVarint(out, 8);
    PutVarint(out, KAD_GET_PROVIDERS);
    PutVarint(out, 2 * 8 + 2);
    PutVarint(out, |key|);
    out.Extend(key);
    msg := out.data;
  }

  // A request holds its two fields: the type, whose value the reader drops, and the key.
  lemma RequestRoundTrip(key: bytes)
    requires |key| < WORD
    ensures FieldsOf(GetProviders(key)) == Success([(1, []), (2, key)])
  {
    hide VarintAt;
    hide Varint;
    hide FieldsOf;
    HeadReadsBack(EncodeField(2, key));
    EncodedFieldReadsBack(2, key, []);
    EmptyTail(EncodeField(2, key));
    NoFields();
    var kind: Field, body: Field := (1, []), (2, key);
    assert [kind] + ([body] + []) == [kind, body];
  }

  // As a receiver reads it: the tag of field 1 with a varint, the number 3, and then the key as field 2.
  lemma RequestAsksForProviders(key: bytes)
    requires |key| < WORD
    ensures var tag := VarintAt(GetProviders(key), 0, 0);
      && tag.Success? && tag.value.0 == 1 * 8 + 0
      && var kind := VarintAt(tag.value.1, 0, 0);
      && kind.Success? && kind.value.0 == 3
      && FieldsOf(kind.value.1) == Success([(2, key)])
  {
    hide VarintAt;
    hide Varint;
    hide FieldsOf;
    var field: Field := (2, key);
    VarintRoundTrip(8, Varint(KAD_GET_PROVIDERS) + EncodeField(2, key));
    VarintRoundTrip(KAD_GET_PROVIDERS, EncodeField(2, key));
    EncodedFieldReadsBack(2, key, []);
    EmptyTail(EncodeField(2, key));
    NoFields();
    assert [field] + [] == [field];
  }

  lemma NoFields()
    ensures FieldsOf([]) == Success([])
  {
  }

  lemma HeadReadsBack(body: bytes)
    ensures FieldsOf(Varint(8) + (Varint(KAD_GET_PROVIDERS) + body)) == Prepend((1, []), FieldsOf(body))
  {
    hide VarintAt;
    hide Varint;
    hide FieldsOf;
    var tail := Varint(KAD_GET_PROVIDERS) + body;
    VarintRoundTrip(8, tail);
    VarintRoundTrip(KAD_GET_PROVIDERS, body);
    VarintNotEmpty(8);
    ReadSkipped(Varint(8) + tail, 8, tail, KAD_GET_PROVIDERS, body);
  }

  // ---- Providers

  // `PeerId::from_bytes` and `Multiaddr::try_from`.
  datatype Parsers<P, A> = Parsers(peer: bytes -> Option<P>, addr: bytes -> Option<A>)

  datatype Provider<P, A> = Provider(peerId: P, addrs: seq<A>)

  // The fields of one peer: the last id counts, even if it does not parse; addresses that do not are skipped.
  function PeerOf<P, A>(q: Parsers<P, A>, fields: seq<Field>): (Option<P>, seq<A>)
  {
    if fields == [] then (None, [])
    else
      var (id, addrs) := PeerOf(q, fields[..|fields| - 1]);
      var (n, value) := fields[|fields| - 1];
      if n == 1 then (q.peer(value), addrs)
      else if n == 2 && q.addr(value).Some? then (id, addrs + [q.addr(value).value])
      else (id, addrs)
  }

  method DecodePeer<P, A>(q: Parsers<P, A>, fields: seq<Field>) returns (id: Option<P>, addrs: seq<A>)
    ensures (id, addrs) == PeerOf(q, fields)
  {
    id, addrs := None, [];
    for i := 0 to |fields|
      invariant (id, addrs) == PeerOf(q, fields[..i])
    {
      assert fields[..i + 1][..i] == fields[..i];
      var (n, value) := fields[i];
      if n == 1 {
        id := q.peer(value);
      } else if n == 2 {
        var addr := q.addr(value);
        if addr.Some? {
          addrs := addrs + [addr.value];
        }
      }
    }
    assert fields[..|fields|] == fields;
  }

  // A field more: an id takes the place of those before it, parsed or not; an address that parses goes behind the
  // others; anything else changes nothing.
  lemma PeerFieldByField<P, A>(q: Parsers<P, A>, fields: seq<Field>, n: nat, value: bytes)
    ensures PeerOf(q, []) == (None, [])
    ensures var (id, addrs) := PeerOf(q, fields); var more := PeerOf(q, fields + [(n, value)]);
      && more.0 == (if n == 1 then q.peer(value) else id)
      && more.1 == addrs + (if n == 2 && q.addr(value).Some? then [q.addr(value).value] else [])
  {
    assert (fields + [(n, value)])[..|fields|] == fields;
  }

  // The providers among the fields from the i-th on.
  function ProvidersOf<P, A>(q: Parsers<P, A>, fields: seq<Field>): Result<seq<Provider<P, A>>, CodecError>
  {
    if fields == [] then Success([])
    else if fields[0].0 != 9 then ProvidersOf(q, fields[1..])
    else
      var sub := FieldsOf(fields[0].1);
      if sub.Failure? then Failure(sub.error)
      else
        var (id, addrs) := PeerOf(q, sub.value);
        if id.None? then ProvidersOf(q, fields[1..])
        else Prepend(Provider(id.value, addrs), ProvidersOf(q, fields[1..]))
  }

  function Providers<P, A>(q: Parsers<P, A>, msg: bytes): Result<seq<Provider<P, A>>, CodecError>
  {
    var fields := FieldsOf(msg);
    if fields.Failure? then Failure(fields.error) else ProvidersOf(q, fields.value)
  }

  method DecodeProviders<P, A>(q: Parsers<P, A>, msg: bytes) returns (r: Result<seq<Provider<P, A>>, CodecError>)
    ensures r == Providers(q, msg)
  {
    hide FieldsOf;
    var fields := Fields(msg);
    if fields.Failure? {
      return Failure(fields.error);
    }
    var fs := fields.value;
    var providers: seq<Provider<P, A>> := [];
    assert fs[0..] == fs;
    ContinuedNothing(ProvidersOf(q, fs));
    for i := 0 to |fs|
      invariant Continued(providers, ProvidersOf(q, fs[i..])) == ProvidersOf(q, fs)
    {
      assert fs[i..][1..] == fs[i + 1..];
      if fs[i].0 == 9 {
        var sub := Fields(fs[i].1);
        if sub.Failure? {
          return Failure(sub.error);
        }
        var id, addrs := DecodePeer(q, sub.value);
        if id.Some? {
          ContinuedPrepend(providers, Provider(id.value, addrs), ProvidersOf(q, fs[i + 1..]));
          providers := providers + [Provider(id.value, addrs)];
        }
      }
    }
    assert providers + [] == providers;
    r := Success(providers);
  }

  lemma ContinuedNothing<T>(r: Result<seq<T>, CodecError>)
    ensures Continued([], r) == r
  {
    if r.Success? { assert [] + r.value == r.value; }
  }

  // A provider as it travels: the bytes of its id and of its addresses.
  datatype RawProvider = RawProvider(id: bytes, addrs: seq<bytes>)

  function EncodeAddrs(addrs: seq<bytes>): bytes
  {
    if addrs == [] then [] else EncodeField(2, addrs[0]) + EncodeAddrs(addrs[1..])
  }

  function EncodePeer(p: RawProvider): bytes
  {
    EncodeField(1, p.id) + EncodeAddrs(p.addrs)
  }

  function EncodePeers(ps: seq<RawProvider>): bytes
  {
    if ps == [] then [] else EncodeField(9, EncodePeer(ps[0])) + EncodePeers(ps[1..])
  }

  // A response: the message type and its value, then the providers.
  function EncodeResponse(ps: seq<RawProvider>): bytes
  {
    Varint(8) + (Varint(KAD_GET_PROVIDERS) + EncodePeers(ps))
  }

  ghost predicate Encodable(p: RawProvider)
  {
    |p.id| < WORD && (forall a | a in p.addrs :: |a| < WORD) && |EncodePeer(p)| < WORD
  }

  function AddrFields(addrs: seq<bytes>): seq<Field>
  {
    seq(|addrs|, i requires 0 <= i < |addrs| => (2, addrs[i]))
  }

  function PeerFields(ps: seq<RawProvider>): seq<Field>
  {
    seq(|ps|, i requires 0 <= i < |ps| => (9, EncodePeer(ps[i])))
  }

  lemma {:induction false} AddrsReadBack(addrs: seq<bytes>)
    requires forall a | a in addrs :: |a| < WORD
    ensures FieldsOf(EncodeAddrs(addrs)) == Success(AddrFields(addrs))
  {
    hide VarintAt;
    hide Varint;
    hide FieldsOf;
    hide EncodeField;
    if addrs == [] {
      assert AddrFields(addrs) == [];
      NoFields();
    } else {
      AddrsReadBack(addrs[1..]);
      assert addrs[0] in addrs;
      EncodedFieldReadsBack(2, addrs[0], EncodeAddrs(addrs[1..]));
      assert AddrFields(addrs) == [(2, addrs[0])] + AddrFields(addrs[1..]);
    }
  }

  lemma {:induction false} PeersReadBack(ps: seq<RawProvider>)
    requires forall p | p in ps :: Encodable(p)
    ensures FieldsOf(EncodePeers(ps)) == Success(PeerFields(ps))
  {
    hide VarintAt;
    hide Varint;
    hide FieldsOf;
    hide EncodeField;
    hide EncodePeer;
    if ps == [] {
      assert PeerFields(ps) == [];
      NoFields();
    } else {
      PeersReadBack(ps[1..]);
      assert Encodable(ps[0]);
      EncodedFieldReadsBack(9, EncodePeer(ps[0]), EncodePeers(ps[1..]));
      assert PeerFields(ps) == [(9, EncodePeer(ps[0]))] + PeerFields(ps[1..]);
    }
  }

  function GoodAddrs<P, A>(q: Parsers<P, A>, addrs: seq<bytes>): seq<A>
  {
    if addrs == [] then []
    else
      var before, last := GoodAddrs(q, addrs[..|addrs| - 1]), q.addr(addrs[|addrs| - 1]);
      if last.Some? then before + [last.value] else before
  }

  // The providers a response should give: those whose id parses, in order, with the addresses that parse.
  function GoodProviders<P, A>(q: Parsers<P, A>, ps: seq<RawProvider>): seq<Provider<P, A>>
  {
    if ps == [] then []
    else
      var rest := GoodProviders(q, ps[1..]);
      if q.peer(ps[0].id).None? then rest else [Provider(q.peer(ps[0].id).value, GoodAddrs(q, ps[0].addrs))] + rest
  }

  lemma {:induction false} PeerOfFields<P, A>(q: Parsers<P, A>, id: bytes, addrs: seq<bytes>)
    ensures PeerOf(q, [(1, id)] + AddrFields(addrs)) == (q.peer(id), GoodAddrs(q, addrs))
  {
    var fs := [(1, id)] + AddrFields(addrs);
    if addrs == [] {
      assert fs == [(1, id)] && fs[..0] == [];
      assert PeerOf(q, fs[..0]) == (None, []);
    } else {
      var init := addrs[..|addrs| - 1];
      PeerOfFields(q, id, init);
      assert fs[..|fs| - 1] == [(1, id)] + AddrFields(init);
    }
  }

  lemma PeerReadsBack<P, A>(q: Parsers<P, A>, p: RawProvider)
    requires Encodable(p)
    ensures FieldsOf(EncodePeer(p)) == Success([(1, p.id)] + AddrFields(p.addrs))
  {
    AddrsReadBack(p.addrs);
    EncodedFieldReadsBack(1, p.id, EncodeAddrs(p.addrs));
  }

  lemma {:induction false} ProvidersOfFields<P, A>(q: Parsers<P, A>, ps: seq<RawProvider>)
    requires forall p | p in ps :: Encodable(p)
    ensures ProvidersOf(q, PeerFields(ps)) == Success(GoodProviders(q, ps))
  {
    hide FieldsOf;
    if ps != [] {
      assert Encodable(ps[0]);
      PeerReadsBack(q, ps[0]);
      PeerOfFields(q, ps[0].id, ps[0].addrs);
      ProvidersOfFields(q, ps[1..]);
      assert PeerFields(ps)[1..] == PeerFields(ps[1..]);
    }
  }

  // Any list of providers comes back in order, without those whose id or address does not parse.
  lemma ResponseRoundTrip<P, A>(q: Parsers<P, A>, ps: seq<RawProvider>)
    requires forall p | p in ps :: Encodable(p)
    ensures Providers(q, EncodeResponse(ps)) == Success(GoodProviders(q, ps))
  {
    HeadReadsBack(EncodePeers(ps));
    PeersReadBack(ps);
    ProvidersOfFields(q, ps);
    assert ([(1, [])] + PeerFields(ps))[1..] == PeerFields(ps);
  }
}
