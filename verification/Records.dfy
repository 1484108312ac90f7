/**
 Signed records (rust/mdp2p-core/src/records.rs) and the check on a naming answer
 (rust/mdp2p-core/src/fetch.rs). SHA-256 and Ed25519 are parameters: a function from bytes to a hex
 digest, and a predicate on (base64 key, base64 signature, message).
 */
module Records {
  import opened Json
  import opened Printer
  import opened Text
  import opened Wrappers

  datatype Crypto = Crypto(sha256: bytes -> string, verify: (string, string, bytes) -> bool)

  // Somebody with a key and the means to sign with it.
  datatype Author = Author(key: string, sign: bytes -> string)

  ghost predicate HonestAuthor(c: Crypto, a: Author)
  {
    forall m :: c.verify(a.key, a.sign(m), m)
  }

  ghost predicate Collision(c: Crypto, a: bytes, b: bytes)
  {
    a != b && c.sha256(a) == c.sha256(b)
  }

  datatype RecordError =
    | NotAnObject
    | MissingField(field: string)
    | BadField(field: string)
    | TimestampDrift
    | ContentKeyMismatch
    | BadSignature

  predicate VerifySignature(c: Crypto, key: string, signature: string, v: Value)
  {
    var message := CanonicalJson(v);
    message.Some? && c.verify(key, signature, message.value)
  }

  function ContentKey(c: Crypto, uri: string, key: string): string
  {
    "/mdp2p/" + c.sha256(Utf8(uri + ":" + key))
  }

  function ManifestRef(c: Crypto, manifest: Value): Option<string>
  {
    var message := CanonicalJson(manifest);
    if message.Some? then Some(c.sha256(message.value)) else None
  }

  predicate VerifyManifest(c: Crypto, manifest: Value, signature: string, trustedKey: string)
  {
    GetStr(manifest, "public_key") == Some(trustedKey) && VerifySignature(c, trustedKey, signature, manifest)
  }

  predicate IsManifestExpired(manifest: Value, now: int)
  {
    var field := Get(manifest, "expires_at");
    if field == None || field == Some(Null) then false
    else
      var expiresAt := AsI64(field.value);
      if expiresAt.None? then true else now > expiresAt.value
  }

  // The first required field that is absent.
  function Require(members: map<string, Value>, fields: seq<string>): (r: Option<RecordError>)
    ensures r.None? <==> forall i | 0 <= i < |fields| :: fields[i] in members
  {
    if fields == [] then None
    else if fields[0] !in members then Some(MissingField(fields[0]))
    else Require(members, fields[1..])
  }

  const I64_LIMIT := 0x8000_0000_0000_0000

  type i64 = i: int | -I64_LIMIT <= i < I64_LIMIT

  // 64-bit arithmetic of a release build.
  function Wrap(i: int): i64 { (i + I64_LIMIT) % (2 * I64_LIMIT) - I64_LIMIT }

  // `(now - ts).abs()`
  function DriftOf(now: i64, ts: i64): i64
  {
    var d: int := Wrap(now - ts);
    if d < 0 then Wrap(-d) else d
  }

  // `max_drift` None skips the clock check.
  function CheckDrift(members: map<string, Value>, maxDrift: Option<i64>, now: i64): Option<RecordError>
  {
    if "timestamp" !in members || AsI64(members["timestamp"]).None? then Some(BadField("timestamp"))
    else if maxDrift.Some? && DriftOf(now, AsI64(members["timestamp"]).value) > maxDrift.value then Some(TimestampDrift)
    else None
  }

  // The distance is the real one exactly when the difference fits in 64 bits and is not the least number.
  lemma DriftIsDistance(now: i64, ts: i64)
    ensures DriftOf(now, ts) == (if now < ts then ts - now else now - ts) <==> -I64_LIMIT < now - ts < I64_LIMIT
  {
  }

  // With a clock at or after 1970 it fails only for timestamps some 292 billion years in the past, and a
  // timestamp exactly 2^63 seconds before the clock passes every limit.
  lemma FarTimestampsWrap(now: i64, ts: i64, maxDrift: i64)
    requires 0 <= maxDrift
    ensures DriftOf(now, ts) <= maxDrift <==>
      -maxDrift <= now - ts <= maxDrift || now - ts == I64_LIMIT || now - ts == -I64_LIMIT ||
      now - ts >= 2 * I64_LIMIT - maxDrift || now - ts <= maxDrift - 2 * I64_LIMIT
  {
  }

  function CheckSignature(c: Crypto, record: Value, keyField: string, signature: string): Option<RecordError>
  {
    if !record.Object? then Some(NotAnObject)
    else
      var key := GetStr(record, keyField);
      if key.None? then Some(BadField(keyField))
      else if VerifySignature(c, key.value, signature, record) then None
      else Some(BadSignature)
  }

  const NAME_RECORD_FIELDS := ["uri", "author", "public_key", "manifest_ref", "timestamp"]

  function VerifyNameRecord(c: Crypto, record: Value, signature: string, maxDrift: Option<i64>, now: i64):
    Option<RecordError>
  {
    if !record.Object? then Some(NotAnObject)
    else
      var missing := Require(record.members, NAME_RECORD_FIELDS);
      if missing.Some? then missing
      else
        var drift := CheckDrift(record.members, maxDrift, now);
        if drift.Some? then drift else CheckSignature(c, record, "public_key", signature)
  }

  const ASSIGNMENT_FIELDS :=
    ["uri", "content_key", "publisher_public_key", "reviewer_public_keys", "deadline", "timestamp"]

  function StringOr(v: Option<string>, default: string): string
  {
    if v.Some? then v.value else default
  }

  function VerifyReviewAssignment(c: Crypto, record: Value, signature: string, maxDrift: Option<i64>, now: i64):
    Option<RecordError>
  {
    if !record.Object? then Some(NotAnObject)
    else
      var m := record.members;
      var missing := Require(m, ASSIGNMENT_FIELDS);
      if missing.Some? then missing
      else if Get(record, "reviewer_public_keys").None? || !AllStrings(Get(record, "reviewer_public_keys").value) then
        Some(BadField("reviewer_public_keys"))
      else if Get(record, "deadline").None? || AsI64(Get(record, "deadline").value).None? ||
        AsI64(Get(record, "deadline").value).value <= 0 then Some(BadField("deadline"))
      else
        var expected :=
          ContentKey(c, StringOr(GetStr(record, "uri"), ""), StringOr(GetStr(record, "publisher_public_key"), ""));
        if GetStr(record, "content_key") != Some(expected) then Some(ContentKeyMismatch)
        else
          var drift := CheckDrift(m, maxDrift, now);
          if drift.Some? then drift else CheckSignature(c, record, "publisher_public_key", signature)
  }

  predicate AllStrings(v: Value)
  {
    v.Array? && forall x | x in v.items :: x.Str?
  }

  datatype ResolveError = MalformedAnswer | Record(error: RecordError) | WrongUri

  datatype ResolvedName = ResolvedName(publicKey: string, manifestRef: string, timestamp: int)

  function CheckResolvedRecord(c: Crypto, uri: string, response: Value): Result<ResolvedName, ResolveError>
  {
    if GetStr(response, "type") != Some("record") then Failure(MalformedAnswer)
    else
      var record := Get(response, "record");
      var signature := GetStr(response, "signature");
      if record.None? || signature.None? then Failure(MalformedAnswer)
      else
        var err := VerifyNameRecord(c, record.value, signature.value, None, 0);
        if err.Some? then Failure(Record(err.value))
        else if GetStr(record.value, "uri") != Some(uri) then Failure(WrongUri)
        else
          var key, manifestRef := GetStr(record.value, "public_key"), GetStr(record.value, "manifest_ref");
          var stamp := Get(record.value, "timestamp");
          var ts := if stamp.Some? then AsI64(stamp.value) else None;
          if key.Some? && manifestRef.Some? && ts.Some? then
            Success(ResolvedName(key.value, manifestRef.value, ts.value))
          else Failure(MalformedAnswer)
  }

  // ---- What an accepted naming answer is worth

  // The answer is a record that says exactly this, signed by the very key it names.
  ghost predicate Vouches(c: Crypto, record: Value, signature: string, uri: string, r: ResolvedName)
  {
    && FloatFree(record)
    && c.verify(r.publicKey, signature, Canonical(record))
    && GetStr(record, "uri") == Some(uri)
    && GetStr(record, "public_key") == Some(r.publicKey)
    && GetStr(record, "manifest_ref") == Some(r.manifestRef)
    && Get(record, "author").Some?
    && Get(record, "timestamp").Some? && AsI64(Get(record, "timestamp").value) == Some(r.timestamp)
  }

  lemma RequireNameFields(members: map<string, Value>)
    ensures Require(members, NAME_RECORD_FIELDS).None? <==>
      && "uri" in members && "author" in members && "public_key" in members
      && "manifest_ref" in members && "timestamp" in members
  {
    var f := NAME_RECORD_FIELDS;
    assert f[0] == "uri" && f[1] == "author" && f[2] == "public_key" && f[3] == "manifest_ref" && f[4] == "timestamp";
  }

  lemma NameRecordVerifies(c: Crypto, record: Value, signature: string)
    ensures VerifyNameRecord(c, record, signature, None, 0).None? <==>
      && record.Object?
      && "uri" in record.members && "author" in record.members && "public_key" in record.members
      && "manifest_ref" in record.members && "timestamp" in record.members
      && AsI64(record.members["timestamp"]).Some?
      && GetStr(record, "public_key").Some?
      && VerifySignature(c, GetStr(record, "public_key").value, signature, record)
  {
    if record.Object? { RequireNameFields(record.members); }
  }

  lemma SignatureCoversRecord(c: Crypto, signature: string, record: Value)
    ensures forall k :: VerifySignature(c, k, signature, record) <==>
      FloatFree(record) && c.verify(k, signature, Canonical(record))
  {
  }

  // Accepted exactly when the answer vouches for the requested name; nothing is asked of the server.
  lemma ResolvedIffVouched(c: Crypto, uri: string, response: Value, r: ResolvedName)
    ensures CheckResolvedRecord(c, uri, response) == Success(r) <==>
      && GetStr(response, "type") == Some("record")
      && Get(response, "record").Some?
      && GetStr(response, "signature").Some?
      && Vouches(c, Get(response, "record").value, GetStr(response, "signature").value, uri, r)
  {
    var record, signature := Get(response, "record"), GetStr(response, "signature");
    hide VerifyNameRecord;
    hide VerifySignature;
    hide Canonical;
    hide FloatFree;
    if record.Some? && signature.Some? {
      NameRecordVerifies(c, record.value, signature.value);
      SignatureCoversRecord(c, signature.value, record.value);
    }
  }

  // The last ':' of the joined text is the one that was put between the two parts.
  lemma ColonPosition(u: string, k: string)
    requires ':' !in k
    ensures var s := u + ":" + k;
      s[|u|] == ':' && (forall j | |u| < j < |s| :: s[j] != ':') && s[..|u|] == u && s[|u| + 1..] == k
  {
    var s := u + ":" + k;
    forall j | |u| < j < |s| ensures s[j] != ':' {
      assert s[j] == k[j - |u| - 1];
    }
  }

  // A text with a single ':' is joined in one way only, whatever the parts of the other side hold.
  lemma OnlyColon(u: string, k: string, v: string, l: string)
    requires ':' !in u && ':' !in k
    requires u + ":" + k == v + ":" + l
    ensures u == v && k == l
  {
    ColonPosition(u, k);
    assert (v + ":" + l)[|v|] == ':';
    assert (u + ":" + k)[|v|] == ':';
    assert (v + ":" + l)[..|v|] == v && (v + ":" + l)[|v| + 1..] == l;
  }

  // Neither a valid site name nor a base64 key holds a ':', so the content key of (u, k) belongs to nobody
  // else, however the other name and key are spelt, or a SHA-256 collision is exhibited.
  lemma ContentKeyBinds(c: Crypto, u: string, k: string, v: string, l: string)
    requires ':' !in u && ':' !in k
    requires ContentKey(c, u, k) == ContentKey(c, v, l)
    ensures (u == v && k == l) || Collision(c, Utf8(u + ":" + k), Utf8(v + ":" + l))
  {
    var a, b := Utf8(u + ":" + k), Utf8(v + ":" + l);
    assert c.sha256(a) == ContentKey(c, u, k)[7..] == c.sha256(b);
    if a == b {
      Utf8Injective(u + ":" + k, v + ":" + l);
      OnlyColon(u, k, v, l);
    }
  }

  // An assignment that verifies is signed by the key its content key derives from: nobody but the publisher
  // of (u, k) can assign reviewers to that content.
  lemma AssignmentIsThePublishers(
    c: Crypto, record: Value, signature: string, maxDrift: Option<i64>, now: i64, u: string, k: string)
    requires VerifyReviewAssignment(c, record, signature, maxDrift, now).None?
    requires GetStr(record, "content_key") == Some(ContentKey(c, u, k))
    requires ':' !in u && ':' !in k
    ensures
      || (GetStr(record, "publisher_public_key") == Some(k) && StringOr(GetStr(record, "uri"), "") == u &&
          FloatFree(record) && c.verify(k, signature, Canonical(record)))
      || var v, l := StringOr(GetStr(record, "uri"), ""), StringOr(GetStr(record, "publisher_public_key"), "");
         Collision(c, Utf8(u + ":" + k), Utf8(v + ":" + l))
  {
    hide Canonical;
    hide FloatFree;
    hide Utf8;
    hide Require;
    hide ContentKey;
    var v, l := StringOr(GetStr(record, "uri"), ""), StringOr(GetStr(record, "publisher_public_key"), "");
    ContentKeyBinds(c, u, k, v, l);
  }
}
