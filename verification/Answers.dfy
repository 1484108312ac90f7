/**
 Signed records on their way in and out of the naming server: a client sends one in a request, and the server
 answers with some of them, in one message (naming.py:444-456, naming.py:528-609). A request is read in whatever
 way it is written, and its length is limited as it comes; the answer is written in canonical form, and its
 length is limited as that.
 */
module Answers {
  import opened Json
  import opened Messages
  import opened Printer
  import opened Spelling
  import opened Text
  import opened Wrappers

  // One of several records in an answer.
  function EntryOf(record: Value, signature: string): Value
  {
    Object(map["record" := record, "signature" := Str(signature)])
  }

  // An answer of several records.
  function RecordsAnswer(kind: string, entries: seq<Value>): Value
  {
    Object(map["type" := Str(kind), "records" := Array(entries)])
  }

  // A message that holds one record: a request to store it, or an answer to who asks for a name.
  function Submission(kind: string, record: Value, signature: string): Value
  {
    Object(map["type" := Str(kind), "record" := record, "signature" := Str(signature)])
  }

  // The names of messages are made of letters and underscores.
  predicate Word(s: string) { forall i | 0 <= i < |s| :: s[i] == '_' || 'a' <= s[i] <= 'z' }

  const SUBMITTED := ["record", "signature", "type"]

  // ---- How long they are

  lemma AnswerMembers(kind: string, entries: seq<Value>)
    ensures var v := RecordsAnswer(kind, entries);
      && v.Object? && v.members.Keys == {"records", "type"} && HeadsIncrease(["records", "type"])
      && v.members["type"] == Str(kind) && v.members["records"] == Array(entries)
  {
    assert "type"[0] == 't' && "records"[0] == 'r';
  }

  lemma AnswerLength(kind: string, entries: seq<Value>)
    requires Word(kind)
    ensures |Canonical(RecordsAnswer(kind, entries))| ==
      22 + |kind| + ItemsLength(entries) + (if entries == [] then 2 else |entries| + 1)
  {
    var v := RecordsAnswer(kind, entries);
    AnswerMembers(kind, entries);
    KeyLength(kind);
    hide *;
    NamesLength();
    TwoMembers(v, "records", "type");
    ArrayLength(entries);
    MemberIs(v, "records");
    MemberIs(v, "type");
  }

  lemma EntryMembers(record: Value, signature: string)
    ensures var v := EntryOf(record, signature);
      && v.Object? && v.members.Keys == {"record", "signature"} && HeadsIncrease(["record", "signature"])
      && v.members["record"] == record && v.members["signature"] == Str(signature)
  {
    assert "record"[0] == 'r' && "signature"[0] == 's';
  }

  lemma EntryLength(record: Value, signature: string)
    ensures |Canonical(EntryOf(record, signature))| == 24 + |Canonical(record)| + |Canonical(Str(signature))|
  {
    var v := EntryOf(record, signature);
    EntryMembers(record, signature);
    hide *;
    NamesLength();
    TwoMembers(v, "record", "signature");
    MemberIs(v, "record");
    MemberIs(v, "signature");
  }

  lemma SubmissionMembers(kind: string, record: Value, signature: string)
    ensures var v := Submission(kind, record, signature);
      && v.Object? && v.members.Keys == {"record", "signature", "type"}
      && HeadsIncrease(["record", "signature", "type"])
      && v.members["record"] == record && v.members["signature"] == Str(signature) && v.members["type"] == Str(kind)
      && (FloatFree(record) ==> FloatFree(v))
  {
    assert "type"[0] == 't' && "record"[0] == 'r' && "signature"[0] == 's';
  }

  lemma NamesLength()
    ensures |Quoted("record")| == 8 && |Quoted("signature")| == 11 && |Quoted("type")| == 6
    ensures |Quoted("records")| == 9
  {
    hide *;
    KeyLength("record");
    KeyLength("records");
    KeyLength("signature");
    KeyLength("type");
  }

  lemma SubmissionLength(kind: string, record: Value, signature: string)
    requires Word(kind)
    ensures |Canonical(Submission(kind, record, signature))| ==
      34 + |kind| + |Canonical(record)| + |Canonical(Str(signature))|
  {
    var v := Submission(kind, record, signature);
    SubmissionMembers(kind, record, signature);
    KeyLength(kind);
    hide *;
    NamesLength();
    ThreeMembers(v, "record", "signature", "type");
    MemberIs(v, "record");
    MemberIs(v, "signature");
    MemberIs(v, "type");
  }

  // ---- What a request can hold

  // The message came in a request that the server reads: of at most 64 KiB, in any form (naming.py:381).
  ghost predicate Came(message: Value)
  {
    exists payload :: |payload| <= MAX_REQUEST_SIZE && Decode(payload) == Some(message)
  }

  // In canonical form it may take six times as much.
  lemma CameAtMostSixfold(message: Value)
    requires Came(message)
    ensures |Canonical(message)| <= 6 * MAX_REQUEST_SIZE
  {
    hide Decode;
    hide Canonical;
    var payload :| |payload| <= MAX_REQUEST_SIZE && Decode(payload) == Some(message);
    PrintsAtMostSixfold(payload);
  }

  lemma CameCanonically(message: Value)
    requires FloatFree(message) && |Canonical(message)| <= MAX_REQUEST_SIZE
    ensures Came(message)
  {
    hide Decode;
    hide Canonical;
    DecodesCanonical(message);
  }

  // One record that came always fits in an answer of its own.
  lemma OneFits(kind: string, other: string, record: Value, signature: string)
    requires Word(kind) && Word(other) && |other| <= 100 && Came(Submission(kind, record, signature))
    ensures |Canonical(Submission(other, record, signature))| <= MAX_MSG_SIZE
  {
    hide Canonical;
    hide Came;
    CameAtMostSixfold(Submission(kind, record, signature));
    SubmissionLength(kind, record, signature);
    SubmissionLength(other, record, signature);
  }

  lemma CameEntry(kind: string, record: Value, signature: string)
    requires Word(kind) && Came(Submission(kind, record, signature))
    ensures |Canonical(EntryOf(record, signature))| <= 6 * MAX_REQUEST_SIZE
  {
    hide Canonical;
    hide Came;
    CameAtMostSixfold(Submission(kind, record, signature));
    SubmissionLength(kind, record, signature);
    EntryLength(record, signature);
  }

  // So do two.
  lemma TwoFit(kind: string, entries: seq<Value>)
    requires Word(kind) && |kind| <= 100 && |entries| <= 2
    requires forall x | x in entries :: |Canonical(x)| <= 6 * MAX_REQUEST_SIZE
    ensures |Canonical(RecordsAnswer(kind, entries))| <= MAX_MSG_SIZE
  {
    hide Canonical;
    AnswerLength(kind, entries);
    ItemsLengthAtMost(entries, 6 * MAX_REQUEST_SIZE);
  }

  // Several long ones do not.
  lemma LongDoNotFit(kind: string, entries: seq<Value>, n: nat, each: nat)
    requires Word(kind) && n <= |entries| && each * n >= MAX_MSG_SIZE
    requires forall i | 0 <= i < n :: |Canonical(entries[i])| >= each
    ensures |Canonical(RecordsAnswer(kind, entries))| > MAX_MSG_SIZE
  {
    hide Canonical;
    AnswerLength(kind, entries);
    ItemsLengthAtLeast(entries, n, each);
  }

  // ---- Requests whose first text is not escaped

  // The request with the first of the record's members, a text, as it is.
  function RawSubmission(kind: string, record: Value, signature: string, keys: seq<string>, text: string): bytes
    requires Lists(record, keys) && keys != []
  {
    SubmissionMembers(kind, record, signature);
    Respelt(Submission(kind, record, signature), SUBMITTED, Respelt(record, keys, RawQuoted(text)))
  }

  // It is read as if it came in canonical form, and saves what escaping the text costs.
  lemma RawSubmissionIsRead(kind: string, record: Value, signature: string, keys: seq<string>, text: string)
    requires record.Object? && FloatFree(record) && Distinct(keys) && keys != []
    requires forall k :: k in keys <==> k in record.members
    requires record.members[keys[0]] == Str(text) && Literal(text)
    ensures Lists(record, keys)
    ensures Decode(RawSubmission(kind, record, signature, keys, text)) == Some(Submission(kind, record, signature))
    ensures |RawSubmission(kind, record, signature, keys, text)| + |Escaped(text)| ==
      |Canonical(Submission(kind, record, signature))| + |Utf8(text)|
  {
    var v := Submission(kind, record, signature);
    SubmissionMembers(kind, record, signature);
    assert SUBMITTED == ["record", "signature", "type"];
    assert forall k :: k in SUBMITTED <==> k in v.members.Keys;
    RawQuotes(text);
    RawSpells(text);
    var inner := Respelt(record, keys, RawQuoted(text));
    assert Distinct(SUBMITTED);
    assert SUBMITTED[0] == "record" && SUBMITTED != [];
    hide *;
    RespeltSpells(record, keys, RawQuoted(text));
    RespeltSaves(record, keys, RawQuoted(text));
    RespeltSpells(v, SUBMITTED, inner);
    RespeltSaves(v, SUBMITTED, inner);
    RawIs(kind, record, signature, keys, text);
    SpelledIsRead(RawSubmission(kind, record, signature, keys, text), v);
  }

  lemma RawQuotes(text: string)
    ensures |RawQuoted(text)| + |Escaped(text)| == |Canonical(Str(text))| + |Utf8(text)|
  {
  }

  lemma RawIs(kind: string, record: Value, signature: string, keys: seq<string>, text: string)
    requires Lists(record, keys) && keys != [] && Lists(Submission(kind, record, signature), SUBMITTED)
    ensures RawSubmission(kind, record, signature, keys, text) ==
      Respelt(Submission(kind, record, signature), SUBMITTED, Respelt(record, keys, RawQuoted(text)))
  {
  }

  lemma CameRaw(kind: string, record: Value, signature: string, keys: seq<string>, text: string)
    requires record.Object? && FloatFree(record) && Distinct(keys) && keys != []
    requires forall k :: k in keys <==> k in record.members
    requires record.members[keys[0]] == Str(text) && Literal(text)
    requires |Canonical(Submission(kind, record, signature))| + |Utf8(text)| <= MAX_REQUEST_SIZE + |Escaped(text)|
    ensures Came(Submission(kind, record, signature))
  {
    hide Decode;
    hide Canonical;
    hide Submission;
    hide RawSubmission;
    hide FloatFree;
    hide Utf8;
    hide Escaped;
    hide Distinct;
    RawSubmissionIsRead(kind, record, signature, keys, text);
    var payload := RawSubmission(kind, record, signature, keys, text);
    assert |payload| <= MAX_REQUEST_SIZE;
  }
}
