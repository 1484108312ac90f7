/**
 The naming server's four stores (naming.py:90-352). Each class holds one dictionary and changes it in
 place; what a call does is given by a function of the old contents.
 */
module Stores {
  import opened Answers
  import opened Json
  import opened PyDict
  import opened Wrappers

  datatype NameRecord =
    NameRecord(uri: string, author: string, publicKey: string, manifestRef: string, timestamp: JsonInt)

  // A name record as JSON (bundle/name_records.py:77-83).
  function RecordValue(r: NameRecord): Value
  {
    Object(map["uri" := Str(r.uri), "author" := Str(r.author), "public_key" := Str(r.publicKey),
               "manifest_ref" := Str(r.manifestRef), "timestamp" := Integer(r.timestamp)])
  }

  datatype OptIn =
    OptIn(publicKey: string, peerId: string, addrs: seq<string>, categories: seq<string>, timestamp: int)

  datatype Assignment = Assignment(
    uri: string, contentKey: string, publisher: string, reviewers: seq<string>, deadline: JsonInt, timestamp: JsonInt)

  // An assignment as JSON (review/record.py:152-160).
  function AssignmentValue(a: Assignment): Value
  {
    Object(map["uri" := Str(a.uri), "content_key" := Str(a.contentKey), "publisher_public_key" := Str(a.publisher),
               "reviewer_public_keys" := Array(Texts(a.reviewers)), "deadline" := Integer(a.deadline),
               "timestamp" := Integer(a.timestamp)])
  }

  datatype Review =
    Review(contentKey: string, reviewer: string, verdict: string, comment: string, timestamp: JsonInt)

  // A review as JSON (review/record.py:238-244).
  function ReviewValue(r: Review): Value
  {
    Object(map["content_key" := Str(r.contentKey), "reviewer_public_key" := Str(r.reviewer),
               "verdict" := Str(r.verdict), "comment" := Str(r.comment), "timestamp" := Integer(r.timestamp)])
  }

  datatype Signed<+R> = Signed(record: R, signature: string)

  // How a client asks for a registration (naming.py:647-654).
  function RegisterRequest(s: Signed<NameRecord>): Value
  {
    Submission("register", RecordValue(s.record), s.signature)
  }

  // The answer to a client that asks for a name (naming.py:456).
  function ResolveAnswer(s: Signed<NameRecord>): Value
  {
    Submission("record", RecordValue(s.record), s.signature)
  }

  datatype Refusal =
    | NameTaken
    | NotNewer
    | MissingField
    | Disabled
    | SignatureRequired
    | BadUri
    | NotVerified
    | TooManyReviewers
    | DuplicateReviewer
    | UnregisteredReviewer
    | NotAssigned
    | AfterDeadline

  // ---- Names

  type Names = Dict<string, Signed<NameRecord>>

  function NameRefusal(d: Names, uri: string, s: Signed<NameRecord>): Option<Refusal>
  {
    if !d.Has(uri) then None
    else if d.vals[uri].record.publicKey != s.record.publicKey then Some(NameTaken)
    else if s.record.timestamp <= d.vals[uri].record.timestamp then Some(NotNewer)
    else None
  }

  function SetName(d: Names, uri: string, s: Signed<NameRecord>): Names
  {
    if NameRefusal(d, uri, s).None? then d.Put(uri, s) else d
  }

  // A name keeps its first key and only moves to newer records; no name is ever dropped or moved.
  ghost predicate NamesGrow(a: Names, b: Names)
  {
    && a.keys <= b.keys
    && forall u | u in a.vals ::
        && u in b.vals
        && b.vals[u].record.publicKey == a.vals[u].record.publicKey
        && b.vals[u].record.timestamp >= a.vals[u].record.timestamp
        && (b.vals[u].record.timestamp == a.vals[u].record.timestamp ==> b.vals[u] == a.vals[u])
  }

  lemma SetNameGrows(d: Names, uri: string, s: Signed<NameRecord>)
    ensures NamesGrow(d, SetName(d, uri, s))
    ensures d.Valid() ==> SetName(d, uri, s).Valid()
  {
  }

  lemma NamesGrowTransitive(a: Names, b: Names, c: Names)
    requires NamesGrow(a, b) && NamesGrow(b, c)
    ensures NamesGrow(a, c)
  {
  }

  class NameStore {
    var records: Names

    constructor ()
      ensures records == Empty()
    {
      records := Empty();
    }

    method Set(uri: string, s: Signed<NameRecord>) returns (refusal: Option<Refusal>)
      modifies this
      ensures refusal == NameRefusal(old(records), uri, s)
      ensures records == SetName(old(records), uri, s)
    {
      if records.Has(uri) {
        var existing := records.vals[uri].record;
        if existing.publicKey != s.record.publicKey {
          return Some(NameTaken);
        }
        if s.record.timestamp <= existing.timestamp {
          return Some(NotNewer);
        }
      }
      records := records.Put(uri, s);
      refusal := None;
    }
  }

  // ---- Reviewers

  type Reviewers = Dict<string, Signed<OptIn>>

  function ReviewerRefusal(d: Reviewers, s: Signed<OptIn>): Option<Refusal>
  {
    if s.record.publicKey == "" then Some(MissingField)
    else if d.Has(s.record.publicKey) && s.record.timestamp <= d.vals[s.record.publicKey].record.timestamp then
      Some(NotNewer)
    else None
  }

  function SetReviewer(d: Reviewers, s: Signed<OptIn>): Reviewers
  {
    if ReviewerRefusal(d, s).None? then d.Put(s.record.publicKey, s) else d
  }

  class ReviewerStore {
    var records: Reviewers

    constructor ()
      ensures records == Empty()
    {
      records := Empty();
    }

    method Set(s: Signed<OptIn>) returns (refusal: Option<Refusal>)
      modifies this
      ensures refusal == ReviewerRefusal(old(records), s)
      ensures records == SetReviewer(old(records), s)
    {
      var key := s.record.publicKey;
      if key == "" {
        return Some(MissingField);
      }
      if records.Has(key) && s.record.timestamp <= records.vals[key].record.timestamp {
        return Some(NotNewer);
      }
      records := records.Put(key, s);
      refusal := None;
    }
  }

  // ---- Inboxes: one per reviewer, one slot per content

  type Inbox = map<string, Dict<string, Signed<Assignment>>>

  function Slot(inbox: Inbox, reviewer: string, contentKey: string): Option<Signed<Assignment>>
  {
    if reviewer in inbox && inbox[reviewer].Has(contentKey) then Some(inbox[reviewer].vals[contentKey]) else None
  }

  // The entry for one reviewer: kept when it is as recent, replaced otherwise.
  function Deliver(inbox: Inbox, reviewer: string, s: Signed<Assignment>): Inbox
  {
    var box := if reviewer in inbox then inbox[reviewer] else Empty();
    var key := s.record.contentKey;
    if box.Has(key) && box.vals[key].record.timestamp >= s.record.timestamp then inbox[reviewer := box]
    else inbox[reviewer := box.Put(key, s)]
  }

  // Delivery to the reviewers from the i-th on.
  function DeliverFrom(inbox: Inbox, s: Signed<Assignment>, i: nat): Inbox
    requires i <= |s.record.reviewers|
    decreases |s.record.reviewers| - i
  {
    if i == |s.record.reviewers| then inbox
    else DeliverFrom(Deliver(inbox, s.record.reviewers[i], s), s, i + 1)
  }

  function AddRefusal(s: Signed<Assignment>): Option<Refusal>
  {
    if s.record.contentKey == "" || s.record.reviewers == [] then Some(MissingField) else None
  }

  function AddAssignment(inbox: Inbox, s: Signed<Assignment>): Inbox
  {
    if AddRefusal(s).None? then DeliverFrom(inbox, s, 0) else inbox
  }

  class AssignmentStore {
    var inbox: Inbox

    constructor ()
      ensures inbox == map[]
    {
      inbox := map[];
    }

    // An accepted assignment may still leave every slot as it was: newer ones are kept.
    method Add(s: Signed<Assignment>) returns (refusal: Option<Refusal>)
      modifies this
      ensures refusal == AddRefusal(s)
      ensures inbox == AddAssignment(old(inbox), s)
    {
      var key, reviewers := s.record.contentKey, s.record.reviewers;
      if key == "" || reviewers == [] {
        return Some(MissingField);
      }
      for i := 0 to |reviewers|
        invariant DeliverFrom(inbox, s, i) == DeliverFrom(old(inbox), s, 0)
      {
        var reviewer := reviewers[i];
        var box := if reviewer in inbox then inbox[reviewer] else Empty();
        if !(box.Has(key) && box.vals[key].record.timestamp >= s.record.timestamp) {
          box := box.Put(key, s);
        }
        inbox := inbox[reviewer := box];
      }
      refusal := None;
    }
  }

  // ---- Attachments: per content, one review per reviewer

  type Attachments = map<string, Dict<string, Signed<Review>>>

  function Attached(a: Attachments, contentKey: string, reviewer: string): Option<Signed<Review>>
  {
    if contentKey in a && a[contentKey].Has(reviewer) then Some(a[contentKey].vals[reviewer]) else None
  }

  function AttachRefusal(a: Attachments, s: Signed<Review>): Option<Refusal>
  {
    if s.record.contentKey == "" || s.record.reviewer == "" then Some(MissingField)
    else
      var existing := Attached(a, s.record.contentKey, s.record.reviewer);
      if existing.Some? && existing.value.record.timestamp >= s.record.timestamp then Some(NotNewer) else None
  }

  function AttachReviewTo(a: Attachments, s: Signed<Review>): Attachments
  {
    if AttachRefusal(a, s).Some? then a
    else
      var key := s.record.contentKey;
      a[key := (if key in a then a[key] else Empty()).Put(s.record.reviewer, s)]
  }

  class AttachmentStore {
    var attachments: Attachments

    constructor ()
      ensures attachments == map[]
    {
      attachments := map[];
    }

    method Attach(s: Signed<Review>) returns (refusal: Option<Refusal>)
      modifies this
      ensures refusal == AttachRefusal(old(attachments), s)
      ensures attachments == AttachReviewTo(old(attachments), s)
    {
      var key, reviewer := s.record.contentKey, s.record.reviewer;
      if key == "" || reviewer == "" {
        return Some(MissingField);
      }
      var slot := if key in attachments then attachments[key] else Empty();
      attachments := attachments[key := slot];
      if slot.Has(reviewer) && slot.vals[reviewer].record.timestamp >= s.record.timestamp {
        return Some(NotNewer);
      }
      attachments := attachments[key := slot.Put(reviewer, s)];
      refusal := None;
    }

    method GetFor(contentKey: string) returns (r: seq<Signed<Review>>)
      requires contentKey in attachments ==> attachments[contentKey].Valid()
      ensures r == if contentKey in attachments then attachments[contentKey].Values() else []
    {
      r := if contentKey in attachments then attachments[contentKey].Values() else [];
    }
  }
}
