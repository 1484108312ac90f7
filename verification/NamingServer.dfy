/**
 The naming server's request handlers (naming.py:357-609). `Step` gives the outcome of a request on the
 four stores; the class changes the store objects as the program does. Records arrive typed: the tests
 that a field is present and of its JSON type have been made.
 */
module NamingServer {
  import opened Paths
  import opened PyDict
  import opened Stores
  import opened Wrappers

  const MAX_DRIFT := 300
  const MAX_REVIEWERS_PER_ASSIGNMENT := 16

  datatype Payload = Name(name: NameRecord) | Opt(optIn: OptIn) | Assign(assignment: Assignment) | Rev(review: Review)

  // The key that has to sign it.
  function SignerOf(x: Payload): string
  {
    match x
    case Name(r) => r.publicKey
    case Opt(o) => o.publicKey
    case Assign(a) => a.publisher
    case Rev(r) => r.reviewer
  }

  // `verified(key, signature, payload)`: the signature decodes and signs the payload's canonical JSON.
  datatype Library = Library(
    verified: (string, string, Payload) -> bool,
    contentKey: (string, string) -> string)

  // Which stores the server was given, and whether the review rules are on (they are by default).
  datatype Config = Config(strict: bool, hasReviewers: bool, hasInbox: bool, hasAttachments: bool)

  datatype State = State(names: Names, reviewers: Reviewers, inbox: Inbox, attachments: Attachments)

  function Start(): State { State(Empty(), Empty(), map[], map[]) }

  datatype Request =
    | Register(name: Signed<NameRecord>)
    | RegisterReviewer(optIn: Signed<OptIn>)
    | PostAssignment(assignment: Signed<Assignment>)
    | AttachReview(review: Signed<Review>)
    | Read

  function Distance(a: int, b: int): nat { if a < b then b - a else a - b }

  predicate Timely(now: int, timestamp: int) { Distance(now, timestamp) <= MAX_DRIFT }

  // review/record.py:169-214
  predicate VerifyAssignment(lib: Library, s: Signed<Assignment>, now: int)
  {
    && s.record.deadline > 0
    && s.record.contentKey == lib.contentKey(s.record.uri, s.record.publisher)
    && Timely(now, s.record.timestamp)
    && lib.verified(s.record.publisher, s.signature, Assign(s.record))
  }

  // review/record.py:258-292
  predicate VerifyReview(lib: Library, s: Signed<Review>)
  {
    s.record.verdict in {"ok", "warn", "reject"} && lib.verified(s.record.reviewer, s.signature, Rev(s.record))
  }

  predicate NoDuplicates(rs: seq<string>) { forall i, j | 0 <= i < j < |rs| :: rs[i] != rs[j] }

  // `_check_assignment_reviewers`
  function CheckReviewers(cfg: Config, reviewers: Reviewers, a: Assignment): Option<Refusal>
  {
    if |a.reviewers| > MAX_REVIEWERS_PER_ASSIGNMENT then Some(TooManyReviewers)
    else if !NoDuplicates(a.reviewers) then Some(DuplicateReviewer)
    else if cfg.hasReviewers && exists r | r in a.reviewers :: !reviewers.Has(r) then Some(UnregisteredReviewer)
    else None
  }

  // `_check_review_was_assigned`
  function CheckAssigned(cfg: Config, inbox: Inbox, r: Review): Option<Refusal>
  {
    if !cfg.hasInbox then Some(Disabled)
    else
      var a := Slot(inbox, r.reviewer, r.contentKey);
      if a.None? then Some(NotAssigned)
      else if r.timestamp > a.value.record.deadline then Some(AfterDeadline)
      else None
  }

  function RegisterRefusal(lib: Library, st: State, s: Signed<NameRecord>, now: int): Option<Refusal>
  {
    if s.signature == "" then Some(SignatureRequired)
    else if !PyValidUri(s.record.uri) then Some(BadUri)
    else if !Timely(now, s.record.timestamp) || !lib.verified(s.record.publicKey, s.signature, Name(s.record)) then
      Some(NotVerified)
    else NameRefusal(st.names, s.record.uri, s)
  }

  function RegisterReviewerRefusal(cfg: Config, lib: Library, st: State, s: Signed<OptIn>, now: int): Option<Refusal>
  {
    if !cfg.hasReviewers then Some(Disabled)
    else if s.signature == "" then Some(SignatureRequired)
    else if s.record.peerId == "" || !Timely(now, s.record.timestamp) ||
      !lib.verified(s.record.publicKey, s.signature, Opt(s.record)) then Some(NotVerified)
    else ReviewerRefusal(st.reviewers, s)
  }

  function PostRefusal(cfg: Config, lib: Library, st: State, s: Signed<Assignment>, now: int): Option<Refusal>
  {
    if !cfg.hasInbox then Some(Disabled)
    else if s.signature == "" then Some(SignatureRequired)
    else if !VerifyAssignment(lib, s, now) then Some(NotVerified)
    else if cfg.strict && CheckReviewers(cfg, st.reviewers, s.record).Some? then
      CheckReviewers(cfg, st.reviewers, s.record)
    else AddRefusal(s)
  }

  function AttachReviewRefusal(cfg: Config, lib: Library, st: State, s: Signed<Review>, now: int): Option<Refusal>
  {
    if !cfg.hasAttachments then Some(Disabled)
    else if s.signature == "" then Some(SignatureRequired)
    else if !Timely(now, s.record.timestamp) || !VerifyReview(lib, s) then Some(NotVerified)
    else if cfg.strict && CheckAssigned(cfg, st.inbox, s.record).Some? then CheckAssigned(cfg, st.inbox, s.record)
    else AttachRefusal(st.attachments, s)
  }

  function Refused(cfg: Config, lib: Library, st: State, req: Request, now: int): Option<Refusal>
  {
    match req
    case Register(s) => RegisterRefusal(lib, st, s, now)
    case RegisterReviewer(s) => RegisterReviewerRefusal(cfg, lib, st, s, now)
    case PostAssignment(s) => PostRefusal(cfg, lib, st, s, now)
    case AttachReview(s) => AttachReviewRefusal(cfg, lib, st, s, now)
    case Read => None
  }

  // The stores after a request: a refused one changes nothing.
  function Step(cfg: Config, lib: Library, st: State, req: Request, now: int): State
  {
    if Refused(cfg, lib, st, req, now).Some? then st
    else
      match req
      case Register(s) => st.(names := SetName(st.names, s.record.uri, s))
      case RegisterReviewer(s) => st.(reviewers := SetReviewer(st.reviewers, s))
      case PostAssignment(s) => st.(inbox := AddAssignment(st.inbox, s))
      case AttachReview(s) => st.(attachments := AttachReviewTo(st.attachments, s))
      case Read => st
  }

  // What a client that asks for a name is answered; None stands for an error.
  function Resolved(st: State, uri: string): Option<Signed<NameRecord>>
  {
    if PyValidUri(uri) && st.names.Has(uri) then Some(st.names.vals[uri]) else None
  }

  // ---- The server object

  class Server {
    const lib: Library
    const strict: bool
    const store: NameStore
    const reviewerStore: ReviewerStore?
    const assignmentStore: AssignmentStore?
    const attachmentStore: AttachmentStore?

    constructor (lib: Library, store: NameStore, reviewerStore: ReviewerStore?, assignmentStore: AssignmentStore?,
                 attachmentStore: AttachmentStore?, strict: bool := true)
      ensures this.lib == lib && this.strict == strict && this.store == store && this.reviewerStore == reviewerStore
      ensures this.assignmentStore == assignmentStore && this.attachmentStore == attachmentStore
    {
      this.lib := lib;
      this.strict := strict;
      this.store := store;
      this.reviewerStore := reviewerStore;
      this.assignmentStore := assignmentStore;
      this.attachmentStore := attachmentStore;
    }

    ghost function Configuration(): Config
    {
      Config(strict, reviewerStore != null, assignmentStore != null, attachmentStore != null)
    }

    // The contents of the stores; a store the server was not given counts as empty.
    ghost function Contents(): State
      reads store, reviewerStore, assignmentStore, attachmentStore
    {
      State(store.records,
            if reviewerStore == null then Empty() else reviewerStore.records,
            if assignmentStore == null then map[] else assignmentStore.inbox,
            if attachmentStore == null then map[] else attachmentStore.attachments)
    }

    method HandleRegister(s: Signed<NameRecord>, now: int) returns (refusal: Option<Refusal>)
      modifies store
      ensures refusal == RegisterRefusal(lib, old(Contents()), s, now)
      ensures Contents() == Step(Configuration(), lib, old(Contents()), Register(s), now)
    {
      if s.signature == "" {
        return Some(SignatureRequired);
      }
      if !PyValidUri(s.record.uri) {
        return Some(BadUri);
      }
      if !Timely(now, s.record.timestamp) || !lib.verified(s.record.publicKey, s.signature, Name(s.record)) {
        return Some(NotVerified);
      }
      refusal := store.Set(s.record.uri, s);
    }

    method HandleRegisterReviewer(s: Signed<OptIn>, now: int) returns (refusal: Option<Refusal>)
      modifies if reviewerStore == null then {} else {reviewerStore}
      ensures refusal == RegisterReviewerRefusal(Configuration(), lib, old(Contents()), s, now)
      ensures Contents() == Step(Configuration(), lib, old(Contents()), RegisterReviewer(s), now)
    {
      if reviewerStore == null {
        return Some(Disabled);
      }
      if s.signature == "" {
        return Some(SignatureRequired);
      }
      if s.record.peerId == "" || !Timely(now, s.record.timestamp) ||
        !lib.verified(s.record.publicKey, s.signature, Opt(s.record)) {
        return Some(NotVerified);
      }
      refusal := reviewerStore.Set(s);
    }

    method HandlePostAssignment(s: Signed<Assignment>, now: int) returns (refusal: Option<Refusal>)
      modifies if assignmentStore == null then {} else {assignmentStore}
      ensures refusal == PostRefusal(Configuration(), lib, old(Contents()), s, now)
      ensures Contents() == Step(Configuration(), lib, old(Contents()), PostAssignment(s), now)
    {
      if assignmentStore == null {
        return Some(Disabled);
      }
      if s.signature == "" {
        return Some(SignatureRequired);
      }
      if !VerifyAssignment(lib, s, now) {
        return Some(NotVerified);
      }
      if strict {
        refusal := CheckAssignmentReviewers(s.record);
        if refusal.Some? {
          return;
        }
      }
      refusal := assignmentStore.Add(s);
    }

    method CheckAssignmentReviewers(a: Assignment) returns (refusal: Option<Refusal>)
      ensures refusal == CheckReviewers(Configuration(), Contents().reviewers, a)
    {
      var reviewers := a.reviewers;
      if |reviewers| > MAX_REVIEWERS_PER_ASSIGNMENT {
        return Some(TooManyReviewers);
      }
      if !NoDuplicates(reviewers) {
        return Some(DuplicateReviewer);
      }
      if reviewerStore != null {
        if exists r | r in reviewers :: !reviewerStore.records.Has(r) {
          return Some(UnregisteredReviewer);
        }
      }
      refusal := None;
    }

    method HandleAttachReview(s: Signed<Review>, now: int) returns (refusal: Option<Refusal>)
      modifies if attachmentStore == null then {} else {attachmentStore}
      ensures refusal == AttachReviewRefusal(Configuration(), lib, old(Contents()), s, now)
      ensures Contents() == Step(Configuration(), lib, old(Contents()), AttachReview(s), now)
    {
      if attachmentStore == null {
        return Some(Disabled);
      }
      if s.signature == "" {
        return Some(SignatureRequired);
      }
      if !Timely(now, s.record.timestamp) || !VerifyReview(lib, s) {
        return Some(NotVerified);
      }
      if strict {
        refusal := CheckReviewWasAssigned(s.record);
        if refusal.Some? {
          return;
        }
      }
      refusal := attachmentStore.Attach(s);
    }

    method CheckReviewWasAssigned(r: Review) returns (refusal: Option<Refusal>)
      ensures refusal == CheckAssigned(Configuration(), Contents().inbox, r)
    {
      if assignmentStore == null {
        return Some(Disabled);
      }
      var assignment := Slot(assignmentStore.inbox, r.reviewer, r.contentKey);
      if assignment.None? {
        return Some(NotAssigned);
      }
      if r.timestamp > assignment.value.record.deadline {
        return Some(AfterDeadline);
      }
      refusal := None;
    }

    method HandleResolve(uri: string) returns (r: Option<Signed<NameRecord>>)
      ensures r == Resolved(Contents(), uri)
    {
      if !PyValidUri(uri) || !store.records.Has(uri) {
        return None;
      }
      r := Some(store.records.vals[uri]);
    }
  }
}
