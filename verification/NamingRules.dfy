/**
 When the naming server refuses a request, and with what reason (naming.py:415-597): for each kind of request a table
 of what has to be wrong, and what right before that, in terms of signatures, keys, dates and what the stores hold.
 Exactly one line of a table applies, and a request none of whose faults is present is accepted.
 */
module NamingRules {
  import opened NamingServer
  import opened Paths
  import opened Stores
  import opened Wrappers

  // The record's date is at most five minutes from the server's clock.
  ghost predicate Near(now: int, timestamp: int) { now - 300 <= timestamp <= now + 300 }

  // ---- Names

  ghost predicate SignedName(lib: Library, s: Signed<NameRecord>, now: int)
  {
    Near(now, s.record.timestamp) && lib.verified(s.record.publicKey, s.signature, Name(s.record))
  }

  ghost predicate HeldBy(st: State, uri: string, key: string)
  {
    uri in st.names.vals && st.names.vals[uri].record.publicKey == key
  }

  lemma RegisterTable(lib: Library, st: State, s: Signed<NameRecord>, now: int)
    ensures var r, uri, key := RegisterRefusal(lib, st, s, now), s.record.uri, s.record.publicKey;
      var sound := s.signature != "" && ValidUri(uri) && SignedName(lib, s, now);
      && (r == Some(SignatureRequired) <==> s.signature == "")
      && (r == Some(BadUri) <==> s.signature != "" && !ValidUri(uri))
      && (r == Some(NotVerified) <==> s.signature != "" && ValidUri(uri) && !SignedName(lib, s, now))
      && (r == Some(NameTaken) <==> sound && uri in st.names.vals && !HeldBy(st, uri, key))
      && (r == Some(NotNewer) <==>
          sound && HeldBy(st, uri, key) && s.record.timestamp <= st.names.vals[uri].record.timestamp)
      && (r == None <==>
          sound && (uri in st.names.vals ==>
            HeldBy(st, uri, key) && st.names.vals[uri].record.timestamp < s.record.timestamp))
  {
    UriRulesAgree(s.record.uri);
    hide ValidUri;
    hide PyValidUri;
  }

  // ---- Reviewers

  ghost predicate SignedOptIn(lib: Library, s: Signed<OptIn>, now: int)
  {
    && s.record.peerId != "" && Near(now, s.record.timestamp)
    && lib.verified(s.record.publicKey, s.signature, Opt(s.record))
  }

  lemma ReviewerTable(cfg: Config, lib: Library, st: State, s: Signed<OptIn>, now: int)
    ensures var r, key := RegisterReviewerRefusal(cfg, lib, st, s, now), s.record.publicKey;
      var sound := cfg.hasReviewers && s.signature != "" && SignedOptIn(lib, s, now);
      && (r == Some(Disabled) <==> !cfg.hasReviewers)
      && (r == Some(SignatureRequired) <==> cfg.hasReviewers && s.signature == "")
      && (r == Some(NotVerified) <==> cfg.hasReviewers && s.signature != "" && !SignedOptIn(lib, s, now))
      && (r == Some(MissingField) <==> sound && key == "")
      && (r == Some(NotNewer) <==>
          sound && key != "" && key in st.reviewers.vals &&
          s.record.timestamp <= st.reviewers.vals[key].record.timestamp)
      && (r == None <==>
          sound && key != "" && (key in st.reviewers.vals ==>
            st.reviewers.vals[key].record.timestamp < s.record.timestamp))
  {
  }

  // ---- Assignments

  ghost predicate SignedAssignment(lib: Library, s: Signed<Assignment>, now: int)
  {
    var a := s.record;
    && 0 < a.deadline && Near(now, a.timestamp)
    && a.contentKey == lib.contentKey(a.uri, a.publisher)
    && lib.verified(a.publisher, s.signature, Assign(a))
  }

  ghost predicate Repeats(rs: seq<string>) { exists i, j :: 0 <= i < j < |rs| && rs[i] == rs[j] }

  ghost predicate AllEnrolled(st: State, rs: seq<string>) { forall r | r in rs :: r in st.reviewers.vals }

  lemma AssignmentTable(cfg: Config, lib: Library, st: State, s: Signed<Assignment>, now: int)
    ensures var r, rs := PostRefusal(cfg, lib, st, s, now), s.record.reviewers;
      var signed := cfg.hasInbox && s.signature != "" && SignedAssignment(lib, s, now);
      var fair := cfg.strict ==> |rs| <= 16 && !Repeats(rs) && (cfg.hasReviewers ==> AllEnrolled(st, rs));
      && (r == Some(Disabled) <==> !cfg.hasInbox)
      && (r == Some(SignatureRequired) <==> cfg.hasInbox && s.signature == "")
      && (r == Some(NotVerified) <==> cfg.hasInbox && s.signature != "" && !SignedAssignment(lib, s, now))
      && (r == Some(TooManyReviewers) <==> signed && cfg.strict && |rs| > 16)
      && (r == Some(DuplicateReviewer) <==> signed && cfg.strict && |rs| <= 16 && Repeats(rs))
      && (r == Some(UnregisteredReviewer) <==>
          signed && cfg.strict && |rs| <= 16 && !Repeats(rs) && cfg.hasReviewers && !AllEnrolled(st, rs))
      && (r == Some(MissingField) <==> signed && fair && (s.record.contentKey == "" || rs == []))
      && (r == None <==> signed && fair && s.record.contentKey != "" && rs != [])
  {
  }

  // ---- Reviews

  ghost predicate SignedReview(lib: Library, s: Signed<Review>, now: int)
  {
    && Near(now, s.record.timestamp) && s.record.verdict in {"ok", "warn", "reject"}
    && lib.verified(s.record.reviewer, s.signature, Rev(s.record))
  }

  // The reviewer's inbox holds an assignment of the content.
  ghost predicate AssignedTo(st: State, r: Review)
  {
    r.reviewer in st.inbox && r.contentKey in st.inbox[r.reviewer].vals
  }

  ghost function DeadlineOf(st: State, r: Review): int
    requires AssignedTo(st, r)
  {
    st.inbox[r.reviewer].vals[r.contentKey].record.deadline
  }

  // A review of the same content by the same reviewer is attached that is as recent.
  ghost predicate AsRecent(st: State, r: Review)
  {
    && r.contentKey in st.attachments && r.reviewer in st.attachments[r.contentKey].vals
    && r.timestamp <= st.attachments[r.contentKey].vals[r.reviewer].record.timestamp
  }

  lemma ReviewTable(cfg: Config, lib: Library, st: State, s: Signed<Review>, now: int)
    ensures var refusal, r := AttachReviewRefusal(cfg, lib, st, s, now), s.record;
      var signed := cfg.hasAttachments && s.signature != "" && SignedReview(lib, s, now);
      var due := cfg.strict ==> cfg.hasInbox && AssignedTo(st, r) && r.timestamp <= DeadlineOf(st, r);
      && (refusal == Some(Disabled) <==> !cfg.hasAttachments || (signed && cfg.strict && !cfg.hasInbox))
      && (refusal == Some(SignatureRequired) <==> cfg.hasAttachments && s.signature == "")
      && (refusal == Some(NotVerified) <==> cfg.hasAttachments && s.signature != "" && !SignedReview(lib, s, now))
      && (refusal == Some(NotAssigned) <==> signed && cfg.strict && cfg.hasInbox && !AssignedTo(st, r))
      && (refusal == Some(AfterDeadline) <==>
          signed && cfg.strict && cfg.hasInbox && AssignedTo(st, r) && DeadlineOf(st, r) < r.timestamp)
      && (refusal == Some(MissingField) <==> signed && due && (r.contentKey == "" || r.reviewer == ""))
      && (refusal == Some(NotNewer) <==>
          signed && due && r.contentKey != "" && r.reviewer != "" && AsRecent(st, r))
      && (refusal == None <==> signed && due && r.contentKey != "" && r.reviewer != "" && !AsRecent(st, r))
  {
  }
}
