/**
 What a reader gets to see of the reviews (naming.py:599-609, peer/peer.py:585-617). All reviews of a content come
 in one answer; one that is too long becomes an error, which the reader takes for no reviews at all.
 */
module Reading {
  import opened Answers
  import opened Json
  import opened Messages
  import opened Moderation
  import opened NamingHistory
  import opened NamingServer
  import opened Ordering
  import opened Printer
  import opened Scoring
  import opened Stores
  import opened Text

  // ---- The answer

  function EntryValue(s: Signed<Review>): Value { EntryOf(ReviewValue(s.record), s.signature) }

  function EntryValues(entries: seq<Signed<Review>>): (r: seq<Value>)
    ensures |r| == |entries|
  {
    seq(|entries|, i requires 0 <= i < |entries| => EntryValue(entries[i]))
  }

  function AttachmentsAnswer(entries: seq<Signed<Review>>): Value
  {
    RecordsAnswer("attachments", EntryValues(entries))
  }

  ghost predicate AnswerFits(entries: seq<Signed<Review>>)
  {
    |Canonical(AttachmentsAnswer(entries))| <= MAX_MSG_SIZE
  }

  // The entries the reader works with.
  ghost function Received(st: State, contentKey: string): seq<Signed<Review>>
    requires contentKey in st.attachments ==> st.attachments[contentKey].Valid()
  {
    if AnswerFits(Served(st, contentKey)) then Served(st, contentKey) else []
  }

  // What the reader does with the content.
  ghost function Verdict(lib: Library, st: State, contentKey: string, r: Visitor): Decision
    requires contentKey in st.attachments ==> st.attachments[contentKey].Valid()
  {
    Decide(Score(r, ToSignals(lib, Received(st, contentKey), contentKey)), r.policy)
  }

  // ---- When it fits

  // The reader sees the reviews exactly when their texts, and the commas between them, leave room for the rest.
  lemma AnswerFitsExactly(entries: seq<Signed<Review>>)
    ensures AnswerFits(entries) <==>
      33 + ItemsLength(EntryValues(entries)) + (if entries == [] then 2 else |entries| + 1) <= MAX_MSG_SIZE
  {
    hide Canonical;
    hide RecordsAnswer;
    AnswerLength("attachments", EntryValues(entries));
  }

  // How a review is sent to the server (naming.py:721-730).
  function AttachRequest(s: Signed<Review>): Value { Submission("attach_review", ReviewValue(s.record), s.signature) }

  lemma AttachIsWord()
    ensures Word("attach_review") && Word("attachments")
  {
  }

  // Every review came in a request that the server reads.
  ghost predicate ReviewsCame(run: Run)
  {
    forall j | 0 <= j < |run| && run[j].req.AttachReview? :: Came(AttachRequest(run[j].req.review))
  }

  lemma ServedAttachments(cfg: Config, lib: Library, run: Run, contentKey: string)
    ensures contentKey in After(cfg, lib, run).attachments ==> After(cfg, lib, run).attachments[contentKey].Valid()
  {
    hide After;
    RunWellFormed(cfg, lib, run);
  }

  lemma ServedCame(cfg: Config, lib: Library, run: Run, contentKey: string)
    requires ReviewsCame(run)
    ensures contentKey in After(cfg, lib, run).attachments ==> After(cfg, lib, run).attachments[contentKey].Valid()
    ensures forall s | s in Served(After(cfg, lib, run), contentKey) ::
      |Canonical(EntryValue(s))| <= 6 * MAX_REQUEST_SIZE
  {
    hide After;
    hide Canonical;
    hide EntryOf;
    hide Submission;
    hide ReviewValue;
    hide Came;
    ServedAttachments(cfg, lib, run, contentKey);
    AttachIsWord();
    hide Word;
    var st := After(cfg, lib, run);
    var entries := Served(st, contentKey);
    forall s | s in entries ensures |Canonical(EntryValue(s))| <= 6 * MAX_REQUEST_SIZE {
      var i :| 0 <= i < |entries| && entries[i] == s;
      var j := AttachedWasAccepted(cfg, lib, run, contentKey, st.attachments[contentKey].keys[i]);
      CameEntry("attach_review", ReviewValue(s.record), s.signature);
    }
  }

  // Two reviews always fit, however they were sent.
  lemma TwoReviewsAreHeard(cfg: Config, lib: Library, run: Run, contentKey: string)
    requires ReviewsCame(run)
    ensures contentKey in After(cfg, lib, run).attachments ==> After(cfg, lib, run).attachments[contentKey].Valid()
    ensures |Served(After(cfg, lib, run), contentKey)| <= 2 ==>
      Received(After(cfg, lib, run), contentKey) == Served(After(cfg, lib, run), contentKey)
  {
    hide After;
    hide Served;
    hide EntryValue;
    hide Canonical;
    hide RecordsAnswer;
    hide ReviewsCame;
    ServedCame(cfg, lib, run, contentKey);
    AttachIsWord();
    hide Word;
    var entries := Served(After(cfg, lib, run), contentKey);
    if |entries| <= 2 {
      EntryValuesOf(entries, 6 * MAX_REQUEST_SIZE);
      TwoFit("attachments", EntryValues(entries));
    }
  }

  // One assignment names at most sixteen reviewers. A reader gets all their reviews if each takes no more room in
  // the answer than a request in canonical form has for it.
  lemma OneAssignmentIsHeard(cfg: Config, lib: Library, run: Run, contentKey: string)
    requires cfg.strict && AssignmentCount(cfg, lib, run, contentKey) <= 1
    ensures contentKey in After(cfg, lib, run).attachments ==> After(cfg, lib, run).attachments[contentKey].Valid()
    ensures var st := After(cfg, lib, run);
      && |Served(st, contentKey)| <= 16
      && ((forall s | s in Served(st, contentKey) :: |Canonical(AttachRequest(s))| <= MAX_REQUEST_SIZE) ==>
          Received(st, contentKey) == Served(st, contentKey))
  {
    hide After;
    hide AssignmentCount;
    hide EntryValue;
    hide Canonical;
    hide AnswerFits;
    hide AttachRequest;
    ServedAttachments(cfg, lib, run, contentKey);
    ReviewersAreFew(cfg, lib, run, contentKey);
    var st := After(cfg, lib, run);
    var entries := Served(st, contentKey);
    if contentKey in st.attachments {
      var d := st.attachments[contentKey];
      DistinctLength(d.keys, d.vals.Keys);
      assert |entries| <= 16;
    }
    if forall s | s in entries :: |Canonical(AttachRequest(s))| <= MAX_REQUEST_SIZE {
      forall s | s in entries ensures |Canonical(EntryValue(s))| <= MAX_REQUEST_SIZE - 23 {
        EntryInRequest(s);
      }
      SixteenShortFit(entries);
    }
  }

  lemma EntryInRequest(s: Signed<Review>)
    ensures |Canonical(AttachRequest(s))| == |Canonical(EntryValue(s))| + 23
  {
    hide Canonical;
    hide EntryOf;
    hide Submission;
    SubmissionLength("attach_review", ReviewValue(s.record), s.signature);
    EntryLength(ReviewValue(s.record), s.signature);
  }

  lemma SixteenShortFit(entries: seq<Signed<Review>>)
    requires |entries| <= 16 && forall s | s in entries :: |Canonical(EntryValue(s))| <= MAX_REQUEST_SIZE - 23
    ensures AnswerFits(entries)
  {
    hide Canonical;
    hide EntryValue;
    hide RecordsAnswer;
    EntryValuesOf(entries, MAX_REQUEST_SIZE - 23);
    hide EntryValues;
    ItemsLengthAtMost(EntryValues(entries), MAX_REQUEST_SIZE - 23);
    AnswerLength("attachments", EntryValues(entries));
  }

  lemma EntryValuesOf(entries: seq<Signed<Review>>, each: nat)
    requires forall s | s in entries :: |Canonical(EntryValue(s))| <= each
    ensures forall x | x in EntryValues(entries) :: |Canonical(x)| <= each
  {
    hide Canonical;
    hide EntryValue;
    forall x | x in EntryValues(entries) ensures |Canonical(x)| <= each {
      var i :| 0 <= i < |entries| && EntryValues(entries)[i] == x;
      assert entries[i] in entries;
    }
  }

  // ---- Silence

  lemma NothingIsShown(lib: Library, contentKey: string, r: Visitor)
    ensures Score(r, ToSignals(lib, [], contentKey)) == 0.0
  {
    NoSignals(r);
  }

  // Reviews that do not fit count for nothing: the content is judged as one without reviews.
  lemma SilencedShows(lib: Library, st: State, contentKey: string, r: Visitor)
    requires contentKey in st.attachments ==> st.attachments[contentKey].Valid()
    requires !AnswerFits(Served(st, contentKey))
    ensures Verdict(lib, st, contentKey, r) == Decide(0.0, r.policy)
    ensures r.policy.thresholdHide > 0.0 && r.policy.thresholdWarn > 0.0 ==> Verdict(lib, st, contentKey, r) == Show
  {
    hide AnswerFits;
    hide Score;
    NothingIsShown(lib, contentKey, r);
  }

  lemma LongEntry(s: Signed<Review>)
    ensures |Canonical(EntryValue(s))| >= |Escaped(s.record.comment)| + 2
  {
    var v := EntryOf(ReviewValue(s.record), s.signature);
    assert EntryValue(s) == v;
    EntryMembers(ReviewValue(s.record), s.signature);
    CommentMember(s.record);
    TextLength(s.record.comment);
    hide *;
    MemberLength(v, "record");
    MemberLength(ReviewValue(s.record), "comment");
  }

  lemma ReviewKeys()
    ensures Increasing(["comment", "content_key", "reviewer_public_key", "timestamp", "verdict"])
  {
    hide *;
    CommentBefore();
    RestKeys();
    var rest := ["reviewer_public_key", "timestamp", "verdict"];
    SameHeadFirst("comment", "content_key", rest);
    assert ["comment", "content_key"] + rest ==
      ["comment", "content_key", "reviewer_public_key", "timestamp", "verdict"];
  }

  lemma CommentBefore()
    ensures ByteLess("comment", "content_key")
  {
    hide *;
    CommentFirst("co", "mment", "ntent_key");
    assert "co" + "mment" == "comment" && "co" + "ntent_key" == "content_key";
  }

  lemma RestKeys()
    ensures HeadsIncrease(["content_key"] + ["reviewer_public_key", "timestamp", "verdict"])
  {
  }

  lemma SameHeadFirst(a: string, b: string, rest: seq<string>)
    requires a != [] && b != [] && a[0] == b[0] && ByteLess(a, b) && HeadsIncrease([b] + rest)
    ensures Increasing([a, b] + rest)
  {
    hide ByteLess;
    var keys, tail := [a, b] + rest, [b] + rest;
    HeadsMeanIncreasing(tail);
    forall i, j | 0 <= i < j < |keys| ensures ByteLess(keys[i], keys[j]) {
      assert keys[j] == tail[j - 1];
      if i > 0 {
        assert keys[i] == tail[i - 1];
      } else if j > 1 {
        assert tail[0] == b && tail[0][0] as int < tail[j - 1][0] as int;
        HeadsDecide(a, keys[j]);
      }
    }
  }

  // A common beginning does not change the order.
  lemma CommentFirst(p: string, a: string, b: string)
    requires a != [] && b != [] && a[0] as int < b[0] as int < 128
    ensures ByteLess(p + a, p + b)
  {
    Utf8Concat(p, a);
    Utf8Concat(p, b);
    HeadsDecide(a, b);
    LexCommonPrefix(Utf8(p), Utf8(a), Utf8(b));
  }

  lemma ReviewMembers(r: Review)
    ensures var v := ReviewValue(r);
      && v.Object?
      && v.members.Keys == {"comment", "content_key", "reviewer_public_key", "timestamp", "verdict"}
      && v.members["comment"] == Str(r.comment) && v.members["content_key"] == Str(r.contentKey)
      && v.members["reviewer_public_key"] == Str(r.reviewer) && v.members["timestamp"] == Integer(r.timestamp)
      && v.members["verdict"] == Str(r.verdict)
  {
    assert "content_key"[3] == 't' && "comment"[3] == 'm' && "reviewer_public_key"[0] == 'r' && "verdict"[0] == 'v';
    assert "timestamp"[0] == 't';
  }

  lemma ReviewSizes(v: Value, r: Review)
    requires v.Object?
    requires v.members.Keys == {"comment", "content_key", "reviewer_public_key", "timestamp", "verdict"}
    requires v.members["comment"] == Str(r.comment) && v.members["content_key"] == Str(r.contentKey)
    requires v.members["reviewer_public_key"] == Str(r.reviewer) && v.members["timestamp"] == Integer(r.timestamp)
    requires v.members["verdict"] == Str(r.verdict)
    requires |Quoted("comment")| == 9 && |Quoted("content_key")| == 13 && |Quoted("reviewer_public_key")| == 21
    requires |Quoted("timestamp")| == 11 && |Quoted("verdict")| == 9
    ensures MemberSize(v, "comment") + MemberSize(v, "content_key") + MemberSize(v, "reviewer_public_key") +
      MemberSize(v, "timestamp") + MemberSize(v, "verdict") ==
      68 + |Canonical(Str(r.comment))| + |Canonical(Str(r.contentKey))| + |Canonical(Str(r.reviewer))| +
      |Canonical(Integer(r.timestamp))| + |Canonical(Str(r.verdict))|
  {
    hide Canonical;
    hide Quoted;
  }

  lemma ReviewLength(r: Review)
    requires Plain(r.contentKey) && Plain(r.reviewer) && Plain(r.verdict)
    ensures |Canonical(ReviewValue(r))| <=
      103 + |Escaped(r.comment)| + |r.contentKey| + |r.reviewer| + |r.verdict|
  {
    hide *;
    ReviewMembers(r);
    ReviewKeys();
    KeyLength("comment");
    KeyLength("content_key");
    KeyLength("reviewer_public_key");
    KeyLength("timestamp");
    KeyLength("verdict");
    FiveMembers(ReviewValue(r), "comment", "content_key", "reviewer_public_key", "timestamp", "verdict");
    ReviewSizes(ReviewValue(r), r);
    TextLength(r.comment);
    TextLength(r.contentKey);
    TextLength(r.reviewer);
    TextLength(r.verdict);
    NumberLength(r.timestamp);
  }

  lemma CommentMember(r: Review)
    ensures var v := ReviewValue(r); v.Object? && "comment" in v.members && v.members["comment"] == Str(r.comment)
  {
    assert "content_key"[3] == 't' && "comment"[3] == 'm' && "reviewer_public_key"[0] == 'r' && "verdict"[0] == 'v';
    assert "timestamp"[0] == 't';
  }

  // As few as three long comments are enough, and no reader sees any review: what counts is their length with
  // all that is not ASCII, and DEL, escaped.
  lemma LongCommentsSilence(entries: seq<Signed<Review>>, n: nat, each: nat)
    requires n <= |entries| && each * n >= MAX_MSG_SIZE
    requires forall i | 0 <= i < n :: |Escaped(entries[i].record.comment)| >= each
    ensures !AnswerFits(entries)
  {
    hide Canonical;
    hide EntryValue;
    hide Escaped;
    hide RecordsAnswer;
    forall i | 0 <= i < n ensures |Canonical(EntryValues(entries)[i])| >= each {
      LongEntry(entries[i]);
    }
    LongDoNotFit("attachments", EntryValues(entries), n, each);
  }

  // Strangers do not hide a content, whether their reviews fit or not.
  lemma StrangersNeverHide(cfg: Config, lib: Library, run: Run, contentKey: string, r: Visitor)
    requires cfg.strict && r.policy == DEFAULT_POLICY && Halves(r.halve)
    requires AssignmentCount(cfg, lib, run, contentKey) <= 1
    requires forall k | k in ReviewersOf(After(cfg, lib, run), contentKey) :: Unknown(r, k)
    ensures contentKey in After(cfg, lib, run).attachments ==> After(cfg, lib, run).attachments[contentKey].Valid()
    ensures Verdict(lib, After(cfg, lib, run), contentKey, r) != Hide
  {
    hide After;
    hide ToSignals;
    hide Score;
    hide AssignmentCount;
    hide AnswerFits;
    StrangersCannotHide(cfg, lib, run, contentKey, r);
    if !AnswerFits(Served(After(cfg, lib, run), contentKey)) {
      SilencedShows(lib, After(cfg, lib, run), contentKey, r);
    }
  }
}
