/**
 What a reviewer gets to see of the inbox (naming.py:528-538). All assignments come in one answer, without pages, so
 anybody who may assign can make an inbox unreadable: three assignments with long names are enough.
 */
module Inboxes {
  import opened Answers
  import opened Json
  import opened Messages
  import opened NamingHistory
  import opened NamingServer
  import opened Printer
  import opened Spelling
  import opened Stores
  import opened Text

  // ---- The answer

  function EntryValues(entries: seq<Signed<Assignment>>): (r: seq<Value>)
    ensures |r| == |entries|
  {
    seq(|entries|, i requires 0 <= i < |entries| => EntryOf(AssignmentValue(entries[i].record), entries[i].signature))
  }

  function AssignmentsAnswer(entries: seq<Signed<Assignment>>): Value
  {
    RecordsAnswer("assignments", EntryValues(entries))
  }

  ghost predicate InboxFits(entries: seq<Signed<Assignment>>)
  {
    |Canonical(AssignmentsAnswer(entries))| <= MAX_MSG_SIZE
  }

  // `list_for`
  function Listed(st: State, reviewer: string): seq<Signed<Assignment>>
    requires reviewer in st.inbox ==> st.inbox[reviewer].Valid()
  {
    if reviewer in st.inbox then st.inbox[reviewer].Values() else []
  }

  // A reviewer can read the inbox exactly when its assignments, and the commas between them, leave room for the rest.
  lemma InboxFitsExactly(entries: seq<Signed<Assignment>>)
    ensures InboxFits(entries) <==>
      33 + ItemsLength(EntryValues(entries)) + (if entries == [] then 2 else |entries| + 1) <= MAX_MSG_SIZE
  {
    hide Canonical;
    hide RecordsAnswer;
    AnswerLength("assignments", EntryValues(entries));
  }

  // How an assignment is sent to the server (naming.py:699-708).
  function PostRequest(s: Signed<Assignment>): Value
  {
    Submission("post_assignment", AssignmentValue(s.record), s.signature)
  }

  ghost predicate PostsCame(run: Run)
  {
    forall j | 0 <= j < |run| && run[j].req.PostAssignment? :: Came(PostRequest(run[j].req.assignment))
  }

  lemma PostIsWord()
    ensures Word("post_assignment") && Word("assignments")
  {
  }

  lemma ListedCame(cfg: Config, lib: Library, run: Run, reviewer: string)
    requires PostsCame(run)
    ensures reviewer in After(cfg, lib, run).inbox ==> After(cfg, lib, run).inbox[reviewer].Valid()
    ensures forall s | s in Listed(After(cfg, lib, run), reviewer) ::
      |Canonical(EntryOf(AssignmentValue(s.record), s.signature))| <= 6 * MAX_REQUEST_SIZE
  {
    hide After;
    hide Canonical;
    hide EntryOf;
    hide Submission;
    hide AssignmentValue;
    hide Came;
    hide AcceptedAt;
    RunWellFormed(cfg, lib, run);
    PostIsWord();
    hide Word;
    var st := After(cfg, lib, run);
    var entries := Listed(st, reviewer);
    forall s | s in entries
      ensures |Canonical(EntryOf(AssignmentValue(s.record), s.signature))| <= 6 * MAX_REQUEST_SIZE
    {
      var i :| 0 <= i < |entries| && entries[i] == s;
      var key := st.inbox[reviewer].keys[i];
      InboxWasAssigned(cfg, lib, run, reviewer, key);
      var j :| AssignedAt(cfg, lib, run, j, s, reviewer, key);
      CameEntry("post_assignment", AssignmentValue(s.record), s.signature);
    }
  }

  // Two assignments can always be read, however they were sent.
  lemma TwoAssignmentsAreRead(cfg: Config, lib: Library, run: Run, reviewer: string)
    requires PostsCame(run)
    ensures reviewer in After(cfg, lib, run).inbox ==> After(cfg, lib, run).inbox[reviewer].Valid()
    ensures |Listed(After(cfg, lib, run), reviewer)| <= 2 ==> InboxFits(Listed(After(cfg, lib, run), reviewer))
  {
    hide After;
    hide Listed;
    hide Canonical;
    hide RecordsAnswer;
    hide PostsCame;
    hide EntryOf;
    ListedCame(cfg, lib, run, reviewer);
    PostIsWord();
    hide Word;
    var entries := Listed(After(cfg, lib, run), reviewer);
    if |entries| <= 2 {
      forall x | x in EntryValues(entries) ensures |Canonical(x)| <= 6 * MAX_REQUEST_SIZE {
        var i :| 0 <= i < |entries| && EntryValues(entries)[i] == x;
        assert entries[i] in entries;
      }
      TwoFit("assignments", EntryValues(entries));
    }
  }

  // ---- Long names

  const ASSIGNMENT_KEYS :=
    ["uri", "content_key", "deadline", "publisher_public_key", "reviewer_public_keys", "timestamp"]

  lemma AssignmentKeys(a: Assignment)
    ensures var v := AssignmentValue(a);
      && v.Object? && FloatFree(v) && Distinct(ASSIGNMENT_KEYS)
      && (forall k :: k in ASSIGNMENT_KEYS <==> k in v.members)
      && ASSIGNMENT_KEYS != [] && v.members[ASSIGNMENT_KEYS[0]] == Str(a.uri)
  {
    KeysDiffer();
    AssignmentMembers(a);
    AssignmentIsFloatFree(a);
    hide AssignmentValue;
    hide Distinct;
    hide FloatFree;
    assert forall k :: k in ASSIGNMENT_KEYS <==> k in AssignmentValue(a).members.Keys;
  }

  lemma KeysDiffer()
    ensures Distinct(ASSIGNMENT_KEYS)
  {
    assert HeadsIncrease(ASSIGNMENT_KEYS[1..]);
    forall i, j | 0 <= i < j < |ASSIGNMENT_KEYS| ensures ASSIGNMENT_KEYS[i] != ASSIGNMENT_KEYS[j] {
      if i > 0 {
        assert ASSIGNMENT_KEYS[i] == ASSIGNMENT_KEYS[1..][i - 1] && ASSIGNMENT_KEYS[j] == ASSIGNMENT_KEYS[1..][j - 1];
      }
      assert ASSIGNMENT_KEYS[i][0] != ASSIGNMENT_KEYS[j][0];
    }
  }

  lemma AssignmentMembers(a: Assignment)
    ensures var v := AssignmentValue(a);
      && v.Object? && v.members.Keys == {"uri", "content_key", "deadline", "publisher_public_key",
                                         "reviewer_public_keys", "timestamp"}
      && v.members["uri"] == Str(a.uri) && v.members["content_key"] == Str(a.contentKey)
      && v.members["deadline"] == Integer(a.deadline) && v.members["publisher_public_key"] == Str(a.publisher)
      && v.members["reviewer_public_keys"] == Array(Texts(a.reviewers))
      && v.members["timestamp"] == Integer(a.timestamp)
  {
    assert "uri"[0] == 'u' && "content_key"[0] == 'c' && "deadline"[0] == 'd';
    assert "publisher_public_key"[0] == 'p' && "reviewer_public_keys"[0] == 'r' && "timestamp"[0] == 't';
  }

  lemma AssignmentIsFloatFree(a: Assignment)
    ensures FloatFree(AssignmentValue(a))
  {
    assert FloatFree(Array(Texts(a.reviewers)));
  }

  lemma MoreSizes(v: Value, keys: seq<string>)
    requires Lists(v, keys) && keys != []
    ensures Lists(v, keys[1..]) && MemberSizes(v, keys) == MemberSize(v, keys[0]) + MemberSizes(v, keys[1..])
  {
  }

  // The text of an assignment to one reviewer.
  lemma AssignmentLength(a: Assignment, reviewer: string)
    requires a.reviewers == [reviewer] && Plain(reviewer) && Plain(a.contentKey) && Plain(a.publisher)
    ensures |Canonical(AssignmentValue(a))| <=
      180 + |Escaped(a.uri)| + |a.contentKey| + |a.publisher| + |reviewer|
  {
    var v := AssignmentValue(a);
    var sorted :=
      ["content_key", "deadline", "publisher_public_key", "reviewer_public_keys", "timestamp", "uri"];
    AssignmentMembers(a);
    assert HeadsIncrease(sorted) && forall k :: k in sorted <==> k in v.members.Keys;
    OneText(reviewer);
    hide *;
    HeadsMeanIncreasing(sorted);
    ObjectLength(v, sorted);
    SixSizes(v, sorted);
    AssignmentSizes(v, a, reviewer);
  }

  lemma OneText(text: string)
    requires Plain(text)
    ensures |Canonical(Array(Texts([text])))| == |text| + 4
  {
    TextLength(text);
    hide Canonical;
    ArrayLength(Texts([text]));
    assert Texts([text]) == [Str(text)] && [Str(text)][1..] == [];
    assert ItemsLength([]) == 0 && ItemsLength([Str(text)]) == |Canonical(Str(text))|;
  }

  lemma SixSizes(v: Value, keys: seq<string>)
    requires Lists(v, keys) && |keys| == 6
    ensures MemberSizes(v, keys) ==
      MemberSize(v, keys[0]) + MemberSize(v, keys[1]) + MemberSize(v, keys[2]) + MemberSize(v, keys[3]) +
      MemberSize(v, keys[4]) + MemberSize(v, keys[5])
  {
    hide *;
    MoreSizes(v, keys);
    MoreSizes(v, keys[1..]);
    assert keys[1..][1..] == keys[2..];
    MoreSizes(v, keys[2..]);
    assert keys[2..][1..] == keys[3..];
    MoreSizes(v, keys[3..]);
    assert keys[3..][1..] == keys[4..];
    MoreSizes(v, keys[4..]);
    assert keys[4..][1..] == keys[5..];
    MoreSizes(v, keys[5..]);
    assert keys[5..][1..] == [];
    NoSizes(v);
  }

  lemma NoSizes(v: Value)
    requires v.Object?
    ensures MemberSizes(v, []) == 0
  {
  }

  lemma AssignmentSizes(v: Value, a: Assignment, reviewer: string)
    requires v.Object? && v.members.Keys == {"uri", "content_key", "deadline", "publisher_public_key",
                                             "reviewer_public_keys", "timestamp"}
    requires v.members["uri"] == Str(a.uri) && v.members["content_key"] == Str(a.contentKey)
    requires v.members["deadline"] == Integer(a.deadline) && v.members["publisher_public_key"] == Str(a.publisher)
    requires v.members["timestamp"] == Integer(a.timestamp) && Plain(a.contentKey) && Plain(a.publisher)
    requires |Canonical(v.members["reviewer_public_keys"])| == |reviewer| + 4
    ensures MemberSize(v, "content_key") + MemberSize(v, "deadline") + MemberSize(v, "publisher_public_key") +
      MemberSize(v, "reviewer_public_keys") + MemberSize(v, "timestamp") + MemberSize(v, "uri") <=
      173 + |Escaped(a.uri)| + |a.contentKey| + |a.publisher| + |reviewer|
  {
    AssignmentNames();
    TextLength(a.uri);
    TextLength(a.contentKey);
    TextLength(a.publisher);
    NumberLength(a.deadline);
    NumberLength(a.timestamp);
    hide Canonical;
    hide Quoted;
    hide Escaped;
    hide Plain;
  }

  lemma AssignmentNames()
    ensures |Quoted("uri")| == 5 && |Quoted("content_key")| == 13 && |Quoted("deadline")| == 10
    ensures |Quoted("publisher_public_key")| == 22 && |Quoted("reviewer_public_keys")| == 22
    ensures |Quoted("timestamp")| == 11
  {
    hide *;
    KeyLength("uri");
    KeyLength("content_key");
    KeyLength("deadline");
    KeyLength("publisher_public_key");
    KeyLength("reviewer_public_keys");
    KeyLength("timestamp");
  }

  // ---- A run that ends an inbox

  // The holder of one key assigns contents with long names to a reviewer, `count` of them at one moment.
  datatype Flood =
    Flood(reviewer: string, key: string, name: string, count: nat, now: JsonInt, sign: Payload -> string)
  {
    function Uri(i: nat): string requires i < 26 { name + [(97 + i) as char] }
  }

  // Both sign with keys of their own, and the names have different content keys.
  ghost predicate Feasible(lib: Library, f: Flood)
  {
    && 0 < f.now && f.reviewer != ""
    && (forall x | SignerOf(x) == f.key || SignerOf(x) == f.reviewer ::
          f.sign(x) != "" && lib.verified(SignerOf(x), f.sign(x), x))
    && (forall i | 0 <= i < 26 :: lib.contentKey(f.Uri(i), f.key) != "")
    && forall i, j | 0 <= i < j < 26 :: lib.contentKey(f.Uri(i), f.key) != lib.contentKey(f.Uri(j), f.key)
  }

  function OptInOf(f: Flood): Signed<OptIn>
  {
    var o := OptIn(f.reviewer, "peer", [], [], f.now);
    Signed(o, f.sign(Opt(o)))
  }

  function PostOf(lib: Library, f: Flood, i: nat): Signed<Assignment>
    requires i < 26
  {
    var a := Assignment(f.Uri(i), lib.contentKey(f.Uri(i), f.key), f.key, [f.reviewer], f.now, f.now);
    Signed(a, f.sign(Assign(a)))
  }

  // The opt-in and the first n assignments.
  function FloodOf(lib: Library, f: Flood, n: nat): Run
    requires n <= 26
  {
    seq(n + 1, i requires 0 <= i < n + 1 =>
      Event(if i == 0 then RegisterReviewer(OptInOf(f)) else PostAssignment(PostOf(lib, f, i - 1)), f.now))
  }

  ghost predicate Holds(lib: Library, f: Flood, st: State, n: nat)
    requires n <= 26
  {
    && st.reviewers.Has(f.reviewer)
    && if n == 0 then f.reviewer !in st.inbox
       else
         && f.reviewer in st.inbox && st.inbox[f.reviewer].Valid() && |st.inbox[f.reviewer].keys| == n
         && forall i | 0 <= i < n ::
             && st.inbox[f.reviewer].keys[i] == lib.contentKey(f.Uri(i), f.key)
             && st.inbox[f.reviewer].vals[lib.contentKey(f.Uri(i), f.key)] == PostOf(lib, f, i)
  }

  ghost predicate Open(cfg: Config) { cfg.hasReviewers && cfg.hasInbox }

  lemma OptInStep(cfg: Config, lib: Library, f: Flood)
    requires Open(cfg) && Feasible(lib, f)
    ensures Refused(cfg, lib, Start(), RegisterReviewer(OptInOf(f)), f.now).None?
    ensures Holds(lib, f, Step(cfg, lib, Start(), RegisterReviewer(OptInOf(f)), f.now), 0)
  {
    var s := OptInOf(f);
    assert SignerOf(Opt(s.record)) == f.reviewer && s.record.peerId[0] == 'p';
    assert RegisterReviewerRefusal(cfg, lib, Start(), s, f.now).None?;
  }

  lemma PostAllowed(cfg: Config, lib: Library, f: Flood, st: State, i: nat)
    requires Open(cfg) && Feasible(lib, f) && i < 26 && st.reviewers.Has(f.reviewer)
    ensures PostRefusal(cfg, lib, st, PostOf(lib, f, i), f.now).None?
  {
    var s := PostOf(lib, f, i);
    hide Flood.Uri;
    assert SignerOf(Assign(s.record)) == f.key;
    assert VerifyAssignment(lib, s, f.now);
    assert CheckReviewers(cfg, st.reviewers, s.record).None?;
  }

  // An assignment of a new content goes behind the others.
  lemma DeliveredNext(inbox: Inbox, s: Signed<Assignment>, reviewer: string)
    requires s.record.reviewers == [reviewer] && s.record.contentKey != ""
    requires reviewer in inbox ==> inbox[reviewer].Valid() && s.record.contentKey !in inbox[reviewer].vals
    ensures var key, after := s.record.contentKey, AddAssignment(inbox, s);
      && reviewer in after && after[reviewer].Valid()
      && after[reviewer].keys == (if reviewer in inbox then inbox[reviewer].keys else []) + [key]
      && after[reviewer].vals == (if reviewer in inbox then inbox[reviewer].vals else map[])[key := s]
  {
    var next := Deliver(inbox, reviewer, s);
    assert DeliverFrom(next, s, 1) == next;
    assert AddAssignment(inbox, s) == next;
  }

  lemma PostEffect(lib: Library, f: Flood, st: State, i: nat)
    requires Feasible(lib, f) && i < 26 && Holds(lib, f, st, i)
    ensures Holds(lib, f, st.(inbox := AddAssignment(st.inbox, PostOf(lib, f, i))), i + 1)
  {
    var s := PostOf(lib, f, i);
    assert s.record.reviewers == [f.reviewer];
    NewContent(lib, f, st, i);
    DeliveredNext(st.inbox, s, f.reviewer);
    hide *;
    OneMoreHeld(lib, f, st, st.(inbox := AddAssignment(st.inbox, s)), i);
  }

  lemma OneMoreHeld(lib: Library, f: Flood, a: State, b: State, i: nat)
    requires i < 26 && Holds(lib, f, a, i) && a.reviewers == b.reviewers
    requires f.reviewer in b.inbox && b.inbox[f.reviewer].Valid()
    requires var key := lib.contentKey(f.Uri(i), f.key); var (keys, vals) :=
        if f.reviewer in a.inbox then (a.inbox[f.reviewer].keys, a.inbox[f.reviewer].vals) else ([], map[]);
      && key !in vals && b.inbox[f.reviewer].keys == keys + [key]
      && b.inbox[f.reviewer].vals == vals[key := PostOf(lib, f, i)]
    ensures Holds(lib, f, b, i + 1)
  {
    hide PostOf;
    hide Flood.Uri;
  }

  lemma NewContent(lib: Library, f: Flood, st: State, i: nat)
    requires Feasible(lib, f) && i < 26 && Holds(lib, f, st, i)
    ensures var key := lib.contentKey(f.Uri(i), f.key);
      && key != "" && PostOf(lib, f, i).record.contentKey == key
      && (f.reviewer in st.inbox ==> st.inbox[f.reviewer].Valid() && key !in st.inbox[f.reviewer].vals)
  {
    hide Flood.Uri;
    if i > 0 {
      var box, key := st.inbox[f.reviewer], lib.contentKey(f.Uri(i), f.key);
      forall j | 0 <= j < i ensures box.keys[j] != key {}
      assert key !in box.vals;
    }
  }

  lemma {:induction false} FloodHolds(cfg: Config, lib: Library, f: Flood, n: nat)
    requires Open(cfg) && Feasible(lib, f) && n <= 26
    ensures Holds(lib, f, After(cfg, lib, FloodOf(lib, f, n)), n)
    ensures forall i | 0 <= i <= n :: AcceptedAt(cfg, lib, FloodOf(lib, f, n), i)
  {
    hide Feasible;
    hide Holds;
    hide PostOf;
    hide OptInOf;
    hide PostRefusal;
    hide AddAssignment;
    hide RegisterReviewerRefusal;
    var run := FloodOf(lib, f, n);
    if n == 0 {
      OptInStep(cfg, lib, f);
      assert run[..0] == [];
    } else {
      FloodHolds(cfg, lib, f, n - 1);
      assert run[..n] == FloodOf(lib, f, n - 1);
      var st := After(cfg, lib, run[..n]);
      Registered(lib, f, st, n - 1);
      PostAllowed(cfg, lib, f, st, n - 1);
      PostEffect(lib, f, st, n - 1);
      forall i | 0 <= i <= n ensures AcceptedAt(cfg, lib, run, i) {
        if i < n { AcceptedEarly(cfg, lib, run, n, i); }
      }
    }
  }

  lemma Registered(lib: Library, f: Flood, st: State, n: nat)
    requires n <= 26 && Holds(lib, f, st, n)
    ensures st.reviewers.Has(f.reviewer)
  {
  }

  // Keys and signatures are printed as they are and are together of a usual length; the name is within a request as
  // it is, and so many times too long for an answer once escaped.
  ghost predicate Overlong(lib: Library, f: Flood)
  {
    && Plain(f.key) && Plain(f.reviewer) && (forall x :: Plain(f.sign(x)))
    && (forall i | 0 <= i < 26 :: Plain(lib.contentKey(f.Uri(i), f.key)))
    && (forall i, x | 0 <= i < 26 ::
          |lib.contentKey(f.Uri(i), f.key)| + |f.key| + |f.reviewer| + |f.sign(x)| <= 1000)
    && Literal(f.name) && |Utf8(f.name)| + 1300 <= MAX_REQUEST_SIZE && |Escaped(f.name)| * f.count >= MAX_MSG_SIZE
  }

  lemma {:induction false} LongerName(name: string, c: char)
    requires 'a' <= c <= 'z'
    ensures |Utf8(name + [c])| == |Utf8(name)| + 1 && |Escaped(name + [c])| == |Escaped(name)| + 1
    ensures Literal(name) ==> Literal(name + [c])
  {
    if name == [] {
      assert name + [c] == [c] && [c][1..] == [];
    } else {
      assert (name + [c])[1..] == name[1..] + [c];
      hide EncodeChar;
      hide EscapeChar;
      LongerName(name[1..], c);
    }
  }

  lemma PostComes(lib: Library, f: Flood, i: nat)
    requires Overlong(lib, f) && i < 26
    ensures Came(PostRequest(PostOf(lib, f, i)))
  {
    var s := PostOf(lib, f, i);
    var a, value := s.record, AssignmentValue(s.record);
    PostIsWord();
    assert PostRequest(s) == Submission("post_assignment", value, s.signature);
    hide *;
    PostParts(lib, f, i);
    AssignmentLength(a, f.reviewer);
    TextLength(s.signature);
    SubmissionLength("post_assignment", value, s.signature);
    AssignmentKeys(a);
    assert |"post_assignment"| == 15;
    CameRaw("post_assignment", value, s.signature, ASSIGNMENT_KEYS, a.uri);
  }

  lemma PostParts(lib: Library, f: Flood, i: nat)
    requires Overlong(lib, f) && i < 26
    ensures var s := PostOf(lib, f, i); var a := s.record;
      && Plain(a.contentKey) && Plain(a.publisher) && Plain(s.signature) && a.reviewers == [f.reviewer]
      && |a.contentKey| + |a.publisher| + |f.reviewer| + |s.signature| <= 1000
      && Plain(f.reviewer) && Literal(a.uri) && |Utf8(a.uri)| + 1299 <= MAX_REQUEST_SIZE
  {
    LongerName(f.name, (97 + i) as char);
    hide Plain;
    hide Literal;
    hide Utf8;
    hide Escaped;
    assert f.Uri(i) == f.name + [(97 + i) as char];
    hide Flood.Uri;
  }

  lemma FloodComes(lib: Library, f: Flood)
    requires Overlong(lib, f) && f.count <= 26
    ensures PostsCame(FloodOf(lib, f, f.count))
  {
    var run := FloodOf(lib, f, f.count);
    forall j | 0 <= j < |run| && run[j].req.PostAssignment? ensures Came(PostRequest(run[j].req.assignment)) {
      assert run[j].req.assignment == PostOf(lib, f, j - 1);
      hide *;
      PostComes(lib, f, j - 1);
    }
  }

  lemma LongUri(s: Signed<Assignment>)
    ensures |Canonical(EntryOf(AssignmentValue(s.record), s.signature))| >= |Escaped(s.record.uri)|
  {
    var value := AssignmentValue(s.record);
    AssignmentMembers(s.record);
    assert "uri" in value.members.Keys;
    TextLength(s.record.uri);
    EntryLength(value, s.signature);
    hide *;
    MemberLength(value, "uri");
  }

  lemma FloodDoesNotFit(lib: Library, f: Flood, st: State)
    requires f.count <= 26 && Holds(lib, f, st, f.count) && Overlong(lib, f)
    ensures f.reviewer in st.inbox ==> st.inbox[f.reviewer].Valid()
    ensures |Listed(st, f.reviewer)| == f.count && !InboxFits(Listed(st, f.reviewer))
  {
    var entries := Listed(st, f.reviewer);
    assert |entries| == f.count;
    hide Canonical;
    hide RecordsAnswer;
    hide EntryOf;
    hide AssignmentValue;
    forall i | 0 <= i < f.count ensures |Canonical(EntryValues(entries)[i])| >= |Escaped(f.name)| {
      assert entries[i] == PostOf(lib, f, i);
      LongUri(entries[i]);
      LongerName(f.name, (97 + i) as char);
    }
    PostIsWord();
    hide Escaped;
    LongDoNotFit("assignments", EntryValues(entries), f.count, |Escaped(f.name)|);
  }

  // After this run, each request accepted and each assignment in a request that the server reads, the reviewer's inbox
  // cannot be sent.
  lemma FewAssignmentsEndInbox(cfg: Config, lib: Library, f: Flood)
    requires Open(cfg) && Feasible(lib, f) && Overlong(lib, f) && f.count <= 26
    ensures var run := FloodOf(lib, f, f.count);
      var st := After(cfg, lib, run);
      && (forall i | 0 <= i <= f.count :: AcceptedAt(cfg, lib, run, i)) && PostsCame(run)
      && (f.reviewer in st.inbox ==> st.inbox[f.reviewer].Valid())
      && |Listed(st, f.reviewer)| == f.count && !InboxFits(Listed(st, f.reviewer))
  {
    hide *;
    FloodHolds(cfg, lib, f, f.count);
    FloodComes(lib, f);
    FloodDoesNotFit(lib, f, After(cfg, lib, FloodOf(lib, f, f.count)));
  }

  // Three names of 62,000 DEL characters do it. Two assignments never do.
  lemma ThreeNames(f: Flood)
    requires f.count >= 3 && f.name == Repeated('\U{7f}', 62_000)
    ensures Literal(f.name) && |Utf8(f.name)| + 1300 <= MAX_REQUEST_SIZE
    ensures |Escaped(f.name)| * f.count >= MAX_MSG_SIZE
  {
    Widths();
    RepeatedLength('\U{7f}', 62_000);
    hide Repeated;
    hide EscapeChar;
    hide EncodeChar;
    hide Escaped;
    hide Utf8;
    hide Literal;
  }
}
