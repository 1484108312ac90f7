/**
 What holds in every run of the naming server. A run is the sequence of requests with the server's clock
 at each; the state after it, and which requests were accepted, follow from the handlers. Assignments can
 be replaced by later ones, so where a review comes from is a fact about the run, not about the stores.
 */
module NamingHistory {
  import opened LastWriterWins
  import opened NamingServer
  import opened Paths
  import opened Stores
  import Records
  import opened Text
  import opened Wrappers

  datatype Event = Event(req: Request, now: int)

  type Run = seq<Event>

  function After(cfg: Config, lib: Library, run: Run): State
  {
    if run == [] then Start()
    else
      var last := run[|run| - 1];
      Step(cfg, lib, After(cfg, lib, run[..|run| - 1]), last.req, last.now)
  }

  predicate AcceptedAt(cfg: Config, lib: Library, run: Run, i: nat)
    requires i < |run|
  {
    Refused(cfg, lib, After(cfg, lib, run[..i]), run[i].req, run[i].now).None?
  }

  // What happened early in a run is not changed by how it goes on.
  lemma AcceptedEarly(cfg: Config, lib: Library, run: Run, n: nat, i: nat)
    requires i < n <= |run|
    ensures AcceptedAt(cfg, lib, run[..n], i) <==> AcceptedAt(cfg, lib, run, i)
    ensures run[..n][i] == run[i] && run[..n][..i] == run[..i]
  {
    assert run[..n][..i] == run[..i];
  }

  // ---- The stores stay well formed

  ghost predicate WellFormed(st: State)
  {
    && st.names.Valid()
    && st.reviewers.Valid()
    && (forall u | u in st.names.vals :: st.names.vals[u].record.uri == u)
    && (forall k | k in st.attachments :: st.attachments[k].Valid())
    && (forall r | r in st.inbox :: st.inbox[r].Valid())
  }

  lemma {:induction false} DeliverFromValid(inbox: Inbox, s: Signed<Assignment>, i: nat)
    requires i <= |s.record.reviewers| && forall r | r in inbox :: inbox[r].Valid()
    ensures forall r | r in DeliverFrom(inbox, s, i) :: DeliverFrom(inbox, s, i)[r].Valid()
    decreases |s.record.reviewers| - i
  {
    if i < |s.record.reviewers| {
      DeliverFromValid(Deliver(inbox, s.record.reviewers[i], s), s, i + 1);
    }
  }

  lemma StepWellFormed(cfg: Config, lib: Library, st: State, req: Request, now: int)
    requires WellFormed(st)
    ensures WellFormed(Step(cfg, lib, st, req, now))
  {
    hide Refused;
    if req.PostAssignment? { DeliverFromValid(st.inbox, req.assignment, 0); }
  }

  lemma {:induction false} RunWellFormed(cfg: Config, lib: Library, run: Run)
    ensures WellFormed(After(cfg, lib, run))
  {
    if run != [] {
      var n := |run| - 1;
      RunWellFormed(cfg, lib, run[..n]);
      StepWellFormed(cfg, lib, After(cfg, lib, run[..n]), run[n].req, run[n].now);
    }
  }

  // ---- Names: first key wins, newer records only

  lemma {:induction false} NamesGrowAlongRun(cfg: Config, lib: Library, run: Run, i: nat)
    requires i <= |run|
    ensures NamesGrow(After(cfg, lib, run[..i]).names, After(cfg, lib, run).names)
    decreases |run|
  {
    if i == |run| {
      assert run[..i] == run;
    } else {
      var n := |run| - 1;
      assert run[..n][..i] == run[..i];
      NamesGrowAlongRun(cfg, lib, run[..n], i);
      var st, e := After(cfg, lib, run[..n]), run[n];
      if e.req.Register? { SetNameGrows(st.names, e.req.name.record.uri, e.req.name); }
      NamesGrowTransitive(After(cfg, lib, run[..i]).names, st.names, After(cfg, lib, run).names);
    }
  }

  // Every stored name record was accepted in the run, signed by the key it names, close to the clock.
  ghost predicate RegisteredAt(cfg: Config, lib: Library, run: Run, i: nat, s: Signed<NameRecord>)
  {
    && i < |run| && run[i].req == Register(s) && AcceptedAt(cfg, lib, run, i)
    && lib.verified(s.record.publicKey, s.signature, Name(s.record)) && Timely(run[i].now, s.record.timestamp)
  }

  lemma {:induction false} NamesWereRegistered(cfg: Config, lib: Library, run: Run, uri: string)
    requires After(cfg, lib, run).names.Has(uri)
    ensures exists i :: RegisteredAt(cfg, lib, run, i, After(cfg, lib, run).names.vals[uri])
  {
    var n := |run| - 1;
    var before, e := After(cfg, lib, run[..n]), run[n];
    var s := After(cfg, lib, run).names.vals[uri];
    if before.names.Has(uri) && before.names.vals[uri] == s {
      NamesWereRegistered(cfg, lib, run[..n], uri);
      var i :| RegisteredAt(cfg, lib, run[..n], i, s);
      AcceptedEarly(cfg, lib, run, n, i);
      assert RegisteredAt(cfg, lib, run, i, s);
    } else {
      assert RegisteredAt(cfg, lib, run, n, s);
    }
  }

  lemma RegisteredThen(cfg: Config, lib: Library, run: Run, i: nat, s: Signed<NameRecord>)
    requires RegisteredAt(cfg, lib, run, i, s)
    ensures PyValidUri(s.record.uri)
    ensures var names := After(cfg, lib, run[..i + 1]).names; names.Has(s.record.uri) && names.vals[s.record.uri] == s
  {
    assert run[..i + 1][..i] == run[..i];
  }

  // The answer is the newest record of the run for this name: an accepted one, signed with the key it names,
  // and every other accepted one has the same key and is no newer.
  ghost predicate IsNewest(cfg: Config, lib: Library, run: Run, uri: string, answer: Signed<NameRecord>)
  {
    && answer.record.uri == uri
    && (exists i :: RegisteredAt(cfg, lib, run, i, answer))
    && forall j: nat, s | RegisteredAt(cfg, lib, run, j, s) && s.record.uri == uri ::
        s.record.publicKey == answer.record.publicKey && s.record.timestamp <= answer.record.timestamp
  }

  // In every run a name resolves exactly when a registration of it was accepted, and then to the newest one.
  lemma ResolvesToNewest(cfg: Config, lib: Library, run: Run, uri: string)
    ensures var answer := Resolved(After(cfg, lib, run), uri);
      && (answer.Some? <==> exists i, s :: RegisteredAt(cfg, lib, run, i, s) && s.record.uri == uri)
      && (answer.Some? ==> IsNewest(cfg, lib, run, uri, answer.value))
  {
    hide After;
    hide RegisteredAt;
    hide PyValidUri;
    var st := After(cfg, lib, run);
    RunWellFormed(cfg, lib, run);
    forall j: nat, s | RegisteredAt(cfg, lib, run, j, s) && s.record.uri == uri
      ensures PyValidUri(uri) && st.names.Has(uri)
      ensures s.record.publicKey == st.names.vals[uri].record.publicKey
      ensures s.record.timestamp <= st.names.vals[uri].record.timestamp
    {
      RegisteredWithin(cfg, lib, run, j, s);
      RegisteredThen(cfg, lib, run, j, s);
      NamesGrowAlongRun(cfg, lib, run, j + 1);
    }
    if Resolved(st, uri).Some? { NamesWereRegistered(cfg, lib, run, uri); }
  }

  // A registration that no later one outdates is what the name resolves to.
  lemma ResolvesToRegistered(cfg: Config, lib: Library, run: Run, i: nat, s: Signed<NameRecord>)
    requires RegisteredAt(cfg, lib, run, i, s)
    requires forall j: nat, t | RegisteredAt(cfg, lib, run, j, t) && t.record.uri == s.record.uri ::
      t.record.timestamp <= s.record.timestamp
    ensures Resolved(After(cfg, lib, run), s.record.uri) == Some(s)
  {
    hide After;
    hide PyValidUri;
    var uri := s.record.uri;
    RegisteredThen(cfg, lib, run, i, s);
    NamesGrowAlongRun(cfg, lib, run, i + 1);
    ResolvesToNewest(cfg, lib, run, uri);
    var answer := Resolved(After(cfg, lib, run), uri).value;
    var j: nat :| RegisteredAt(cfg, lib, run, j, answer);
    assert answer.record.timestamp == s.record.timestamp;
  }

  lemma RegisteredWithin(cfg: Config, lib: Library, run: Run, i: nat, s: Signed<NameRecord>)
    requires RegisteredAt(cfg, lib, run, i, s)
    ensures i < |run|
  {
  }

  // ---- Reviewers

  // Request i enrolled the holder of the key that signed it, reachable as a peer, close to the clock.
  ghost predicate EnrolledAt(cfg: Config, lib: Library, run: Run, i: nat, s: Signed<OptIn>)
  {
    && i < |run| && run[i].req == RegisterReviewer(s) && AcceptedAt(cfg, lib, run, i)
    && s.record.publicKey != "" && s.record.peerId != "" && s.signature != ""
    && lib.verified(s.record.publicKey, s.signature, Opt(s.record))
    && -300 <= run[i].now - s.record.timestamp <= 300
  }

  // Whatever request enrolled somebody, it is of this kind.
  lemma AcceptedOptIn(cfg: Config, lib: Library, run: Run, i: nat, s: Signed<OptIn>)
    requires i < |run| && run[i].req == RegisterReviewer(s) && AcceptedAt(cfg, lib, run, i)
    ensures EnrolledAt(cfg, lib, run, i, s)
    ensures After(cfg, lib, run[..i + 1]).reviewers == After(cfg, lib, run[..i]).reviewers.Put(s.record.publicKey, s)
  {
    assert run[..i + 1][..i] == run[..i];
  }

  lemma {:induction false} ReviewerWasEnrolled(cfg: Config, lib: Library, run: Run, key: string)
    requires After(cfg, lib, run).reviewers.Has(key)
    ensures After(cfg, lib, run).reviewers.vals[key].record.publicKey == key
    ensures exists i :: EnrolledAt(cfg, lib, run, i, After(cfg, lib, run).reviewers.vals[key])
  {
    var n := |run| - 1;
    var before := After(cfg, lib, run[..n]);
    var s := After(cfg, lib, run).reviewers.vals[key];
    if before.reviewers.Has(key) && before.reviewers.vals[key] == s {
      ReviewerWasEnrolled(cfg, lib, run[..n], key);
      var i :| EnrolledAt(cfg, lib, run[..n], i, s);
      AcceptedEarly(cfg, lib, run, n, i);
      assert EnrolledAt(cfg, lib, run, i, s);
    } else {
      assert EnrolledAt(cfg, lib, run, n, s);
    }
  }

  // An entry only gives way to newer ones.
  lemma {:induction false} OptInsGetNewer(cfg: Config, lib: Library, run: Run, i: nat, key: string)
    requires i <= |run| && After(cfg, lib, run[..i]).reviewers.Has(key)
    ensures var registry := After(cfg, lib, run).reviewers;
      && registry.Has(key)
      && After(cfg, lib, run[..i]).reviewers.vals[key].record.timestamp <= registry.vals[key].record.timestamp
    decreases |run|
  {
    if i == |run| {
      assert run[..i] == run;
    } else {
      assert run[..|run| - 1][..i] == run[..i];
      OptInsGetNewer(cfg, lib, run[..|run| - 1], i, key);
    }
  }

  // The entry under a key is the newest opt-in of its holder.
  ghost predicate IsNewestOptIn(cfg: Config, lib: Library, run: Run, key: string, s: Signed<OptIn>)
  {
    && s.record.publicKey == key
    && (exists i :: EnrolledAt(cfg, lib, run, i, s))
    && forall j: nat, t | EnrolledAt(cfg, lib, run, j, t) && t.record.publicKey == key ::
        t.record.timestamp <= s.record.timestamp
  }

  // In every run a key is in the registry exactly when its holder enrolled, by an accepted opt-in signed with the key,
  // and the entry is the newest of them.
  lemma ReviewersWereRegistered(cfg: Config, lib: Library, run: Run, key: string)
    ensures var registry := After(cfg, lib, run).reviewers;
      && (registry.Has(key) <==> exists i, s :: EnrolledAt(cfg, lib, run, i, s) && s.record.publicKey == key)
      && (registry.Has(key) ==> IsNewestOptIn(cfg, lib, run, key, registry.vals[key]))
  {
    var registry := After(cfg, lib, run).reviewers;
    forall j: nat, s | EnrolledAt(cfg, lib, run, j, s) && s.record.publicKey == key
      ensures registry.Has(key) && s.record.timestamp <= registry.vals[key].record.timestamp
    {
      AcceptedOptIn(cfg, lib, run, j, s);
      OptInsGetNewer(cfg, lib, run, j + 1, key);
    }
    hide After;
    hide EnrolledAt;
    if registry.Has(key) { ReviewerWasEnrolled(cfg, lib, run, key); }
  }

  // ---- Inboxes

  lemma {:induction false} ReviewersStay(cfg: Config, lib: Library, run: Run, i: nat, r: string)
    requires i <= |run| && After(cfg, lib, run[..i]).reviewers.Has(r)
    ensures After(cfg, lib, run).reviewers.Has(r)
    decreases |run|
  {
    if i == |run| {
      assert run[..i] == run;
    } else {
      assert run[..|run| - 1][..i] == run[..i];
      ReviewersStay(cfg, lib, run[..|run| - 1], i, r);
    }
  }

  // Request i posted the assignment s, and it was accepted: it names the reviewer for this content, the
  // content key derives from the key that signed it, and with the review rules on it names at most 16
  // distinct reviewers, each of them registered by then.
  ghost predicate AssignedAt(
    cfg: Config, lib: Library, run: Run, i: nat, s: Signed<Assignment>, reviewer: string, contentKey: string)
  {
    var a := s.record;
    && i < |run| && run[i].req == PostAssignment(s) && AcceptedAt(cfg, lib, run, i)
    && a.contentKey == contentKey == lib.contentKey(a.uri, a.publisher)
    && reviewer in a.reviewers
    && lib.verified(a.publisher, s.signature, Assign(a))
    && (cfg.strict ==>
        && |a.reviewers| <= MAX_REVIEWERS_PER_ASSIGNMENT
        && NoDuplicates(a.reviewers)
        && (cfg.hasReviewers ==> After(cfg, lib, run[..i]).reviewers.Has(reviewer)))
  }

  lemma AssignedEarly(
    cfg: Config, lib: Library, run: Run, n: nat, i: nat, s: Signed<Assignment>, reviewer: string, contentKey: string)
    requires n <= |run| && AssignedAt(cfg, lib, run[..n], i, s, reviewer, contentKey)
    ensures AssignedAt(cfg, lib, run, i, s, reviewer, contentKey)
  {
    AcceptedEarly(cfg, lib, run, n, i);
  }

  // Whatever an inbox holds was assigned to its owner by an accepted request of the run.
  lemma {:induction false} InboxWasAssigned(cfg: Config, lib: Library, run: Run, reviewer: string, contentKey: string)
    requires Slot(After(cfg, lib, run).inbox, reviewer, contentKey).Some?
    ensures exists i ::
      AssignedAt(cfg, lib, run, i, Slot(After(cfg, lib, run).inbox, reviewer, contentKey).value, reviewer, contentKey)
  {
    var n := |run| - 1;
    var before, e := After(cfg, lib, run[..n]), run[n];
    var s := Slot(After(cfg, lib, run).inbox, reviewer, contentKey).value;
    if Slot(before.inbox, reviewer, contentKey) == Some(s) {
      InboxWasAssigned(cfg, lib, run[..n], reviewer, contentKey);
      var i :| AssignedAt(cfg, lib, run[..n], i, s, reviewer, contentKey);
      AssignedEarly(cfg, lib, run, n, i, s, reviewer, contentKey);
    } else {
      AddAssignmentSlot(before.inbox, e.req.assignment, reviewer, contentKey);
      assert AssignedAt(cfg, lib, run, n, s, reviewer, contentKey);
    }
  }

  // With the rules on, every inbox owner is a registered reviewer named in each assignment it holds.
  lemma InboxOwnersAreRegistered(cfg: Config, lib: Library, run: Run, reviewer: string, contentKey: string)
    requires cfg.strict && cfg.hasReviewers
    requires Slot(After(cfg, lib, run).inbox, reviewer, contentKey).Some?
    ensures After(cfg, lib, run).reviewers.Has(reviewer)
    ensures var a := Slot(After(cfg, lib, run).inbox, reviewer, contentKey).value.record;
      reviewer in a.reviewers && a.contentKey == contentKey
  {
    InboxWasAssigned(cfg, lib, run, reviewer, contentKey);
    var s := Slot(After(cfg, lib, run).inbox, reviewer, contentKey).value;
    var i :| AssignedAt(cfg, lib, run, i, s, reviewer, contentKey);
    ReviewersStay(cfg, lib, run, i, reviewer);
  }

  // ---- Reviews

  // Request j attached the review; request i, earlier, assigned the content to its reviewer in time.
  ghost predicate ReviewedAt(
    cfg: Config, lib: Library, run: Run, i: nat, a: Signed<Assignment>, j: nat, r: Signed<Review>)
  {
    && i < j < |run|
    && run[j].req == AttachReview(r) && AcceptedAt(cfg, lib, run, j)
    && VerifyReview(lib, r) && Timely(run[j].now, r.record.timestamp)
    && AssignedAt(cfg, lib, run, i, a, r.record.reviewer, r.record.contentKey)
    && r.record.timestamp <= a.record.deadline
  }

  lemma AcceptedReviewWasAssigned(cfg: Config, lib: Library, run: Run, j: nat, r: Signed<Review>)
    requires cfg.strict && j < |run| && run[j].req == AttachReview(r) && AcceptedAt(cfg, lib, run, j)
    ensures exists i, a :: ReviewedAt(cfg, lib, run, i, a, j, r)
  {
    var before := After(cfg, lib, run[..j]);
    var slot := Slot(before.inbox, r.record.reviewer, r.record.contentKey);
    InboxWasAssigned(cfg, lib, run[..j], r.record.reviewer, r.record.contentKey);
    var i :| AssignedAt(cfg, lib, run[..j], i, slot.value, r.record.reviewer, r.record.contentKey);
    AssignedEarly(cfg, lib, run, j, i, slot.value, r.record.reviewer, r.record.contentKey);
    assert ReviewedAt(cfg, lib, run, i, slot.value, j, r);
  }

  // An attached review carries the key of the slot it sits in and was accepted at some point of the run.
  lemma {:induction false} AttachedWasAccepted(
    cfg: Config, lib: Library, run: Run, contentKey: string, reviewer: string)
    returns (j: nat)
    requires Attached(After(cfg, lib, run).attachments, contentKey, reviewer).Some?
    ensures var r := Attached(After(cfg, lib, run).attachments, contentKey, reviewer).value;
      && j < |run| && run[j].req == AttachReview(r) && AcceptedAt(cfg, lib, run, j)
      && r.record.contentKey == contentKey && r.record.reviewer == reviewer
  {
    var n := |run| - 1;
    var before, e := After(cfg, lib, run[..n]), run[n];
    var r := Attached(After(cfg, lib, run).attachments, contentKey, reviewer);
    if Attached(before.attachments, contentKey, reviewer) == r {
      j := AttachedWasAccepted(cfg, lib, run[..n], contentKey, reviewer);
      AcceptedEarly(cfg, lib, run, n, j);
    } else {
      AttachSlot(before.attachments, e.req.review, contentKey, reviewer);
      j := n;
    }
  }

  // In every run of a strict server, whoever appears as a reviewer of a content was assigned it before, by
  // a request signed with the key its content key derives from, and reviewed it by that deadline. The
  // assignment may since have been replaced in the reviewer's inbox.
  lemma EveryReviewWasAssigned(cfg: Config, lib: Library, run: Run, contentKey: string, reviewer: string)
    requires cfg.strict
    requires Attached(After(cfg, lib, run).attachments, contentKey, reviewer).Some?
    ensures var r := Attached(After(cfg, lib, run).attachments, contentKey, reviewer).value;
      && r.record.contentKey == contentKey && r.record.reviewer == reviewer
      && exists i, a, j :: ReviewedAt(cfg, lib, run, i, a, j, r)
  {
    var r := Attached(After(cfg, lib, run).attachments, contentKey, reviewer).value;
    var j := AttachedWasAccepted(cfg, lib, run, contentKey, reviewer);
    AcceptedReviewWasAssigned(cfg, lib, run, j, r);
    var i, a :| ReviewedAt(cfg, lib, run, i, a, j, r);
    assert ReviewedAt(cfg, lib, run, i, a, j, r);
  }

  // With content keys as the program derives them, only the holder of k can have a review attached to what
  // k publishes under the name u: the assignment is signed with k, or a SHA-256 collision is exhibited.
  lemma OnlyThePublisherAssigns(
    cfg: Config, lib: Library, run: Run, c: Records.Crypto, u: string, k: string, reviewer: string)
    requires cfg.strict && ':' !in u && ':' !in k
    requires forall v, l :: lib.contentKey(v, l) == Records.ContentKey(c, v, l)
    requires Attached(After(cfg, lib, run).attachments, Records.ContentKey(c, u, k), reviewer).Some?
    ensures var r := Attached(After(cfg, lib, run).attachments, Records.ContentKey(c, u, k), reviewer).value;
      exists i, a, j ::
        && ReviewedAt(cfg, lib, run, i, a, j, r)
        && ((a.record.uri == u && a.record.publisher == k && lib.verified(k, a.signature, Assign(a.record))) ||
            Records.Collision(c, Utf8(u + ":" + k), Utf8(a.record.uri + ":" + a.record.publisher)))
  {
    hide After;
    hide Utf8;
    hide Records.ContentKey;
    hide Records.Collision;
    var contentKey := Records.ContentKey(c, u, k);
    var r := Attached(After(cfg, lib, run).attachments, contentKey, reviewer).value;
    EveryReviewWasAssigned(cfg, lib, run, contentKey, reviewer);
    var i, a, j :| ReviewedAt(cfg, lib, run, i, a, j, r);
    Records.ContentKeyBinds(c, u, k, a.record.uri, a.record.publisher);
    assert ReviewedAt(cfg, lib, run, i, a, j, r);
  }

  // By the server's own clock no review is attached later than the allowed drift after its deadline.
  lemma NoLateReviews(cfg: Config, lib: Library, run: Run, i: nat, a: Signed<Assignment>, j: nat, r: Signed<Review>)
    requires ReviewedAt(cfg, lib, run, i, a, j, r)
    ensures run[j].now <= a.record.deadline + MAX_DRIFT
  {
  }

  // Without the rules a single unassigned key is enough: this is what the strict server excludes.
  lemma OpenServerNeedsNoAssignment(cfg: Config, lib: Library, r: Signed<Review>, now: int)
    requires !cfg.strict && cfg.hasAttachments
    requires r.signature != "" && r.record.contentKey != "" && r.record.reviewer != ""
    requires VerifyReview(lib, r) && Timely(now, r.record.timestamp)
    ensures var st := After(cfg, lib, [Event(AttachReview(r), now)]);
      Attached(st.attachments, r.record.contentKey, r.record.reviewer) == Some(r)
  {
    var run := [Event(AttachReview(r), now)];
    assert run[..0] == [];
    assert After(cfg, lib, run[..0]) == Start();
  }

  // ---- Counting

  // The reviewers named for a content by the accepted assignments of the run, and how many those are.
  ghost function NamedFor(cfg: Config, lib: Library, run: Run, contentKey: string): set<string>
  {
    if run == [] then {}
    else
      var n := |run| - 1;
      NamedFor(cfg, lib, run[..n], contentKey) +
      if Assigns(cfg, lib, run, contentKey) then (set r | r in run[n].req.assignment.record.reviewers) else {}
  }

  // The last request of the run is an accepted assignment for the content.
  ghost predicate Assigns(cfg: Config, lib: Library, run: Run, contentKey: string)
    requires run != []
  {
    var n := |run| - 1;
    run[n].req.PostAssignment? && run[n].req.assignment.record.contentKey == contentKey && AcceptedAt(cfg, lib, run, n)
  }

  ghost function AssignmentCount(cfg: Config, lib: Library, run: Run, contentKey: string): nat
  {
    if run == [] then 0
    else
      AssignmentCount(cfg, lib, run[..|run| - 1], contentKey) + if Assigns(cfg, lib, run, contentKey) then 1 else 0
  }

  lemma {:induction false} SetOfSeq(rs: seq<string>)
    ensures |set r | r in rs| <= |rs|
  {
    if rs != [] {
      SetOfSeq(rs[1..]);
      assert rs == [rs[0]] + rs[1..];
      assert (set r | r in rs) == {rs[0]} + (set r | r in rs[1..]);
    }
  }

  lemma {:induction false} NamedAreFew(cfg: Config, lib: Library, run: Run, contentKey: string)
    requires cfg.strict
    ensures |NamedFor(cfg, lib, run, contentKey)| <=
      MAX_REVIEWERS_PER_ASSIGNMENT * AssignmentCount(cfg, lib, run, contentKey)
  {
    if run != [] {
      var n := |run| - 1;
      NamedAreFew(cfg, lib, run[..n], contentKey);
      if Assigns(cfg, lib, run, contentKey) {
        SetOfSeq(run[n].req.assignment.record.reviewers);
      }
    }
  }

  lemma {:induction false} AssignedAreNamed(
    cfg: Config, lib: Library, run: Run, i: nat, s: Signed<Assignment>, reviewer: string, contentKey: string)
    requires AssignedAt(cfg, lib, run, i, s, reviewer, contentKey)
    ensures reviewer in NamedFor(cfg, lib, run, contentKey)
    decreases |run|
  {
    var n := |run| - 1;
    if i < n {
      AcceptedEarly(cfg, lib, run, n, i);
      AssignedAreNamed(cfg, lib, run[..n], i, s, reviewer, contentKey);
    }
  }

  lemma SmallerSet(a: set<string>, b: set<string>)
    requires a <= b
    ensures |a| <= |b|
  {
    assert a + (b - a) == b;
    assert |a + (b - a)| == |a| + |b - a|;
  }

  ghost function ReviewersOf(st: State, contentKey: string): set<string>
  {
    if contentKey in st.attachments then st.attachments[contentKey].vals.Keys else {}
  }

  // A content has at most 16 reviewers per assignment its publisher had accepted; mere keys add none.
  lemma ReviewersAreFew(cfg: Config, lib: Library, run: Run, contentKey: string)
    requires cfg.strict
    ensures ReviewersOf(After(cfg, lib, run), contentKey) <= NamedFor(cfg, lib, run, contentKey)
    ensures |ReviewersOf(After(cfg, lib, run), contentKey)| <=
      MAX_REVIEWERS_PER_ASSIGNMENT * AssignmentCount(cfg, lib, run, contentKey)
  {
    var st := After(cfg, lib, run);
    forall k | k in ReviewersOf(st, contentKey) ensures k in NamedFor(cfg, lib, run, contentKey) {
      EveryReviewWasAssigned(cfg, lib, run, contentKey, k);
      var r := Attached(st.attachments, contentKey, k).value;
      var i, a, j :| ReviewedAt(cfg, lib, run, i, a, j, r);
      AssignedAreNamed(cfg, lib, run, i, a, k, contentKey);
    }
    NamedAreFew(cfg, lib, run, contentKey);
    SmallerSet(ReviewersOf(st, contentKey), NamedFor(cfg, lib, run, contentKey));
  }
}
