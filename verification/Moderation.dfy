/**
 The server's limit on reviewers and the scorer's weight for strangers, put together: nobody hides a
 content from readers who do not know them, however many keys they hold (naming.py:570-597,
 trust/scorer.py:55-145, peer/peer.py:686-719).
 */
module Moderation {
  import opened NamingHistory
  import opened NamingServer
  import opened Scoring
  import opened Stores

  // `_attachments_to_signals`: entries that do not verify or belong to another content are dropped.
  function ToSignals(lib: Library, entries: seq<Signed<Review>>, contentKey: string): seq<Signal>
  {
    if entries == [] then []
    else
      var before := ToSignals(lib, entries[..|entries| - 1], contentKey);
      var e := entries[|entries| - 1];
      if e.signature == "" || !VerifyReview(lib, e) || e.record.contentKey != contentKey then before
      else before + [Signal(contentKey, e.record.reviewer, e.record.verdict, e.record.comment, e.record.timestamp)]
  }

  method AttachmentsToSignals(
    lib: Library, entries: seq<Signed<Review>>, contentKey: string) returns (signals: seq<Signal>)
    ensures signals == ToSignals(lib, entries, contentKey)
  {
    signals := [];
    for i := 0 to |entries|
      invariant signals == ToSignals(lib, entries[..i], contentKey)
    {
      assert entries[..i + 1][..i] == entries[..i];
      var e := entries[i];
      if e.signature != "" && VerifyReview(lib, e) && e.record.contentKey == contentKey {
        signals := signals +
          [Signal(contentKey, e.record.reviewer, e.record.verdict, e.record.comment, e.record.timestamp)];
      }
    }
    assert entries[..|entries|] == entries;
  }

  // What a reader is given for a content by a server in this state.
  function Served(st: State, contentKey: string): seq<Signed<Review>>
    requires contentKey in st.attachments ==> st.attachments[contentKey].Valid()
  {
    if contentKey in st.attachments then st.attachments[contentKey].Values() else []
  }

  ghost predicate Reports(r: Review, contentKey: string, s: Signal)
  {
    && r.contentKey == contentKey == s.contentKey
    && s.source == r.reviewer && s.verdict == r.verdict && s.timestamp == r.timestamp
  }

  // Whatever a server answers, the signals are reviews of this content, each signed by its reviewer.
  lemma {:induction false} SignalsAreVerified(lib: Library, entries: seq<Signed<Review>>, contentKey: string, s: Signal)
    requires s in ToSignals(lib, entries, contentKey)
    ensures exists e :: e in entries && VerifyReview(lib, e) && Reports(e.record, contentKey, s)
  {
    var init, last := entries[..|entries| - 1], entries[|entries| - 1];
    assert entries == init + [last];
    if s in ToSignals(lib, init, contentKey) {
      SignalsAreVerified(lib, init, contentKey, s);
    }
  }

  lemma SourcesWereReviewers(cfg: Config, lib: Library, run: Run, contentKey: string)
    ensures contentKey in After(cfg, lib, run).attachments ==> After(cfg, lib, run).attachments[contentKey].Valid()
    ensures Sources(ToSignals(lib, Served(After(cfg, lib, run), contentKey), contentKey)) <=
      ReviewersOf(After(cfg, lib, run), contentKey)
  {
    hide After;
    hide ToSignals;
    hide VerifyReview;
    RunWellFormed(cfg, lib, run);
    var st := After(cfg, lib, run);
    var entries := Served(st, contentKey);
    var signals := ToSignals(lib, entries, contentKey);
    forall k | k in Sources(signals) ensures k in ReviewersOf(st, contentKey) {
      var s :| s in signals && s.source == k;
      SignalsAreVerified(lib, entries, contentKey, s);
      var e :| e in entries && VerifyReview(lib, e) && Reports(e.record, contentKey, s);
      var i :| 0 <= i < |entries| && entries[i] == e;
      EntryOfReviewer(cfg, lib, run, contentKey, i);
    }
  }

  lemma EntryOfReviewer(cfg: Config, lib: Library, run: Run, contentKey: string, i: nat)
    requires contentKey in After(cfg, lib, run).attachments && After(cfg, lib, run).attachments[contentKey].Valid()
    requires i < |Served(After(cfg, lib, run), contentKey)|
    ensures Served(After(cfg, lib, run), contentKey)[i].record.reviewer in ReviewersOf(After(cfg, lib, run), contentKey)
  {
    hide After;
    var key := After(cfg, lib, run).attachments[contentKey].keys[i];
    var _ := AttachedWasAccepted(cfg, lib, run, contentKey, key);
  }

  // In any run of a strict server, strangers score at most 4.8 per assignment the publisher had accepted.
  lemma StrangersPerAssignment(cfg: Config, lib: Library, run: Run, contentKey: string, r: Visitor)
    requires cfg.strict && r.policy == DEFAULT_POLICY && Halves(r.halve)
    requires forall k | k in ReviewersOf(After(cfg, lib, run), contentKey) :: Unknown(r, k)
    ensures contentKey in After(cfg, lib, run).attachments ==> After(cfg, lib, run).attachments[contentKey].Valid()
    ensures Score(r, ToSignals(lib, Served(After(cfg, lib, run), contentKey), contentKey)) <=
      4.8 * AssignmentCount(cfg, lib, run, contentKey) as real
  {
    hide After;
    hide ToSignals;
    hide Score;
    SourcesWereReviewers(cfg, lib, run, contentKey);
    var st := After(cfg, lib, run);
    var signals := ToSignals(lib, Served(st, contentKey), contentKey);
    forall s | s in signals ensures Unknown(r, s.source) {
      assert s.source in Sources(signals);
    }
    StrangersScoreLittle(r, signals);
    ReviewersAreFew(cfg, lib, run, contentKey);
    SmallerSet(Sources(signals), ReviewersOf(st, contentKey));
  }

  // After one accepted assignment, strangers alone never hide the content from a reader with the default
  // policy, whatever they sign and whenever.
  lemma StrangersCannotHide(cfg: Config, lib: Library, run: Run, contentKey: string, r: Visitor)
    requires cfg.strict && r.policy == DEFAULT_POLICY && Halves(r.halve)
    requires AssignmentCount(cfg, lib, run, contentKey) <= 1
    requires forall k | k in ReviewersOf(After(cfg, lib, run), contentKey) :: Unknown(r, k)
    ensures contentKey in After(cfg, lib, run).attachments ==> After(cfg, lib, run).attachments[contentKey].Valid()
    ensures Decide(Score(r, ToSignals(lib, Served(After(cfg, lib, run), contentKey), contentKey)), r.policy) != Hide
  {
    hide After;
    hide ToSignals;
    hide Score;
    hide AssignmentCount;
    StrangersPerAssignment(cfg, lib, run, contentKey, r);
  }

  // The limit has no slack: seventeen strangers who reject, fresh, do hide.
  lemma {:induction false} FreshRejections(r: Visitor, signals: seq<Signal>)
    requires r.policy == DEFAULT_POLICY
    requires forall s | s in signals :: Unknown(r, s.source) && s.verdict == "reject" && s.timestamp >= r.now
    requires forall i, j | 0 <= i < j < |signals| :: signals[i].source != signals[j].source
    ensures Score(r, signals) == 0.3 * |signals| as real
    ensures Decide(Score(r, signals), r.policy) == Hide <==> |signals| >= 17
  {
    hide Contribution;
    hide BestOf;
    if signals == [] {
      NoSignals(r);
    } else {
      var n := |signals| - 1;
      var init := signals[..n];
      assert signals == init + [signals[n]];
      assert signals[n] in signals;
      FreshRejections(r, init);
      KeptIsMostSevere(r.policy, init, signals[n].source);
      OneMoreSignal(r, init, signals[n]);
      FreshRejection(r, signals[n]);
      assert 0.3 * n as real + 0.3 == 0.3 * (n + 1) as real;
    }
    assert Decide(Score(r, signals), r.policy) == Hide <==> 0.3 * |signals| as real >= 5.0;
  }

  lemma NoSignals(r: Visitor)
    ensures Score(r, []) == 0.0
  {
  }

  lemma FreshRejection(r: Visitor, s: Signal)
    requires r.policy == DEFAULT_POLICY && Unknown(r, s.source) && s.verdict == "reject" && s.timestamp >= r.now
    ensures Contribution(r, s) == 0.3
  {
    DefaultSeverities();
  }

  // Each entry speaks for itself: the signals of two answers in a row are those of the one and then of the other, and
  // one entry gives its signal if it is a signed review of the content with a known verdict, and none otherwise.
  lemma {:induction false} SignalsEntryByEntry(
    lib: Library, a: seq<Signed<Review>>, b: seq<Signed<Review>>, contentKey: string)
    ensures ToSignals(lib, a + b, contentKey) == ToSignals(lib, a, contentKey) + ToSignals(lib, b, contentKey)
  {
    if b == [] {
      assert a + b == a;
    } else {
      assert (a + b)[..|a + b| - 1] == a + b[..|b| - 1];
      SignalsEntryByEntry(lib, a, b[..|b| - 1], contentKey);
      hide VerifyReview;
    }
  }

  lemma SignalOfOne(lib: Library, e: Signed<Review>, contentKey: string)
    ensures var r := e.record;
      ToSignals(lib, [e], contentKey) ==
        if e.signature != "" && r.contentKey == contentKey && r.verdict in {"ok", "warn", "reject"} &&
          lib.verified(r.reviewer, e.signature, Rev(r))
        then [Signal(r.contentKey, r.reviewer, r.verdict, r.comment, r.timestamp)] else []
  {
    assert [e][..0] == [];
  }
}
