/**
 Runs of a strict server in which strangers review a content, as many as one likes: it takes one accepted assignment
 for sixteen of them. Seventeen hide the content from a newcomer, so two assignments do what one cannot; and whatever
 their number, once their comments do not fit in an answer no reader sees any review. Three long comments are enough
 for that, in requests the server reads.
 */
module Strangers {
  import opened Answers
  import opened Json
  import opened LastWriterWins
  import opened Messages
  import opened Moderation
  import opened NamingHistory
  import opened NamingServer
  import opened Printer
  import opened Reading
  import opened Scoring
  import opened Spelling
  import opened Stores
  import opened Text
  import opened Wrappers

  const EACH := MAX_REVIEWERS_PER_ASSIGNMENT

  // The publisher's name and key, the reviewers' keys, the moment it all happens, what each review says, and how the
  // holders of these keys sign.
  datatype Plot = Plot(
    uri: string, key: string, members: seq<string>, now: JsonInt, comment: string, sign: Payload -> string)
  {
    // As many assignments as name all members, sixteen each.
    function Posts(): nat { (|members| + EACH - 1) / EACH }

    function Steps(): nat { |members| + Posts() + |members| }

    function First(n: nat): nat { if n < |members| then n else |members| }

    // How many assignments have been posted and reviews attached after n steps.
    function Posted(n: nat): nat
    {
      if n <= |members| then 0 else if n - |members| < Posts() then n - |members| else Posts()
    }

    function Answered(n: nat): nat
    {
      if n <= |members| + Posts() then 0 else First(n - |members| - Posts())
    }
  }

  // Each signs with a key of its own, and nothing is asked of any other signature.
  ghost predicate Possible(lib: Library, p: Plot)
  {
    && 0 < p.now
    && lib.contentKey(p.uri, p.key) != ""
    && NoDuplicates(p.members) && "" !in p.members
    && forall x | SignerOf(x) == p.key || SignerOf(x) in p.members ::
        p.sign(x) != "" && lib.verified(SignerOf(x), p.sign(x), x)
  }

  // So the keys may be such that no signature verifies under two of them.
  lemma KeysMayBind(p: Plot, contentKey: (string, string) -> string)
    requires 0 < p.now && contentKey(p.uri, p.key) != "" && p.key != ""
    requires NoDuplicates(p.members) && "" !in p.members
    ensures var lib := Library((k, s, x) => s == k && SignerOf(x) == k, contentKey);
      && Possible(lib, p.(sign := x => SignerOf(x)))
      && forall k, l, s, x | lib.verified(k, s, x) && lib.verified(l, s, x) :: k == l
  {
  }

  function OptInOf(p: Plot, i: nat): Signed<OptIn>
    requires i < |p.members|
  {
    var o := OptIn(p.members[i], "peer", [], [], p.now);
    Signed(o, p.sign(Opt(o)))
  }

  // The k-th assignment names the k-th sixteen.
  function AssignmentOf(lib: Library, p: Plot, k: nat): Signed<Assignment>
    requires k < p.Posts()
  {
    var reviewers := p.members[EACH * k..p.First(EACH * k + EACH)];
    var a := Assignment(p.uri, lib.contentKey(p.uri, p.key), p.key, reviewers, p.now, p.now);
    Signed(a, p.sign(Assign(a)))
  }

  function ReviewBy(lib: Library, p: Plot, i: nat): Signed<Review>
    requires i < |p.members|
  {
    var r := Review(lib.contentKey(p.uri, p.key), p.members[i], "reject", p.comment, p.now);
    Signed(r, p.sign(Rev(r)))
  }

  function StepOf(lib: Library, p: Plot, i: nat): Request
    requires i < p.Steps()
  {
    if i < |p.members| then RegisterReviewer(OptInOf(p, i))
    else if i < |p.members| + p.Posts() then PostAssignment(AssignmentOf(lib, p, i - |p.members|))
    else AttachReview(ReviewBy(lib, p, i - |p.members| - p.Posts()))
  }

  function RunOf(lib: Library, p: Plot, n: nat): Run
    requires n <= p.Steps()
  {
    seq(n, i requires 0 <= i < n => Event(StepOf(lib, p, i), p.now))
  }

  // ---- What the stores hold after n steps

  ghost predicate Registered(p: Plot, st: State, n: nat)
  {
    forall j | 0 <= j < |p.members| :: st.reviewers.Has(p.members[j]) <==> j < n
  }

  // The first k assignments have been delivered.
  ghost predicate Assigned(lib: Library, p: Plot, st: State, k: nat)
  {
    forall j | 0 <= j < |p.members| ::
      Slot(st.inbox, p.members[j], lib.contentKey(p.uri, p.key)) ==
        if j / EACH < k then Some(AssignmentOf(lib, p, j / EACH)) else None
  }

  ghost predicate Reviewed(lib: Library, p: Plot, st: State, n: nat)
    requires n <= |p.members|
  {
    var key := lib.contentKey(p.uri, p.key);
    if n == 0 then key !in st.attachments
    else
      && key in st.attachments && st.attachments[key].Valid() && |st.attachments[key].keys| == n
      && forall j | 0 <= j < n ::
          st.attachments[key].keys[j] == p.members[j] && st.attachments[key].vals[p.members[j]] == ReviewBy(lib, p, j)
  }

  ghost predicate Reached(lib: Library, p: Plot, st: State, n: nat)
    requires n <= p.Steps()
  {
    Registered(p, st, p.First(n)) && Assigned(lib, p, st, p.Posted(n)) && Reviewed(lib, p, st, p.Answered(n))
  }

  lemma RegisterStep(cfg: Config, lib: Library, p: Plot, st: State, i: nat)
    requires cfg.strict && cfg.hasReviewers && Possible(lib, p) && i < |p.members| && Registered(p, st, i)
    ensures Refused(cfg, lib, st, StepOf(lib, p, i), p.now).None?
    ensures Registered(p, Step(cfg, lib, st, StepOf(lib, p, i), p.now), i + 1)
    ensures var after := Step(cfg, lib, st, StepOf(lib, p, i), p.now);
      after.inbox == st.inbox && after.attachments == st.attachments
  {
    var s := OptInOf(p, i);
    assert SignerOf(Opt(s.record)) == p.members[i] && s.record.peerId[0] == 'p';
    assert RegisterReviewerRefusal(cfg, lib, st, s, p.now).None?;
  }

  lemma AssignmentParts(lib: Library, p: Plot, k: nat)
    requires k < p.Posts() && NoDuplicates(p.members)
    ensures var a := AssignmentOf(lib, p, k).record;
      && 0 < |a.reviewers| <= EACH && NoDuplicates(a.reviewers)
      && (forall r | r in a.reviewers :: r in p.members)
      && forall j | 0 <= j < |p.members| :: p.members[j] in a.reviewers <==> j / EACH == k
  {
    var rs := AssignmentOf(lib, p, k).record.reviewers;
    var from := EACH * k;
    assert from < |p.members|;
    assert forall i | 0 <= i < |rs| :: rs[i] == p.members[from + i];
    forall j | 0 <= j < |p.members| ensures p.members[j] in rs <==> j / EACH == k {
      if j / EACH == k { assert rs[j - from] == p.members[j]; }
    }
  }

  lemma AssignmentFields(lib: Library, p: Plot, k: nat)
    requires k < p.Posts()
    ensures var s := AssignmentOf(lib, p, k);
      && s.signature == p.sign(Assign(s.record)) && s.record.contentKey == lib.contentKey(p.uri, p.key)
      && s.record.uri == p.uri && s.record.publisher == p.key && s.record.deadline == p.now == s.record.timestamp
  {
  }

  lemma AssignAllowed(cfg: Config, lib: Library, p: Plot, st: State, k: nat)
    requires cfg.strict && cfg.hasInbox && Possible(lib, p) && Registered(p, st, |p.members|) && k < p.Posts()
    ensures PostRefusal(cfg, lib, st, AssignmentOf(lib, p, k), p.now).None?
  {
    AssignmentParts(lib, p, k);
    AssignmentFields(lib, p, k);
    var s := AssignmentOf(lib, p, k);
    hide AssignmentOf;
    assert SignerOf(Assign(s.record)) == p.key;
    assert VerifyAssignment(lib, s, p.now);
    assert CheckReviewers(cfg, st.reviewers, s.record).None?;
  }

  lemma AssignStep(cfg: Config, lib: Library, p: Plot, st: State, k: nat)
    requires cfg.strict && cfg.hasInbox && Possible(lib, p) && Registered(p, st, |p.members|)
    requires k < p.Posts() && Assigned(lib, p, st, k)
    ensures Refused(cfg, lib, st, PostAssignment(AssignmentOf(lib, p, k)), p.now).None?
    ensures var after := Step(cfg, lib, st, PostAssignment(AssignmentOf(lib, p, k)), p.now);
      && Assigned(lib, p, after, k + 1)
      && after.reviewers == st.reviewers && after.attachments == st.attachments
  {
    AssignAllowed(cfg, lib, p, st, k);
    AssignmentParts(lib, p, k);
    AssignmentFields(lib, p, k);
    var s, key := AssignmentOf(lib, p, k), lib.contentKey(p.uri, p.key);
    hide AssignmentOf;
    hide AddAssignment;
    hide PostRefusal;
    forall j | 0 <= j < |p.members|
      ensures Slot(AddAssignment(st.inbox, s), p.members[j], key) ==
        if j / EACH < k + 1 then Some(AssignmentOf(lib, p, j / EACH)) else None
    {
      AddAssignmentSlot(st.inbox, s, p.members[j], key);
    }
  }

  lemma AttachAllowed(cfg: Config, lib: Library, p: Plot, st: State, i: nat)
    requires cfg.strict && cfg.hasInbox && cfg.hasAttachments && Possible(lib, p) && i < |p.members|
    requires Assigned(lib, p, st, p.Posts()) && AttachRefusal(st.attachments, ReviewBy(lib, p, i)).None?
    ensures AttachReviewRefusal(cfg, lib, st, ReviewBy(lib, p, i), p.now).None?
  {
    AssignmentFields(lib, p, i / EACH);
    var s := ReviewBy(lib, p, i);
    assert SignerOf(Rev(s.record)) == p.members[i];
    hide AssignmentOf;
    hide AttachRefusal;
    hide Slot;
    assert Slot(st.inbox, p.members[i], lib.contentKey(p.uri, p.key)) == Some(AssignmentOf(lib, p, i / EACH));
  }

  lemma AttachEffect(lib: Library, p: Plot, st: State, i: nat)
    requires Possible(lib, p) && i < |p.members| && Reviewed(lib, p, st, i)
    ensures AttachRefusal(st.attachments, ReviewBy(lib, p, i)).None?
    ensures Reviewed(lib, p, st.(attachments := AttachReviewTo(st.attachments, ReviewBy(lib, p, i))), i + 1)
  {
    var s := ReviewBy(lib, p, i);
    NewReviewer(lib, p, st, i);
    hide Possible;
    hide ReviewBy;
    AttachedNext(st.attachments, s);
    hide AttachReviewTo;
    hide AttachRefusal;
  }

  lemma NewReviewer(lib: Library, p: Plot, st: State, i: nat)
    requires Possible(lib, p) && i < |p.members| && Reviewed(lib, p, st, i)
    ensures var s, key := ReviewBy(lib, p, i), lib.contentKey(p.uri, p.key);
      && s.record.contentKey == key != "" && s.record.reviewer == p.members[i] != ""
      && (key in st.attachments ==> st.attachments[key].Valid() && p.members[i] !in st.attachments[key].vals)
  {
    assert p.members[i] in p.members;
    if i > 0 {
      var d := st.attachments[lib.contentKey(p.uri, p.key)];
      forall j | 0 <= j < i ensures d.keys[j] != p.members[i] {}
      assert p.members[i] !in d.vals;
    }
  }

  // A first review of the reviewer goes behind the others.
  lemma AttachedNext(a: Attachments, s: Signed<Review>)
    requires s.record.contentKey != "" && s.record.reviewer != ""
    requires s.record.contentKey in a ==>
      a[s.record.contentKey].Valid() && s.record.reviewer !in a[s.record.contentKey].vals
    ensures AttachRefusal(a, s).None?
    ensures var key, after := s.record.contentKey, AttachReviewTo(a, s);
      && key in after && after[key].Valid()
      && after[key].keys == (if key in a then a[key].keys else []) + [s.record.reviewer]
      && after[key].vals == (if key in a then a[key].vals else map[])[s.record.reviewer := s]
  {
  }

  lemma AttachStep(cfg: Config, lib: Library, p: Plot, st: State, i: nat)
    requires cfg.strict && cfg.hasInbox && cfg.hasAttachments && Possible(lib, p) && i < |p.members|
    requires Assigned(lib, p, st, p.Posts()) && Reviewed(lib, p, st, i)
    ensures Refused(cfg, lib, st, AttachReview(ReviewBy(lib, p, i)), p.now).None?
    ensures var after := Step(cfg, lib, st, AttachReview(ReviewBy(lib, p, i)), p.now);
      Reviewed(lib, p, after, i + 1) && after.reviewers == st.reviewers && after.inbox == st.inbox
  {
    AttachEffect(lib, p, st, i);
    AttachAllowed(cfg, lib, p, st, i);
    hide Reviewed;
    hide AttachReviewTo;
    hide AttachReviewRefusal;
    hide ReviewBy;
  }

  lemma StartReached(lib: Library, p: Plot)
    ensures Reached(lib, p, Start(), 0)
  {
  }

  ghost predicate Full(cfg: Config) { cfg.strict && cfg.hasReviewers && cfg.hasInbox && cfg.hasAttachments }

  // The n-th step is accepted and takes the stores on.
  lemma OneStep(cfg: Config, lib: Library, p: Plot, st: State, n: nat)
    requires Full(cfg) && Possible(lib, p) && n < p.Steps() && Reached(lib, p, st, n)
    ensures Refused(cfg, lib, st, StepOf(lib, p, n), p.now).None?
    ensures Reached(lib, p, Step(cfg, lib, st, StepOf(lib, p, n), p.now), n + 1)
  {
    var size, posts := |p.members|, p.Posts();
    var after := Step(cfg, lib, st, StepOf(lib, p, n), p.now);
    hide Registered;
    hide Assigned;
    hide Reviewed;
    hide Refused;
    hide Step;
    hide AssignmentOf;
    hide ReviewBy;
    hide OptInOf;
    hide Possible;
    hide Plot.Posts;
    if n < size {
      RegisterStep(cfg, lib, p, st, n);
      Keeps(lib, p, st, after, n, 0, 0);
    } else if n < size + posts {
      AssignStep(cfg, lib, p, st, n - size);
      Keeps(lib, p, st, after, size, 0, 0);
    } else {
      AttachStep(cfg, lib, p, st, n - size - posts);
      Keeps(lib, p, st, after, size, posts, 0);
    }
  }

  lemma Keeps(lib: Library, p: Plot, a: State, b: State, n: nat, k: nat, m: nat)
    requires m <= |p.members|
    ensures a.reviewers == b.reviewers && Registered(p, a, n) ==> Registered(p, b, n)
    ensures a.inbox == b.inbox && Assigned(lib, p, a, k) ==> Assigned(lib, p, b, k)
    ensures a.attachments == b.attachments && Reviewed(lib, p, a, m) ==> Reviewed(lib, p, b, m)
  {
  }

  lemma {:induction false} RunReaches(cfg: Config, lib: Library, p: Plot, n: nat)
    requires Full(cfg) && Possible(lib, p) && n <= p.Steps()
    ensures Reached(lib, p, After(cfg, lib, RunOf(lib, p, n)), n)
    ensures forall i | 0 <= i < n :: AcceptedAt(cfg, lib, RunOf(lib, p, n), i)
  {
    hide Refused;
    hide Step;
    hide Reached;
    hide StepOf;
    hide Possible;
    hide Plot.Steps;
    if n == 0 {
      StartReached(lib, p);
    } else {
      var run := RunOf(lib, p, n);
      RunReaches(cfg, lib, p, n - 1);
      assert run[..n - 1] == RunOf(lib, p, n - 1);
      OneStep(cfg, lib, p, After(cfg, lib, run[..n - 1]), n - 1);
      forall i | 0 <= i < n ensures AcceptedAt(cfg, lib, run, i) {
        if i < n - 1 { AcceptedEarly(cfg, lib, run, n - 1, i); }
      }
    }
  }

  // So many of the requests are assignments.
  lemma {:induction false} RunAssigns(cfg: Config, lib: Library, p: Plot, n: nat)
    requires Full(cfg) && Possible(lib, p) && n <= p.Steps()
    ensures AssignmentCount(cfg, lib, RunOf(lib, p, n), lib.contentKey(p.uri, p.key)) == p.Posted(n)
  {
    hide Assigns;
    hide StepOf;
    hide Possible;
    hide Plot.Steps;
    hide Plot.Posts;
    if n > 0 {
      var run := RunOf(lib, p, n);
      assert run[..n - 1] == RunOf(lib, p, n - 1);
      RunAssigns(cfg, lib, p, n - 1);
      RunReaches(cfg, lib, p, n);
      LastAssigns(cfg, lib, p, n);
    }
  }

  lemma LastAssigns(cfg: Config, lib: Library, p: Plot, n: nat)
    requires 0 < n <= p.Steps() && AcceptedAt(cfg, lib, RunOf(lib, p, n), n - 1)
    ensures Assigns(cfg, lib, RunOf(lib, p, n), lib.contentKey(p.uri, p.key)) <==>
      |p.members| < n <= |p.members| + p.Posts()
  {
    hide AcceptedAt;
    hide AssignmentOf;
    hide ReviewBy;
    hide OptInOf;
    if |p.members| < n <= |p.members| + p.Posts() { AssignmentFields(lib, p, n - 1 - |p.members|); }
  }

  // ---- What readers make of it

  function Reviews(lib: Library, p: Plot, n: nat): seq<Signed<Review>>
    requires n <= |p.members|
  {
    seq(n, i requires 0 <= i < n => ReviewBy(lib, p, i))
  }

  function AllReviews(lib: Library, p: Plot): (r: seq<Signed<Review>>)
    ensures |r| == |p.members|
  {
    Reviews(lib, p, |p.members|)
  }

  lemma AllServed(lib: Library, p: Plot, st: State)
    requires Reached(lib, p, st, p.Steps())
    ensures var key := lib.contentKey(p.uri, p.key);
      && (key in st.attachments ==> st.attachments[key].Valid())
      && Served(st, key) == AllReviews(lib, p)
      && forall k | k in ReviewersOf(st, key) :: k in p.members
  {
    hide ReviewBy;
    hide Registered;
    hide Assigned;
    var key := lib.contentKey(p.uri, p.key);
    assert p.Answered(p.Steps()) == |p.members|;
    assert Reviewed(lib, p, st, |p.members|);
    if p.members != [] {
      var d := st.attachments[key];
      forall k | k in ReviewersOf(st, key) ensures k in p.members {
        assert k in d.keys;
        var i :| 0 <= i < |d.keys| && d.keys[i] == k;
      }
    }
  }

  function Signals(lib: Library, p: Plot, n: nat): seq<Signal>
    requires n <= |p.members|
  {
    seq(n, i requires 0 <= i < n => Signal(lib.contentKey(p.uri, p.key), p.members[i], "reject", p.comment, p.now))
  }

  lemma {:induction false} AllSignals(lib: Library, p: Plot, n: nat)
    requires Possible(lib, p) && n <= |p.members|
    ensures ToSignals(lib, Reviews(lib, p, n), lib.contentKey(p.uri, p.key)) == Signals(lib, p, n)
  {
    if n > 0 {
      var entries := Reviews(lib, p, n);
      var s := ReviewBy(lib, p, n - 1);
      assert entries[..n - 1] == Reviews(lib, p, n - 1);
      AllSignals(lib, p, n - 1);
      assert SignerOf(Rev(s.record)) == p.members[n - 1];
      assert VerifyReview(lib, s);
    }
  }

  // A reader who knows none of them and has the default policy, at the moment or before.
  ghost predicate Newcomer(p: Plot, r: Visitor)
  {
    r.policy == DEFAULT_POLICY && r.now <= p.now && forall k | k in p.members :: Unknown(r, k)
  }

  lemma CrowdScores(lib: Library, p: Plot, r: Visitor)
    requires Newcomer(p, r) && NoDuplicates(p.members)
    ensures Score(r, Signals(lib, p, |p.members|)) == 0.3 * |p.members| as real
    ensures Decide(Score(r, Signals(lib, p, |p.members|)), r.policy) == Hide <==> |p.members| >= 17
  {
    hide Score;
    hide Decide;
    FreshRejections(r, Signals(lib, p, |p.members|));
  }

  // All the run's requests are accepted, and it has one assignment for each sixteen members; afterwards all their
  // reviews, and no others, are attached.
  lemma RunHolds(cfg: Config, lib: Library, p: Plot)
    requires Full(cfg) && Possible(lib, p)
    ensures var run, key := RunOf(lib, p, p.Steps()), lib.contentKey(p.uri, p.key);
      var st := After(cfg, lib, run);
      && (forall i | 0 <= i < p.Steps() :: AcceptedAt(cfg, lib, run, i))
      && AssignmentCount(cfg, lib, run, key) == p.Posts()
      && (key in st.attachments ==> st.attachments[key].Valid())
      && Served(st, key) == AllReviews(lib, p)
      && forall k | k in ReviewersOf(st, key) :: k in p.members
  {
    assert p.Posted(p.Steps()) == p.Posts();
    hide *;
    RunReaches(cfg, lib, p, p.Steps());
    RunAssigns(cfg, lib, p, p.Steps());
    AllServed(lib, p, After(cfg, lib, RunOf(lib, p, p.Steps())));
  }

  // The reader's decision after the run: if the reviews fit in an answer, the members count 0.3 each and hide the
  // content from seventeen on, and if not, the content is shown whatever anybody reviewed.
  lemma StrangersDecide(cfg: Config, lib: Library, p: Plot, r: Visitor)
    requires Full(cfg) && Possible(lib, p) && Newcomer(p, r)
    ensures var st, key := After(cfg, lib, RunOf(lib, p, p.Steps())), lib.contentKey(p.uri, p.key);
      && (key in st.attachments ==> st.attachments[key].Valid())
      && (forall k | k in ReviewersOf(st, key) :: Unknown(r, k))
      && Verdict(lib, st, key, r) ==
          (if AnswerFits(AllReviews(lib, p)) then Decide(0.3 * |p.members| as real, r.policy) else Show)
      && (Verdict(lib, st, key, r) == Hide <==> AnswerFits(AllReviews(lib, p)) && |p.members| >= 17)
  {
    var st, key := After(cfg, lib, RunOf(lib, p, p.Steps())), lib.contentKey(p.uri, p.key);
    PlotParts(lib, p, r);
    hide *;
    RunHolds(cfg, lib, p);
    AllSignals(lib, p, |p.members|);
    CrowdScores(lib, p, r);
    VerdictIs(lib, st, key, r, AllReviews(lib, p));
    if !AnswerFits(AllReviews(lib, p)) {
      SilencedShows(lib, st, key, r);
      DefaultThresholds();
    }
  }

  lemma PlotParts(lib: Library, p: Plot, r: Visitor)
    requires Possible(lib, p) && Newcomer(p, r)
    ensures NoDuplicates(p.members) && r.policy == DEFAULT_POLICY && forall k | k in p.members :: Unknown(r, k)
    ensures AllReviews(lib, p) == Reviews(lib, p, |p.members|)
  {
  }

  lemma VerdictIs(lib: Library, st: State, key: string, r: Visitor, entries: seq<Signed<Review>>)
    requires key in st.attachments ==> st.attachments[key].Valid()
    requires Served(st, key) == entries
    ensures AnswerFits(entries) ==> Verdict(lib, st, key, r) == Decide(Score(r, ToSignals(lib, entries, key)), r.policy)
  {
    hide AnswerFits;
    hide Score;
    hide ToSignals;
    hide Served;
  }

  lemma DefaultThresholds()
    ensures DEFAULT_POLICY.thresholdHide > 0.0 && DEFAULT_POLICY.thresholdWarn > 0.0
  {
  }

  // ---- Short texts and long ones

  // Keys, signatures and the content's key are printed as they are and are together of a usual length.
  ghost predicate Usual(lib: Library, p: Plot)
  {
    && Plain(lib.contentKey(p.uri, p.key))
    && (forall k | k in p.members :: Plain(k)) && (forall x :: Plain(p.sign(x)))
    && forall k, x | k in p.members :: |lib.contentKey(p.uri, p.key)| + |k| + |p.sign(x)| <= 1000
  }

  // A review with its signature, in canonical form.
  lemma ReviewSize(lib: Library, p: Plot, i: nat)
    requires Usual(lib, p) && i < |p.members|
    ensures var s := ReviewBy(lib, p, i);
      && |Canonical(EntryValue(s))| <= 1200 + |Escaped(p.comment)|
      && |Canonical(AttachRequest(s))| <= 1200 + |Escaped(p.comment)|
  {
    var s := ReviewBy(lib, p, i);
    assert p.members[i] in p.members && Plain("reject");
    hide Canonical;
    hide ReviewValue;
    hide EntryOf;
    hide Submission;
    hide Escaped;
    hide Plain;
    ReviewLength(s.record);
    TextLength(s.signature);
    EntryLength(ReviewValue(s.record), s.signature);
    EntryInRequest(s);
  }

  // With short comments the reviews fit.
  lemma ShortReviewsFit(lib: Library, p: Plot)
    requires Usual(lib, p) && |p.members| * (1201 + |Escaped(p.comment)|) + 40 <= MAX_MSG_SIZE
    ensures AnswerFits(AllReviews(lib, p))
  {
    hide Canonical;
    hide RecordsAnswer;
    hide EntryValue;
    hide ReviewBy;
    hide Usual;
    hide Escaped;
    var entries, each := AllReviews(lib, p), 1200 + |Escaped(p.comment)|;
    forall s | s in entries ensures |Canonical(EntryValue(s))| <= each {
      var i :| 0 <= i < |entries| && entries[i] == s;
      ReviewSize(lib, p, i);
    }
    EntryValuesOf(entries, each);
    ItemsLengthAtMost(EntryValues(entries), each);
    assert |p.members| * (each + 1) == each * |entries| + |entries|;
    AnswerFitsExactly(entries);
  }

  lemma LongReviewsDoNotFit(lib: Library, p: Plot)
    requires |Escaped(p.comment)| * |p.members| >= MAX_MSG_SIZE
    ensures !AnswerFits(AllReviews(lib, p))
  {
    hide AnswerFits;
    hide Escaped;
    LongCommentsSilence(AllReviews(lib, p), |p.members|, |Escaped(p.comment)|);
  }

  // The requests of the run are read, if the comment is within a request as it is.
  lemma RunComes(lib: Library, p: Plot)
    requires Usual(lib, p) && Literal(p.comment) && |Utf8(p.comment)| + 1200 <= MAX_REQUEST_SIZE
    ensures ReviewsCame(RunOf(lib, p, p.Steps()))
  {
    var run := RunOf(lib, p, p.Steps());
    forall j | 0 <= j < |run| && run[j].req.AttachReview? ensures Came(AttachRequest(run[j].req.review)) {
      var i := j - |p.members| - p.Posts();
      assert run[j].req.review == ReviewBy(lib, p, i);
      hide *;
      ReviewComes(lib, p, i);
    }
  }

  lemma ReviewComes(lib: Library, p: Plot, i: nat)
    requires Usual(lib, p) && Literal(p.comment) && |Utf8(p.comment)| + 1200 <= MAX_REQUEST_SIZE && i < |p.members|
    ensures Came(AttachRequest(ReviewBy(lib, p, i)))
  {
    var s := ReviewBy(lib, p, i);
    var keys := ["comment", "content_key", "reviewer_public_key", "timestamp", "verdict"];
    assert s.record.comment == p.comment && keys != [] && keys[0] == "comment";
    assert AttachRequest(s) == Submission("attach_review", ReviewValue(s.record), s.signature);
    assert MAX_REQUEST_SIZE == 65_536;
    ReviewSize(lib, p, i);
    ReviewIsFloatFree(s.record);
    hide *;
    ReviewMembers(s.record);
    ReviewKeys();
    SortedIsDistinct(keys);
    assert forall k :: k in keys <==> k in ReviewValue(s.record).members.Keys;
    CameRaw("attach_review", ReviewValue(s.record), s.signature, keys, p.comment);
  }

  lemma ReviewIsFloatFree(r: Review)
    ensures FloatFree(ReviewValue(r))
  {
  }

  // After the run, with one assignment and all reviews in requests the server reads, nobody sees any of them, whoever
  // they come from and whatever the reader thinks of them.
  ghost predicate Silenced(cfg: Config, lib: Library, p: Plot, r: Visitor)
  {
    var run, key := RunOf(lib, p, p.Steps()), lib.contentKey(p.uri, p.key);
    var st := After(cfg, lib, run);
    && (forall i | 0 <= i < p.Steps() :: AcceptedAt(cfg, lib, run, i)) && ReviewsCame(run)
    && AssignmentCount(cfg, lib, run, key) == 1
    && (key in st.attachments ==> st.attachments[key].Valid())
    && |Served(st, key)| == |p.members| && Received(st, key) == []
    && Verdict(lib, st, key, r) == Decide(0.0, r.policy)
  }

  lemma OneAssignmentIsSilenced(cfg: Config, lib: Library, p: Plot, r: Visitor)
    requires Full(cfg) && Possible(lib, p) && Usual(lib, p) && |p.members| <= EACH
    requires Literal(p.comment) && |Utf8(p.comment)| + 1200 <= MAX_REQUEST_SIZE
    requires |Escaped(p.comment)| * |p.members| >= MAX_MSG_SIZE
    ensures Silenced(cfg, lib, p, r)
  {
    var run, key := RunOf(lib, p, p.Steps()), lib.contentKey(p.uri, p.key);
    var st := After(cfg, lib, run);
    assert p.members != [];
    assert p.Posts() == 1;
    hide After;
    hide RunOf;
    hide AcceptedAt;
    hide AssignmentCount;
    hide Served;
    hide Received;
    hide Verdict;
    hide AnswerFits;
    hide AllReviews;
    hide ReviewsCame;
    hide Usual;
    hide Possible;
    hide Escaped;
    hide Utf8;
    hide Literal;
    RunHolds(cfg, lib, p);
    RunComes(lib, p);
    LongReviewsDoNotFit(lib, p);
    SilencedShows(lib, st, key, r);
    NothingReceived(st, key);
  }

  lemma NothingReceived(st: State, key: string)
    requires key in st.attachments ==> st.attachments[key].Valid()
    requires !AnswerFits(Served(st, key))
    ensures Received(st, key) == []
  {
  }

  // Three comments of 62,000 DEL characters do it, and six of 31,000 accented letters. Two never do, whatever they say.
  lemma ThreeReviewersSilence(cfg: Config, lib: Library, p: Plot, r: Visitor)
    requires Full(cfg) && Possible(lib, p) && Usual(lib, p) && |p.members| <= EACH
    requires
      || (|p.members| >= 3 && p.comment == Repeated('\U{7f}', 62_000))
      || (|p.members| >= 6 && p.comment == Repeated('\U{e9}', 31_000))
    ensures Silenced(cfg, lib, p, r)
  {
    assert MAX_REQUEST_SIZE == 65_536;
    hide *;
    Widths();
    if |p.members| >= 3 && p.comment == Repeated('\U{7f}', 62_000) {
      RepeatedLength('\U{7f}', 62_000);
    } else {
      RepeatedLength('\U{e9}', 31_000);
    }
    OneAssignmentIsSilenced(cfg, lib, p, r);
  }
}
