/**
 Inboxes and attachments are last-writer-wins: each slot holds the newest record ever offered to it, so
 records may arrive in any order unless several tie for the newest (naming.py:263-278, naming.py:337-349).
 */
module LastWriterWins {
  import opened Stores
  import opened Wrappers

  // ---- One slot

  function Newer<R>(slot: Option<Signed<R>>, s: Signed<R>, stamp: R -> int): Option<Signed<R>>
  {
    if slot.Some? && stamp(slot.value.record) >= stamp(s.record) then slot else Some(s)
  }

  // The slot holds the newest of the records that concern it, and nothing if there is none.
  ghost predicate Newest<R>(slot: Option<Signed<R>>, offered: seq<Signed<R>>, concerns: R -> bool, stamp: R -> int)
  {
    match slot
    case None => forall s | s in offered :: !concerns(s.record)
    case Some(best) =>
      && best in offered && concerns(best.record)
      && forall s | s in offered && concerns(s.record) :: stamp(s.record) <= stamp(best.record)
  }

  lemma NewestExtends<R>(
    slot: Option<Signed<R>>, offered: seq<Signed<R>>, s: Signed<R>, concerns: R -> bool, stamp: R -> int)
    requires Newest(slot, offered, concerns, stamp)
    ensures Newest(if concerns(s.record) then Newer(slot, s, stamp) else slot, offered + [s], concerns, stamp)
  {
    forall x | x in offered + [s] ensures x in offered || x == s {
    }
  }

  // What a slot holds after a sequence of records.
  function Latest<R>(offered: seq<Signed<R>>, concerns: R -> bool, stamp: R -> int): Option<Signed<R>>
  {
    if offered == [] then None
    else
      var before, last := Latest(offered[..|offered| - 1], concerns, stamp), offered[|offered| - 1];
      if concerns(last.record) then Newer(before, last, stamp) else before
  }

  lemma {:induction false} LatestIsNewest<R>(offered: seq<Signed<R>>, concerns: R -> bool, stamp: R -> int)
    ensures Newest(Latest(offered, concerns, stamp), offered, concerns, stamp)
  {
    if offered != [] {
      var init, last := offered[..|offered| - 1], offered[|offered| - 1];
      LatestIsNewest(init, concerns, stamp);
      NewestExtends(Latest(init, concerns, stamp), init, last, concerns, stamp);
      assert offered == init + [last];
    }
  }

  // ---- When the order matters

  // One of the records offered to the slot with the greatest timestamp.
  ghost predicate Top<R>(x: Signed<R>, offered: seq<Signed<R>>, concerns: R -> bool, stamp: R -> int)
  {
    Newest(Some(x), offered, concerns, stamp)
  }

  // The newest record offered to the slot has its timestamp to itself; older ones may tie.
  ghost predicate OneTop<R(!new)>(offered: seq<Signed<R>>, concerns: R -> bool, stamp: R -> int)
  {
    forall x, y | Top(x, offered, concerns, stamp) && Top(y, offered, concerns, stamp) :: x == y
  }

  ghost predicate DistinctStamps<R>(offered: seq<Signed<R>>, concerns: R -> bool, stamp: R -> int)
  {
    forall x, y | x in offered && y in offered && concerns(x.record) && concerns(y.record) && x != y ::
      stamp(x.record) != stamp(y.record)
  }

  lemma DistinctStampsHaveOneTop<R(!new)>(offered: seq<Signed<R>>, concerns: R -> bool, stamp: R -> int)
    requires DistinctStamps(offered, concerns, stamp)
    ensures OneTop(offered, concerns, stamp)
  {
  }

  // The first of several newest records stays.
  lemma {:induction false} FirstTopStays<R>(
    x: Signed<R>, rest: seq<Signed<R>>, concerns: R -> bool, stamp: R -> int)
    requires concerns(x.record)
    requires forall s | s in rest && concerns(s.record) :: stamp(s.record) <= stamp(x.record)
    ensures Latest([x] + rest, concerns, stamp) == Some(x)
  {
    var all := [x] + rest;
    if rest == [] {
      assert all[..0] == [];
    } else {
      var init, last := rest[..|rest| - 1], rest[|rest| - 1];
      assert all[..|all| - 1] == [x] + init && last in rest;
      FirstTopStays(x, init, concerns, stamp);
    }
  }

  lemma MovedToFront<T>(a: seq<T>, x: T) returns (rest: seq<T>)
    requires x in a
    ensures multiset([x] + rest) == multiset(a)
  {
    var i :| 0 <= i < |a| && a[i] == x;
    rest := a[..i] + a[i + 1..];
    assert a == a[..i] + [x] + a[i + 1..];
  }

  // The records leave the slot the same in whatever order they come, exactly when there is one newest.
  lemma OrderIgnoredExactly<R(!new)>(a: seq<Signed<R>>, concerns: R -> bool, stamp: R -> int)
    ensures (forall b | multiset(b) == multiset(a) :: Latest(b, concerns, stamp) == Latest(a, concerns, stamp)) <==>
      OneTop(a, concerns, stamp)
  {
    if OneTop(a, concerns, stamp) {
      forall b | multiset(b) == multiset(a) ensures Latest(b, concerns, stamp) == Latest(a, concerns, stamp) {
        SameElements(a, b);
        LatestIsNewest(a, concerns, stamp);
        LatestIsNewest(b, concerns, stamp);
        SameNewest(Latest(a, concerns, stamp), Latest(b, concerns, stamp), a, b, concerns, stamp);
      }
    } else {
      var x, y :| Top(x, a, concerns, stamp) && Top(y, a, concerns, stamp) && x != y;
      LatestCanBe(x, a, concerns, stamp);
      LatestCanBe(y, a, concerns, stamp);
    }
  }

  lemma SameNewest<R(!new)>(
    p: Option<Signed<R>>, q: Option<Signed<R>>, a: seq<Signed<R>>, b: seq<Signed<R>>, concerns: R -> bool,
    stamp: R -> int)
    requires Newest(p, a, concerns, stamp) && Newest(q, b, concerns, stamp) && OneTop(a, concerns, stamp)
    requires forall x :: x in a <==> x in b
    ensures p == q
  {
    if q.Some? { assert Top(q.value, a, concerns, stamp); }
    if p.Some? { assert Top(p.value, a, concerns, stamp); }
  }

  lemma LatestCanBe<R>(x: Signed<R>, a: seq<Signed<R>>, concerns: R -> bool, stamp: R -> int)
    requires Top(x, a, concerns, stamp)
    ensures exists b :: multiset(b) == multiset(a) && Latest(b, concerns, stamp) == Some(x)
  {
    var rest := MovedToFront(a, x);
    SameElements(a, [x] + rest);
    assert forall s | s in rest :: s in [x] + rest;
    FirstTopStays(x, rest, concerns, stamp);
  }

  lemma SameElements<T>(a: seq<T>, b: seq<T>)
    requires multiset(a) == multiset(b)
    ensures forall x :: x in a <==> x in b
  {
    forall x ensures x in a <==> x in b {
      assert x in a <==> x in multiset(a);
      assert x in b <==> x in multiset(b);
    }
  }

  // ---- Inboxes

  predicate ForInbox(a: Assignment, reviewer: string, contentKey: string)
  {
    a.contentKey == contentKey && contentKey != "" && reviewer in a.reviewers
  }

  // The assignments that concern one slot, and what they are compared by.
  function AssignedTo(reviewer: string, contentKey: string): Assignment -> bool
  {
    (a: Assignment) => ForInbox(a, reviewer, contentKey)
  }

  function AssignmentStamp(): Assignment -> int { (a: Assignment) => a.timestamp }

  function AddAll(inbox: Inbox, offered: seq<Signed<Assignment>>): Inbox
  {
    if offered == [] then inbox else AddAssignment(AddAll(inbox, offered[..|offered| - 1]), offered[|offered| - 1])
  }

  lemma DeliverSlot(inbox: Inbox, to: string, s: Signed<Assignment>, reviewer: string, contentKey: string)
    ensures Slot(Deliver(inbox, to, s), reviewer, contentKey) ==
      if reviewer == to && contentKey == s.record.contentKey
      then Newer(Slot(inbox, reviewer, contentKey), s, AssignmentStamp())
      else Slot(inbox, reviewer, contentKey)
  {
  }

  lemma {:induction false} DeliverFromSlot(
    inbox: Inbox, s: Signed<Assignment>, i: nat, reviewer: string, contentKey: string)
    requires i <= |s.record.reviewers|
    ensures Slot(DeliverFrom(inbox, s, i), reviewer, contentKey) ==
      if reviewer in s.record.reviewers[i..] && contentKey == s.record.contentKey
      then Newer(Slot(inbox, reviewer, contentKey), s, AssignmentStamp())
      else Slot(inbox, reviewer, contentKey)
    decreases |s.record.reviewers| - i
  {
    var rs := s.record.reviewers;
    if i < |rs| {
      DeliverSlot(inbox, rs[i], s, reviewer, contentKey);
      DeliverFromSlot(Deliver(inbox, rs[i], s), s, i + 1, reviewer, contentKey);
      assert rs[i..] == [rs[i]] + rs[i + 1..];
    }
  }

  // One accepted assignment, slot by slot.
  lemma AddAssignmentSlot(inbox: Inbox, s: Signed<Assignment>, reviewer: string, contentKey: string)
    ensures Slot(AddAssignment(inbox, s), reviewer, contentKey) ==
      if ForInbox(s.record, reviewer, contentKey)
      then Newer(Slot(inbox, reviewer, contentKey), s, AssignmentStamp())
      else Slot(inbox, reviewer, contentKey)
  {
    DeliverFromSlot(inbox, s, 0, reviewer, contentKey);
    assert s.record.reviewers[0..] == s.record.reviewers;
  }

  lemma {:induction false} InboxIsLatest(offered: seq<Signed<Assignment>>, reviewer: string, contentKey: string)
    ensures Slot(AddAll(map[], offered), reviewer, contentKey) ==
      Latest(offered, AssignedTo(reviewer, contentKey), AssignmentStamp())
  {
    if offered != [] {
      var init, last := offered[..|offered| - 1], offered[|offered| - 1];
      InboxIsLatest(init, reviewer, contentKey);
      AddAssignmentSlot(AddAll(map[], init), last, reviewer, contentKey);
    }
  }

  lemma InboxHoldsNewest(offered: seq<Signed<Assignment>>, reviewer: string, contentKey: string)
    ensures Newest(Slot(AddAll(map[], offered), reviewer, contentKey), offered, AssignedTo(reviewer, contentKey),
                   AssignmentStamp())
  {
    InboxIsLatest(offered, reviewer, contentKey);
    LatestIsNewest(offered, AssignedTo(reviewer, contentKey), AssignmentStamp());
  }

  // Assignments leave a slot the same in whatever order they come, exactly when the newest of them for this
  // slot has its timestamp to itself.
  lemma InboxIgnoresOrder(a: seq<Signed<Assignment>>, reviewer: string, contentKey: string)
    ensures (forall b | multiset(b) == multiset(a) ::
              Slot(AddAll(map[], b), reviewer, contentKey) == Slot(AddAll(map[], a), reviewer, contentKey)) <==>
      OneTop(a, AssignedTo(reviewer, contentKey), AssignmentStamp())
  {
    var concerns, stamp := AssignedTo(reviewer, contentKey), AssignmentStamp();
    OrderIgnoredExactly(a, concerns, stamp);
    InboxIsLatest(a, reviewer, contentKey);
    if OneTop(a, concerns, stamp) {
      forall b | multiset(b) == multiset(a)
        ensures Slot(AddAll(map[], b), reviewer, contentKey) == Slot(AddAll(map[], a), reviewer, contentKey)
      {
        InboxIsLatest(b, reviewer, contentKey);
      }
    } else {
      var b :| multiset(b) == multiset(a) && Latest(b, concerns, stamp) != Latest(a, concerns, stamp);
      InboxIsLatest(b, reviewer, contentKey);
    }
  }

  // Of two equally recent assignments for an empty slot the first stays.
  lemma FirstAssignmentOfATieStays(
    inbox: Inbox, s: Signed<Assignment>, t: Signed<Assignment>, reviewer: string, contentKey: string)
    requires ForInbox(s.record, reviewer, contentKey) && ForInbox(t.record, reviewer, contentKey)
    requires s.record.timestamp == t.record.timestamp && Slot(inbox, reviewer, contentKey).None?
    ensures Slot(AddAll(inbox, [s, t]), reviewer, contentKey) == Some(s)
    ensures Slot(AddAll(inbox, [t, s]), reviewer, contentKey) == Some(t)
  {
    AddTwo(inbox, s, t);
    AddTwo(inbox, t, s);
    AddAssignmentSlot(inbox, s, reviewer, contentKey);
    AddAssignmentSlot(inbox, t, reviewer, contentKey);
    AddAssignmentSlot(AddAssignment(inbox, s), t, reviewer, contentKey);
    AddAssignmentSlot(AddAssignment(inbox, t), s, reviewer, contentKey);
  }

  lemma AddTwo(inbox: Inbox, s: Signed<Assignment>, t: Signed<Assignment>)
    ensures AddAll(inbox, [s, t]) == AddAssignment(AddAssignment(inbox, s), t)
  {
    hide AddAssignment;
    assert [s, t][..1] == [s] && [s][..0] == [];
    assert AddAll(inbox, []) == inbox;
    assert AddAll(inbox, [s]) == AddAssignment(inbox, s);
  }

  // ---- Attachments

  predicate ForAttachment(r: Review, contentKey: string, reviewer: string)
  {
    r.contentKey == contentKey && r.reviewer == reviewer && contentKey != "" && reviewer != ""
  }

  // The reviews that concern one slot, and what they are compared by.
  function ReviewOf(contentKey: string, reviewer: string): Review -> bool
  {
    (r: Review) => ForAttachment(r, contentKey, reviewer)
  }

  function ReviewStamp(): Review -> int { (r: Review) => r.timestamp }

  function AttachAll(a: Attachments, offered: seq<Signed<Review>>): Attachments
  {
    if offered == [] then a else AttachReviewTo(AttachAll(a, offered[..|offered| - 1]), offered[|offered| - 1])
  }

  lemma AttachSlot(a: Attachments, s: Signed<Review>, contentKey: string, reviewer: string)
    ensures Attached(AttachReviewTo(a, s), contentKey, reviewer) ==
      if ForAttachment(s.record, contentKey, reviewer)
      then Newer(Attached(a, contentKey, reviewer), s, ReviewStamp())
      else Attached(a, contentKey, reviewer)
  {
  }

  lemma {:induction false} AttachedIsLatest(offered: seq<Signed<Review>>, contentKey: string, reviewer: string)
    ensures Attached(AttachAll(map[], offered), contentKey, reviewer) ==
      Latest(offered, ReviewOf(contentKey, reviewer), ReviewStamp())
  {
    if offered != [] {
      var init, last := offered[..|offered| - 1], offered[|offered| - 1];
      AttachedIsLatest(init, contentKey, reviewer);
      AttachSlot(AttachAll(map[], init), last, contentKey, reviewer);
    }
  }

  lemma AttachmentsHoldNewest(offered: seq<Signed<Review>>, contentKey: string, reviewer: string)
    ensures Newest(Attached(AttachAll(map[], offered), contentKey, reviewer), offered, ReviewOf(contentKey, reviewer),
                   ReviewStamp())
  {
    AttachedIsLatest(offered, contentKey, reviewer);
    LatestIsNewest(offered, ReviewOf(contentKey, reviewer), ReviewStamp());
  }

  // The same for reviews: ties below the newest do no harm, a tie of the newest does.
  lemma AttachmentsIgnoreOrder(a: seq<Signed<Review>>, contentKey: string, reviewer: string)
    ensures (forall b | multiset(b) == multiset(a) ::
              Attached(AttachAll(map[], b), contentKey, reviewer) ==
              Attached(AttachAll(map[], a), contentKey, reviewer)) <==>
      OneTop(a, ReviewOf(contentKey, reviewer), ReviewStamp())
  {
    var concerns, stamp := ReviewOf(contentKey, reviewer), ReviewStamp();
    OrderIgnoredExactly(a, concerns, stamp);
    AttachedIsLatest(a, contentKey, reviewer);
    if OneTop(a, concerns, stamp) {
      forall b | multiset(b) == multiset(a)
        ensures Attached(AttachAll(map[], b), contentKey, reviewer) ==
          Attached(AttachAll(map[], a), contentKey, reviewer)
      {
        AttachedIsLatest(b, contentKey, reviewer);
      }
    } else {
      var b :| multiset(b) == multiset(a) && Latest(b, concerns, stamp) != Latest(a, concerns, stamp);
      AttachedIsLatest(b, contentKey, reviewer);
    }
  }

  lemma AttachOne(a: Attachments, s: Signed<Review>)
    ensures AttachAll(a, [s]) == AttachReviewTo(a, s)
  {
    assert [s][..0] == [];
    assert AttachAll(a, []) == a;
  }

  // Of two equally recent reviews for an empty slot the first stays.
  lemma FirstOfATieStays(a: Attachments, s: Signed<Review>, t: Signed<Review>)
    requires ForAttachment(s.record, t.record.contentKey, t.record.reviewer) && s != t
    requires s.record.timestamp == t.record.timestamp
    requires Attached(a, s.record.contentKey, s.record.reviewer).None?
    ensures Attached(AttachAll(a, [s, t]), s.record.contentKey, s.record.reviewer) == Some(s)
    ensures Attached(AttachAll(a, [t, s]), s.record.contentKey, s.record.reviewer) == Some(t)
  {
    assert [s, t][..1] == [s] && [t, s][..1] == [t];
    AttachOne(a, s);
    AttachOne(a, t);
    AttachSlot(a, s, s.record.contentKey, s.record.reviewer);
    AttachSlot(a, t, s.record.contentKey, s.record.reviewer);
    AttachSlot(AttachAll(a, [s]), t, s.record.contentKey, s.record.reviewer);
    AttachSlot(AttachAll(a, [t]), s, s.record.contentKey, s.record.reviewer);
  }
}
