/**
 What a peer weighs (trust/scorer.py:106-124) and how a signal ages (trust/scorer.py:127-137), told by what changes
 them: a confirmed signal more, a disputed one more, a day more. And what a change of weights does to a score.
 */
module Weights {
  import opened Scoring
  import opened Wrappers

  // ---- Who decides: a subscription, then a trust level set by hand, then the peer's history

  // The first subscription to the peer, if there is one.
  ghost predicate FirstSubscription(moderators: seq<Moderator>, i: nat, pubkey: string)
  {
    i < |moderators| && moderators[i].pubkey == pubkey && forall j | 0 <= j < i :: moderators[j].pubkey != pubkey
  }

  lemma {:induction false} SubscriptionIsTheFirst(moderators: seq<Moderator>, pubkey: string)
    ensures SubscribedWeight(moderators, pubkey).None? <==> forall m | m in moderators :: m.pubkey != pubkey
    ensures forall i: nat | FirstSubscription(moderators, i, pubkey) ::
      SubscribedWeight(moderators, pubkey) == Some(moderators[i].weight)
  {
    if moderators != [] {
      SubscriptionIsTheFirst(moderators[1..], pubkey);
      assert forall m :: m in moderators <==> m == moderators[0] || m in moderators[1..];
      forall i: nat | FirstSubscription(moderators, i, pubkey)
        ensures SubscribedWeight(moderators, pubkey) == Some(moderators[i].weight)
      {
        if i > 0 { assert FirstSubscription(moderators[1..], i - 1, pubkey); }
      }
    }
  }

  ghost predicate Subscribed(r: Visitor, pubkey: string)
  {
    exists i: nat :: FirstSubscription(r.policy.moderators, i, pubkey)
  }

  // What is asked for, within zero and the cap.
  ghost predicate Within(weight: real, asked: real, cap: real)
  {
    && 0.0 <= weight <= cap
    && (weight < asked ==> weight == cap)
    && (weight > asked ==> weight == 0.0)
  }

  // A subscription decides, whatever else is known of the peer.
  lemma SubscriptionDecides(r: Visitor, pubkey: string, i: nat)
    requires FirstSubscription(r.policy.moderators, i, pubkey) && 0.0 <= r.policy.maxWeightPerPeer
    ensures Within(WeightFor(r, pubkey), r.policy.moderators[i].weight, r.policy.maxWeightPerPeer)
  {
    SubscriptionIsTheFirst(r.policy.moderators, pubkey);
  }

  // Without one, a trust level set by hand does, whatever the peer's signals were worth.
  lemma TrustDecides(r: Visitor, pubkey: string)
    requires !Subscribed(r, pubkey) && pubkey in r.peers && r.peers[pubkey].explicitTrust.Some?
    requires 0.0 <= r.policy.maxWeightPerPeer
    ensures Within(WeightFor(r, pubkey), r.peers[pubkey].explicitTrust.value, r.policy.maxWeightPerPeer)
  {
    NotSubscribed(r, pubkey);
  }

  lemma {:induction false} SomeSubscriptionIsFirst(moderators: seq<Moderator>, i: nat, pubkey: string)
    requires i < |moderators| && moderators[i].pubkey == pubkey
    ensures exists j: nat :: FirstSubscription(moderators, j, pubkey)
  {
    if j: nat :| j < i && moderators[j].pubkey == pubkey {
      SomeSubscriptionIsFirst(moderators, j, pubkey);
    } else {
      assert FirstSubscription(moderators, i, pubkey);
    }
  }

  lemma NotSubscribed(r: Visitor, pubkey: string)
    ensures Subscribed(r, pubkey) <==> SubscribedWeight(r.policy.moderators, pubkey).Some?
  {
    var moderators := r.policy.moderators;
    SubscriptionIsTheFirst(moderators, pubkey);
    if m :| m in moderators && m.pubkey == pubkey {
      var i :| 0 <= i < |moderators| && moderators[i] == m;
      SomeSubscriptionIsFirst(moderators, i, pubkey);
    }
  }

  // ---- A peer's history

  // The reader knows the peer by its signals alone: so many were confirmed, so many disputed.
  ghost predicate KnownBySignals(r: Visitor, pubkey: string, confirmed: int, disputed: int)
  {
    !Subscribed(r, pubkey) && pubkey in r.peers && r.peers[pubkey] == Peer(None, confirmed, disputed)
  }

  // Two readers who differ at most in what they know of their peers.
  ghost predicate SameButPeers(a: Visitor, b: Visitor)
  {
    a.policy == b.policy && a.now == b.now && a.halve == b.halve
  }

  // With as many confirmed as disputed signals a peer weighs what an unknown one does, within zero and the cap.
  lemma EqualCountsWeighTheDefault(r: Visitor, pubkey: string, n: int)
    requires KnownBySignals(r, pubkey, n, n) && 0.0 <= r.policy.maxWeightPerPeer
    ensures Within(WeightFor(r, pubkey), r.policy.defaultWeightUnknown, r.policy.maxWeightPerPeer)
  {
    NotSubscribed(r, pubkey);
  }

  // One more confirmed signal adds the learning rate, up to the cap; a peer at zero may have more to make up for.
  lemma OneMoreConfirmed(a: Visitor, b: Visitor, pubkey: string, confirmed: int, disputed: int)
    requires SameButPeers(a, b) && 0.0 <= a.policy.maxWeightPerPeer && 0.0 <= a.policy.learningRate
    requires KnownBySignals(a, pubkey, confirmed, disputed) && KnownBySignals(b, pubkey, confirmed + 1, disputed)
    ensures var w, more, rate, cap :=
        WeightFor(a, pubkey), WeightFor(b, pubkey), a.policy.learningRate, a.policy.maxWeightPerPeer;
      && w <= more <= w + rate && more <= cap
      && (0.0 < w && w + rate <= cap ==> more == w + rate)
      && (0.0 < w && w + rate > cap ==> more == cap)
  {
    NotSubscribed(a, pubkey);
    NotSubscribed(b, pubkey);
    Learned(a.policy.learningRate, confirmed - disputed);
  }

  // One more disputed signal takes it away again, down to zero; a peer at the cap may have more to spend.
  lemma OneMoreDisputed(a: Visitor, b: Visitor, pubkey: string, confirmed: int, disputed: int)
    requires SameButPeers(a, b) && 0.0 <= a.policy.maxWeightPerPeer && 0.0 <= a.policy.learningRate
    requires KnownBySignals(a, pubkey, confirmed, disputed) && KnownBySignals(b, pubkey, confirmed, disputed + 1)
    ensures var w, less, rate, cap :=
        WeightFor(a, pubkey), WeightFor(b, pubkey), a.policy.learningRate, a.policy.maxWeightPerPeer;
      && w - rate <= less <= w && 0.0 <= less
      && (w < cap && w - rate >= 0.0 ==> less == w - rate)
      && (w < cap && w - rate < 0.0 ==> less == 0.0)
  {
    NotSubscribed(a, pubkey);
    NotSubscribed(b, pubkey);
    Learned(a.policy.learningRate, confirmed - disputed - 1);
  }

  lemma Learned(rate: real, n: int)
    ensures rate * (n + 1) as real == rate * n as real + rate
  {
    assert (n + 1) as real == n as real + 1.0;
  }

  // Five confirmed signals and none disputed: the default policy gives a weight of 0.6, and a fresh rejection
  // counts 1.8.
  lemma FiveConfirmed(r: Visitor, s: Signal)
    requires r.policy == DEFAULT_POLICY && KnownBySignals(r, s.source, 5, 0)
    requires s.verdict == "reject" && s.timestamp >= r.now
    ensures WeightFor(r, s.source) == 0.6 && Contribution(r, s) == 1.8
  {
    NotSubscribed(r, s.source);
    DefaultSeverities();
  }

  // A verdict that the policy does not rate counts nothing, whoever gives it.
  lemma UnratedCountsNothing(r: Visitor, s: Signal)
    requires s.verdict !in r.policy.severity
    ensures Contribution(r, s) == 0.0
  {
    assert Severity(r.policy, s.verdict) == 0.0;
    hide WeightFor;
    hide TimeDecay;
  }

  // ---- A signal's age

  // A signal without a usable date, or of the moment, counts in full; one that is some days old has halved once for
  // every half-life in them.
  lemma AgeInHalfLives(r: Visitor, timestamp: int, days: real)
    ensures timestamp <= 0 || r.now <= timestamp || r.policy.halfLifeDays <= 0.0 ==> TimeDecay(r, timestamp) == 1.0
    ensures 0 < timestamp < r.now && (r.now - timestamp) as real == 86_400.0 * days && r.policy.halfLifeDays > 0.0 ==>
      TimeDecay(r, timestamp) == r.halve(days / r.policy.halfLifeDays)
  {
    if (r.now - timestamp) as real == 86_400.0 * days { assert (r.now - timestamp) as real / 86_400.0 == days; }
  }

  // The default policy: ninety days halve a signal, five points hide a content and two warn of it.
  lemma DefaultPolicyIs(r: Visitor, timestamp: int, score: real)
    requires r.policy == DEFAULT_POLICY
    ensures 0 < timestamp == r.now - 7_776_000 ==> TimeDecay(r, timestamp) == r.halve(1.0)
    ensures Decide(score, r.policy) == Hide <==> 5.0 <= score
    ensures Decide(score, r.policy) == Warn <==> 2.0 <= score < 5.0
    ensures forall k | Unknown(r, k) :: WeightFor(r, k) == 0.1
  {
    if 0 < timestamp == r.now - 7_776_000 { AgeInHalfLives(r, timestamp, 90.0); }
  }

  // ---- What it does to a score

  ghost predicate CountsMore(a: Visitor, b: Visitor, s: Signal)
  {
    Severity(a.policy, s.verdict) > 0.0 && WeightFor(b, s.source) > WeightFor(a, s.source)
  }

  lemma Product(x: real, y: real, z: real)
    requires x >= 0.0 && y >= 0.0 && z == x * y
    ensures z >= 0.0 && (z > 0.0 <==> x > 0.0 && y > 0.0)
  {
    if x == 0.0 || y == 0.0 {
      assert z == 0.0;
    } else {
      assert z > 0.0;
    }
  }

  lemma Difference(a: real, b: real, factor: real, d: real)
    requires d == b - a
    ensures b * factor - a * factor == d * factor
  {
  }

  lemma MoreWeight(w: real, more: real, severity: real, decay: real, x: real, y: real)
    requires w <= more && severity >= 0.0 && decay > 0.0
    requires IsProduct(x, w, severity, decay) && IsProduct(y, more, severity, decay)
    ensures x <= y && (x < y <==> w < more && severity > 0.0)
  {
    var p, q := w * severity, more * severity;
    Difference(w, more, severity, more - w);
    Product(more - w, severity, q - p);
    Difference(p, q, decay, q - p);
    Product(q - p, decay, y - x);
  }

  lemma ContributionRises(a: Visitor, b: Visitor, s: Signal)
    requires SameButPeers(a, b) && Halves(a.halve)
    requires Severity(a.policy, s.verdict) >= 0.0 && WeightFor(a, s.source) <= WeightFor(b, s.source)
    ensures Contribution(a, s) <= Contribution(b, s)
    ensures Contribution(a, s) < Contribution(b, s) <==> CountsMore(a, b, s)
  {
    DecayIsAFraction(a, s.timestamp);
    var w, more := WeightFor(a, s.source), WeightFor(b, s.source);
    var severity, decay := Severity(a.policy, s.verdict), TimeDecay(a, s.timestamp);
    assert TimeDecay(b, s.timestamp) == decay && b.policy == a.policy;
    assert CountsMore(a, b, s) <==> severity > 0.0 && more > w;
    hide *;
    ContributionIs(a, s, w, severity, decay);
    ContributionIs(b, s, more, severity, decay);
    MoreWeight(w, more, severity, decay, Contribution(a, s), Contribution(b, s));
  }

  ghost predicate IsProduct(x: real, w: real, severity: real, decay: real) { x == w * severity * decay }

  lemma ContributionIs(r: Visitor, s: Signal, w: real, severity: real, decay: real)
    requires w == WeightFor(r, s.source) && severity == Severity(r.policy, s.verdict)
    requires decay == TimeDecay(r, s.timestamp)
    ensures IsProduct(Contribution(r, s), w, severity, decay)
  {
    hide WeightFor;
    hide Severity;
    hide TimeDecay;
  }

  lemma {:induction false} SumRises(a: Visitor, b: Visitor, signals: seq<Signal>)
    requires SameButPeers(a, b) && Halves(a.halve)
    requires forall s | s in signals ::
      Severity(a.policy, s.verdict) >= 0.0 && WeightFor(a, s.source) <= WeightFor(b, s.source)
    ensures Sum(a, signals) <= Sum(b, signals)
    ensures Sum(a, signals) < Sum(b, signals) <==> exists s :: s in signals && CountsMore(a, b, s)
  {
    hide WeightFor;
    hide Severity;
    hide Contribution;
    hide CountsMore;
    if signals != [] {
      var init, last := signals[..|signals| - 1], signals[|signals| - 1];
      assert signals == init + [last] && last in signals;
      assert forall s | s in init :: s in signals;
      SumRises(a, b, init);
      ContributionRises(a, b, last);
      if s :| s in signals && CountsMore(a, b, s) { assert s == last || s in init; }
    }
  }

  // When peers gain weight and nothing else changes, a score rises exactly if a kept signal of positive severity comes
  // from a peer that did.
  lemma ScoreRisesExactly(a: Visitor, b: Visitor, signals: seq<Signal>)
    requires SameButPeers(a, b) && Halves(a.halve)
    requires forall s | s in Dedupe(a.policy, signals) ::
      Severity(a.policy, s.verdict) >= 0.0 && WeightFor(a, s.source) <= WeightFor(b, s.source)
    ensures Score(a, signals) <= Score(b, signals)
    ensures Score(a, signals) < Score(b, signals) <==>
      exists s :: s in Dedupe(a.policy, signals) && CountsMore(a, b, s)
  {
    hide Dedupe;
    hide WeightFor;
    hide Severity;
    SumRises(a, b, Dedupe(a.policy, signals));
  }
}
