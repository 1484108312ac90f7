/**
 The reader's scorer (trust/scorer.py) with the default policy (trust/policy.py:31-49). Scores are reals,
 and 0.5 ** x is a parameter `halve` of which only 0 < halve(x) <= 1 for x >= 0 is used.
 */
module Scoring {
  import opened Ordering
  import opened PyDict
  import opened Wrappers

  datatype Signal = Signal(contentKey: string, source: string, verdict: string, reason: string, timestamp: int)

  datatype Peer = Peer(explicitTrust: Option<real>, confirmed: int, disputed: int)

  datatype Moderator = Moderator(pubkey: string, weight: real)

  datatype Policy = Policy(
    thresholdWarn: real,
    thresholdHide: real,
    defaultWeightUnknown: real,
    maxWeightPerPeer: real,
    learningRate: real,
    halfLifeDays: real,
    severity: map<string, real>,
    moderators: seq<Moderator>)

  const DEFAULT_POLICY :=
    Policy(2.0, 5.0, 0.1, 2.0, 0.1, 90.0, map["ok" := 0.0, "warn" := 1.0, "reject" := 3.0], [])

  datatype Decision = Show | Warn | Hide

  // The reader: its policy, what it knows of its peers, its clock, and the halving function.
  datatype Visitor = Visitor(policy: Policy, peers: map<string, Peer>, now: int, halve: real -> real)

  ghost predicate Halves(halve: real -> real)
  {
    forall x | x >= 0.0 :: 0.0 < halve(x) <= 1.0
  }

  // ---- One signal

  function Severity(p: Policy, verdict: string): real
  {
    if verdict in p.severity then p.severity[verdict] else 0.0
  }

  function Clamp(value: real, low: real, high: real): real
  {
    var capped := if high < value then high else value;
    if capped > low then capped else low
  }

  function SubscribedWeight(moderators: seq<Moderator>, pubkey: string): Option<real>
  {
    if moderators == [] then None
    else if moderators[0].pubkey == pubkey then Some(moderators[0].weight)
    else SubscribedWeight(moderators[1..], pubkey)
  }

  function WeightFor(r: Visitor, pubkey: string): real
  {
    var p := r.policy;
    var subscribed := SubscribedWeight(p.moderators, pubkey);
    if subscribed.Some? then Clamp(subscribed.value, 0.0, p.maxWeightPerPeer)
    else if pubkey !in r.peers then p.defaultWeightUnknown
    else
      var peer := r.peers[pubkey];
      if peer.explicitTrust.Some? then Clamp(peer.explicitTrust.value, 0.0, p.maxWeightPerPeer)
      else
        var learned := p.defaultWeightUnknown + p.learningRate * (peer.confirmed - peer.disputed) as real;
        Clamp(learned, 0.0, p.maxWeightPerPeer)
  }

  function TimeDecay(r: Visitor, timestamp: int): real
  {
    if r.policy.halfLifeDays <= 0.0 || timestamp <= 0 || timestamp >= r.now then 1.0
    else r.halve((r.now - timestamp) as real / 86400.0 / r.policy.halfLifeDays)
  }

  function Contribution(r: Visitor, s: Signal): real
  {
    WeightFor(r, s.source) * Severity(r.policy, s.verdict) * TimeDecay(r, s.timestamp)
  }

  // ---- One signal per source

  type Best = Dict<string, Signal>

  function Keep(p: Policy, best: Best, s: Signal): Best
  {
    if !best.Has(s.source) then best.Put(s.source, s)
    else if Severity(p, s.verdict) > Severity(p, best.vals[s.source].verdict) then best.Put(s.source, s)
    else best
  }

  function BestOf(p: Policy, signals: seq<Signal>): (best: Best)
    ensures best.Valid()
  {
    if signals == [] then Empty()
    else Keep(p, BestOf(p, signals[..|signals| - 1]), signals[|signals| - 1])
  }

  function Dedupe(p: Policy, signals: seq<Signal>): seq<Signal>
  {
    BestOf(p, signals).Values()
  }

  function Sum(r: Visitor, signals: seq<Signal>): real
  {
    if signals == [] then 0.0
    else Sum(r, signals[..|signals| - 1]) + Contribution(r, signals[|signals| - 1])
  }

  function Score(r: Visitor, signals: seq<Signal>): real
  {
    Sum(r, Dedupe(r.policy, signals))
  }

  function Decide(score: real, p: Policy): Decision
  {
    if score >= p.thresholdHide then Hide else if score >= p.thresholdWarn then Warn else Show
  }

  // ---- The program's loops

  method DedupeBySource(p: Policy, signals: seq<Signal>) returns (deduped: seq<Signal>)
    ensures deduped == Dedupe(p, signals)
  {
    var best: Best := Empty();
    for i := 0 to |signals|
      invariant best == BestOf(p, signals[..i])
    {
      assert signals[..i + 1][..i] == signals[..i];
      var s := signals[i];
      if !best.Has(s.source) {
        best := best.Put(s.source, s);
      } else if Severity(p, s.verdict) > Severity(p, best.vals[s.source].verdict) {
        best := best.Put(s.source, s);
      }
    }
    assert signals[..|signals|] == signals;
    deduped := best.Values();
  }

  method ScoreContent(r: Visitor, signals: seq<Signal>)
    returns (score: real, decision: Decision, breakdown: seq<(Signal, real)>)
    ensures score == Score(r, signals) && decision == Decide(score, r.policy)
    ensures |breakdown| == |Dedupe(r.policy, signals)|
    ensures forall i | 0 <= i < |breakdown| ::
      breakdown[i].0 == Dedupe(r.policy, signals)[i] && breakdown[i].1 == Contribution(r, breakdown[i].0)
  {
    hide Contribution;
    hide Dedupe;
    var deduped := DedupeBySource(r.policy, signals);
    breakdown := [];
    score := 0.0;
    for i := 0 to |deduped|
      invariant score == Sum(r, deduped[..i]) && |breakdown| == i
      invariant forall j | 0 <= j < i :: breakdown[j] == (deduped[j], Contribution(r, deduped[j]))
    {
      assert deduped[..i + 1][..i] == deduped[..i];
      var contribution := Contribution(r, deduped[i]);
      breakdown := breakdown + [(deduped[i], contribution)];
      score := score + contribution;
    }
    assert deduped[..|deduped|] == deduped;
    decision := Decide(score, r.policy);
  }

  // ---- What de-duplication keeps

  lemma BestOfAppend(p: Policy, signals: seq<Signal>, s: Signal)
    ensures BestOf(p, signals + [s]) == Keep(p, BestOf(p, signals), s)
  {
    assert (signals + [s])[..|signals|] == signals;
  }

  lemma KeepOne(p: Policy, best: Best, s: Signal, source: string)
    ensures Keep(p, best, s).Has(source) <==> best.Has(source) || s.source == source
    ensures s.source != source && best.Has(source) ==> Keep(p, best, s).vals[source] == best.vals[source]
    ensures s.source == source ==>
      Keep(p, best, s).vals[source] ==
        if best.Has(source) && Severity(p, s.verdict) <= Severity(p, best.vals[source].verdict) then best.vals[source]
        else s
  {
  }

  // The kept signal of a source: one of its own, and none of its signals is more severe.
  ghost predicate MostSevere(p: Policy, signals: seq<Signal>, source: string, kept: Signal)
  {
    && kept in signals && kept.source == source
    && forall s | s in signals && s.source == source :: Severity(p, s.verdict) <= Severity(p, kept.verdict)
  }

  lemma {:induction false} KeptIsMostSevere(p: Policy, signals: seq<Signal>, source: string)
    ensures BestOf(p, signals).Has(source) <==> exists s :: s in signals && s.source == source
    ensures BestOf(p, signals).Has(source) ==> MostSevere(p, signals, source, BestOf(p, signals).vals[source])
  {
    hide Severity;
    hide Keep;
    if signals != [] {
      var init, last := signals[..|signals| - 1], signals[|signals| - 1];
      KeptIsMostSevere(p, init, source);
      assert signals == init + [last];
      BestOfAppend(p, init, last);
      KeepOne(p, BestOf(p, init), last, source);
      assert forall s :: s in signals <==> s in init || s == last;
    }
  }

  // ---- The effect of one more signal

  lemma {:induction false} SumAppend(r: Visitor, a: seq<Signal>, s: Signal)
    ensures Sum(r, a + [s]) == Sum(r, a) + Contribution(r, s)
  {
    assert (a + [s])[..|a|] == a;
  }

  lemma {:induction false} SumUpdate(r: Visitor, a: seq<Signal>, i: nat, s: Signal)
    requires i < |a|
    ensures Sum(r, a[i := s]) == Sum(r, a) - Contribution(r, a[i]) + Contribution(r, s)
    decreases |a|
  {
    var n := |a| - 1;
    if i == n {
      assert a[i := s][..n] == a[..n];
    } else {
      assert a[i := s][..n] == a[..n][i := s];
      SumUpdate(r, a[..n], i, s);
    }
  }

  lemma PutValues(d: Best, s: Signal) returns (i: nat)
    requires d.Valid()
    ensures !d.Has(s.source) ==> d.Put(s.source, s).Values() == d.Values() + [s]
    ensures d.Has(s.source) ==>
      i < |d.keys| && d.keys[i] == s.source && d.Values()[i] == d.vals[s.source] &&
      d.Put(s.source, s).Values() == d.Values()[i := s]
  {
    i := 0;
    if d.Has(s.source) {
      i :| 0 <= i < |d.keys| && d.keys[i] == s.source;
      assert d.Put(s.source, s).Values() == d.Values()[i := s];
    } else {
      assert s.source !in d.keys;
      assert d.Put(s.source, s).Values() == d.Values() + [s];
    }
  }

  // A signal from a new source adds its contribution; from a known one it counts only when it is strictly
  // more severe, and then takes the place of the old one.
  lemma OneMoreSignal(r: Visitor, signals: seq<Signal>, s: Signal)
    ensures var best := BestOf(r.policy, signals);
      Score(r, signals + [s]) ==
        if !best.Has(s.source) then Score(r, signals) + Contribution(r, s)
        else if Severity(r.policy, s.verdict) > Severity(r.policy, best.vals[s.source].verdict) then
          Score(r, signals) - Contribution(r, best.vals[s.source]) + Contribution(r, s)
        else Score(r, signals)
  {
    hide Contribution;
    hide Severity;
    hide BestOf;
    hide Sum;
    BestOfAppend(r.policy, signals, s);
    SumOfPut(r, BestOf(r.policy, signals), s);
  }

  lemma SumOfPut(r: Visitor, best: Best, s: Signal)
    requires best.Valid()
    ensures Sum(r, best.Put(s.source, s).Values()) ==
      Sum(r, best.Values()) + Contribution(r, s) -
      if best.Has(s.source) then Contribution(r, best.vals[s.source]) else 0.0
  {
    hide Contribution;
    hide Sum;
    var i := PutValues(best, s);
    if best.Has(s.source) {
      SumUpdate(r, best.Values(), i, s);
    } else {
      SumAppend(r, best.Values(), s);
    }
  }

  // Signals are compared by severity, not by what they contribute, so one more signal can lower the score.
  // It does so exactly when a strictly more severe one that contributes less replaces a kept one, or when a
  // new source contributes a negative amount.
  lemma LowersExactly(r: Visitor, signals: seq<Signal>, s: Signal)
    ensures var best := BestOf(r.policy, signals);
      Score(r, signals + [s]) < Score(r, signals) <==>
        if !best.Has(s.source) then Contribution(r, s) < 0.0
        else
          Severity(r.policy, s.verdict) > Severity(r.policy, best.vals[s.source].verdict) &&
          Contribution(r, s) < Contribution(r, best.vals[s.source])
  {
    OneMoreSignal(r, signals, s);
  }

  // A fresh warning followed by an old rejection of the same stranger, with the default policy.
  lemma OldRejectionLowersScore(r: Visitor, source: string, t: int)
    requires r.policy == DEFAULT_POLICY && source !in r.peers && 0 < t < r.now
    requires TimeDecay(r, t) < 1.0 / 3.0
    ensures var warning := Signal("c", source, "warn", "", r.now);
      Score(r, [warning, Signal("c", source, "reject", "", t)]) < Score(r, [warning])
  {
    var warning, rejection := Signal("c", source, "warn", "", r.now), Signal("c", source, "reject", "", t);
    assert [warning][..0] == [];
    assert BestOf(r.policy, [warning]) == Keep(r.policy, BestOf(r.policy, []), warning);
    assert [warning] + [rejection] == [warning, rejection];
    DefaultSeverities();
    LowersExactly(r, [warning], rejection);
  }

  lemma DefaultSeverities()
    ensures Severity(DEFAULT_POLICY, "ok") == 0.0
    ensures Severity(DEFAULT_POLICY, "warn") == 1.0
    ensures Severity(DEFAULT_POLICY, "reject") == 3.0
    ensures forall v :: 0.0 <= Severity(DEFAULT_POLICY, v) <= 3.0
  {
    assert "ok"[0] == 'o' && "warn"[0] == 'w' && "reject"[0] == 'r';
  }

  // ---- Bounds

  ghost predicate Unknown(r: Visitor, pubkey: string)
  {
    pubkey !in r.peers && SubscribedWeight(r.policy.moderators, pubkey).None?
  }

  // No peer weighs more than the cap, whatever its history, its trust level or its subscription.
  lemma WeightIsCapped(r: Visitor, pubkey: string)
    requires 0.0 <= r.policy.maxWeightPerPeer
    ensures !Unknown(r, pubkey) ==> 0.0 <= WeightFor(r, pubkey) <= r.policy.maxWeightPerPeer
    ensures Unknown(r, pubkey) ==> WeightFor(r, pubkey) == r.policy.defaultWeightUnknown
  {
  }

  lemma DecayIsAFraction(r: Visitor, t: int)
    requires Halves(r.halve)
    ensures 0.0 < TimeDecay(r, t) <= 1.0
  {
    if !(r.policy.halfLifeDays <= 0.0 || t <= 0 || t >= r.now) {
      var age := (r.now - t) as real / 86400.0;
      assert age / r.policy.halfLifeDays >= 0.0;
    }
  }

  lemma {:induction false} SumIsBounded(r: Visitor, signals: seq<Signal>, limit: real)
    requires forall s | s in signals :: Contribution(r, s) <= limit
    ensures Sum(r, signals) <= limit * |signals| as real
  {
    hide Contribution;
    if signals != [] {
      var n := |signals| - 1;
      assert signals == signals[..n] + [signals[n]];
      assert signals[n] in signals;
      SumIsBounded(r, signals[..n], limit);
      assert limit * n as real + limit == limit * (n + 1) as real;
    }
  }

  lemma UnknownContribution(r: Visitor, s: Signal)
    requires r.policy == DEFAULT_POLICY && Halves(r.halve) && Unknown(r, s.source)
    ensures 0.0 <= Contribution(r, s) <= 0.3
  {
    DefaultSeverities();
    DecayIsAFraction(r, s.timestamp);
    var sev, d := Severity(r.policy, s.verdict), TimeDecay(r, s.timestamp);
    assert 0.0 <= 0.1 * sev <= 0.3;
    assert Contribution(r, s) == 0.1 * sev * d;
    ScaledDown(0.1 * sev, d);
  }

  lemma ScaledDown(x: real, d: real)
    requires 0.0 <= x && 0.0 < d <= 1.0
    ensures 0.0 <= x * d <= x
  {
  }

  ghost function Sources(signals: seq<Signal>): set<string>
  {
    set s | s in signals :: s.source
  }

  lemma {:induction false} KeysAreSources(p: Policy, signals: seq<Signal>)
    ensures |Dedupe(p, signals)| == |Sources(signals)|
    ensures forall i | 0 <= i < |Dedupe(p, signals)| :: Dedupe(p, signals)[i].source in Sources(signals)
  {
    var best := BestOf(p, signals);
    forall k ensures best.Has(k) <==> k in Sources(signals) {
      KeptIsMostSevere(p, signals, k);
    }
    forall i | 0 <= i < |best.keys| ensures best.Values()[i].source in Sources(signals) {
      KeptIsMostSevere(p, signals, best.keys[i]);
    }
    assert best.vals.Keys == Sources(signals);
    DistinctLength(best.keys, best.vals.Keys);
  }

  // Strangers alone reach 0.3 per distinct source at most, however many signals they send.
  lemma StrangersScoreLittle(r: Visitor, signals: seq<Signal>)
    requires r.policy == DEFAULT_POLICY && Halves(r.halve)
    requires forall s | s in signals :: Unknown(r, s.source)
    ensures Score(r, signals) <= 0.3 * |Sources(signals)| as real
  {
    hide Contribution;
    hide BestOf;
    var deduped := Dedupe(r.policy, signals);
    forall s | s in deduped ensures Contribution(r, s) <= 0.3 {
      var i :| 0 <= i < |deduped| && deduped[i] == s;
      var best := BestOf(r.policy, signals);
      KeptIsMostSevere(r.policy, signals, best.keys[i]);
      UnknownContribution(r, s);
    }
    SumIsBounded(r, deduped, 0.3);
    KeysAreSources(r.policy, signals);
  }
}
