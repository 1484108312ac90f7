/**
 Trying seeders: the queue and in-flight loop of rust/mdp2p-node/src/fetch.rs:117-166, and the concurrent
 tasks of peer/bundle_protocol.py:74-103. Downloads finish in any order.
 */
module Seeders {
  import opened Bundle
  import opened Json
  import opened Ordering
  import opened Records
  import opened Wrappers

  const MAX_PARALLEL_SEEDERS := 4

  datatype Outcome = TimedOut | Failed | Response(bundle: Value)

  // What the i-th provider comes to: how its attempt ends, and the clock when that happens.
  datatype Swarm = Swarm(size: nat, outcome: nat -> Outcome, clock: nat -> int)

  function ExpectationAt(e: Expectation, s: Swarm, i: nat): Expectation { e.(now := s.clock(i)) }

  // Provider i answers, and its answer is accepted when it arrives.
  ghost predicate Good(c: Crypto, s: Swarm, e: Expectation, i: nat)
  {
    s.outcome(i).Response? && Check(c, s.outcome(i).bundle, ExpectationAt(e, s, i)).Success?
  }

  datatype Winner = Winner(provider: nat, bundle: Value, files: Files)

  // The winner is whatever good provider happens to finish first, and there is none only if every provider
  // was tried and none is good: one honest seeder is enough, whoever else claims to have the site. No
  // provider is tried twice and at most four downloads run at once.
  method TrySeeders(c: Crypto, s: Swarm, e: Expectation)
    returns (winner: Option<Winner>, ghost launched: seq<nat>, ghost peak: nat)
    ensures winner.Some? ==> winner.value.provider < s.size && Wins(c, s, e, winner.value)
    ensures winner.None? <==> forall i: nat | i < s.size :: !Good(c, s, e, i)
    ensures peak == if s.size < 4 then s.size else 4
    ensures |launched| <= s.size && forall i | 0 <= i < |launched| :: launched[i] == i
    ensures winner.None? ==> |launched| == s.size
  {
    hide Check;
    hide Good;
    hide Wins;
    hide NoneGoodButIn;
    hide InOrder;
    StartInOrder();
    var next: nat := 0;
    var inFlight: set<nat> := {};
    launched := [];
    while next < s.size && next < MAX_PARALLEL_SEEDERS
      invariant next <= s.size && next <= MAX_PARALLEL_SEEDERS && |inFlight| == next
      invariant forall i: nat :: i in inFlight <==> i < next
      invariant InOrder(launched, next)
    {
      InOrderNext(launched, next);
      inFlight := inFlight + {next};
      launched := launched + [next];
      next := next + 1;
    }
    peak := |inFlight|;
    NothingTried(c, s, e, next, inFlight);
    while inFlight != {}
      invariant next <= s.size && forall i | i in inFlight :: i < next
      invariant next < s.size ==> |inFlight| == MAX_PARALLEL_SEEDERS
      invariant |inFlight| <= peak == if s.size < MAX_PARALLEL_SEEDERS then s.size else MAX_PARALLEL_SEEDERS
      invariant InOrder(launched, next)
      invariant NoneGoodButIn(c, s, e, next, inFlight)
      decreases s.size - next + |inFlight|
    {
      var p :| p in inFlight;
      ghost var before := inFlight;
      inFlight := inFlight - {p};
      var accepted := JudgeProvider(c, s, e, p);
      if accepted.Some? {
        LaunchedInOrder(launched, next);
        return accepted, launched, peak;
      }
      OneTried(c, s, e, next, before, p);
      SetSizes(before, p, next);
      if next < s.size {
        InOrderNext(launched, next);
        inFlight := inFlight + {next};
        launched := launched + [next];
        next := next + 1;
      }
      peak := Max(peak, |inFlight|);
    }
    LaunchedInOrder(launched, next);
    AllTried(c, s, e, next);
    winner := None;
  }

  lemma SetSizes(s: set<nat>, p: nat, n: nat)
    requires p in s && forall i | i in s :: i < n
    ensures |s - {p}| == |s| - 1 && |s - {p} + {n}| == |s|
  {
  }

  ghost predicate InOrder(launched: seq<nat>, n: nat)
  {
    |launched| == n && forall i | 0 <= i < n :: launched[i] == i
  }

  lemma StartInOrder()
    ensures InOrder([], 0)
  {
  }

  lemma InOrderNext(launched: seq<nat>, n: nat)
    requires InOrder(launched, n)
    ensures InOrder(launched + [n], n + 1)
  {
  }

  lemma LaunchedInOrder(launched: seq<nat>, n: nat)
    requires InOrder(launched, n)
    ensures |launched| == n && forall i | 0 <= i < |launched| :: launched[i] == i
  {
  }

  lemma NothingTried(c: Crypto, s: Swarm, e: Expectation, n: nat, inFlight: set<nat>)
    requires forall i: nat :: i in inFlight <==> i < n
    ensures NoneGoodButIn(c, s, e, n, inFlight)
  {
    hide Good;
  }

  lemma AllTried(c: Crypto, s: Swarm, e: Expectation, n: nat)
    requires NoneGoodButIn(c, s, e, n, {})
    ensures forall i: nat | i < n :: !Good(c, s, e, i)
  {
    hide Good;
  }

  // Of the providers before the n-th all but these have been tried, and none was good.
  ghost predicate NoneGoodButIn(c: Crypto, s: Swarm, e: Expectation, n: nat, inFlight: set<nat>)
  {
    forall i: nat | i < n && i !in inFlight :: !Good(c, s, e, i)
  }

  lemma OneTried(c: Crypto, s: Swarm, e: Expectation, n: nat, inFlight: set<nat>, p: nat)
    requires p in inFlight && NoneGoodButIn(c, s, e, n, inFlight) && !Good(c, s, e, p)
    ensures NoneGoodButIn(c, s, e, n, inFlight - {p})
    ensures NoneGoodButIn(c, s, e, n + 1, inFlight - {p} + {n})
  {
    hide Good;
  }

  ghost predicate Wins(c: Crypto, s: Swarm, e: Expectation, w: Winner)
  {
    && s.outcome(w.provider) == Response(w.bundle)
    && Check(c, w.bundle, ExpectationAt(e, s, w.provider)) == Success(w.files)
  }

  // One download has ended: by a timeout, an error, or a response to be checked.
  method JudgeProvider(c: Crypto, s: Swarm, e: Expectation, p: nat) returns (r: Option<Winner>)
    ensures r.Some? <==> Good(c, s, e, p)
    ensures r.Some? ==> r.value.provider == p && Wins(c, s, e, r.value)
  {
    hide Check;
    match s.outcome(p) {
      case TimedOut => r := None;
      case Failed => r := None;
      case Response(bundle) =>
        var accepted := CheckDownloadedBundle(c, bundle, ExpectationAt(e, s, p));
        r := if accepted.Success? then Some(Winner(p, bundle, accepted.value)) else None;
    }
  }

  // ---- Python: one task per seeder, a limiter of four, and a shared list of winners

  datatype Phase = Waiting | Downloading | Finished

  datatype Nursery = Nursery(tasks: seq<Phase>, winner: seq<nat>, cancelled: bool)

  // A task enters the limiter; its download ends and, up to the next await, it judges the response; or it
  // notices that the nursery was cancelled.
  datatype Action = Enter(i: nat) | Judge(i: nat) | Abort(i: nat)

  function Holders(tasks: seq<Phase>): nat
  {
    if tasks == [] then 0 else Holders(tasks[..|tasks| - 1]) + if tasks[|tasks| - 1] == Downloading then 1 else 0
  }

  predicate Enabled(n: Nursery, a: Action)
  {
    match a
    case Enter(i) =>
      i < |n.tasks| && n.tasks[i] == Waiting && !n.cancelled && Holders(n.tasks) < MAX_PARALLEL_SEEDERS
    case Judge(i) => i < |n.tasks| && n.tasks[i] == Downloading
    case Abort(i) => i < |n.tasks| && n.tasks[i] != Finished && n.cancelled
  }

  // `valid(i)`: seeder i's response arrived in time and passes the validator.
  function Act(valid: nat -> bool, n: Nursery, a: Action): Nursery
    requires Enabled(n, a)
  {
    match a
    case Enter(i) => n.(tasks := n.tasks[i := Downloading])
    case Judge(i) =>
      var done := n.(tasks := n.tasks[i := Finished]);
      if n.winner != [] || !valid(i) then done else done.(winner := [i], cancelled := true)
    case Abort(i) => n.(tasks := n.tasks[i := Finished])
  }

  function Opened(size: nat): Nursery
  {
    Nursery(seq(size, _ => Waiting), [], false)
  }

  // The nursery after a sequence of actions; None if one of them was not enabled when it was taken.
  function Run(valid: nat -> bool, size: nat, actions: seq<Action>): Option<Nursery>
  {
    if actions == [] then Some(Opened(size))
    else
      var before, last := Run(valid, size, actions[..|actions| - 1]), actions[|actions| - 1];
      if before.None? || !Enabled(before.value, last) then None else Some(Act(valid, before.value, last))
  }

  ghost predicate Runs(valid: nat -> bool, size: nat, actions: seq<Action>, n: Nursery)
  {
    Run(valid, size, actions) == Some(n)
  }

  // At most one winner, a valid one; the nursery is cancelled exactly when there is one; as long as there
  // is none, every task that finished was judged and found wanting; and four downloads at most.
  ghost predicate Sound(valid: nat -> bool, size: nat, n: Nursery)
  {
    && |n.tasks| == size
    && |n.winner| <= 1
    && (forall w | w in n.winner :: w < size && valid(w))
    && (n.cancelled <==> n.winner != [])
    && (n.winner == [] ==> forall i | 0 <= i < size && n.tasks[i] == Finished :: !valid(i))
    && Holders(n.tasks) <= MAX_PARALLEL_SEEDERS
  }

  lemma {:induction false} HoldersUpdate(tasks: seq<Phase>, i: nat, p: Phase)
    requires i < |tasks|
    ensures Holders(tasks[i := p]) ==
      Holders(tasks) - (if tasks[i] == Downloading then 1 else 0) + (if p == Downloading then 1 else 0)
    decreases |tasks|
  {
    var n := |tasks| - 1;
    if i == n {
      assert tasks[i := p][..n] == tasks[..n];
    } else {
      assert tasks[i := p][..n] == tasks[..n][i := p];
      HoldersUpdate(tasks[..n], i, p);
    }
  }

  lemma {:induction false} NoHolders(tasks: seq<Phase>)
    requires forall i | 0 <= i < |tasks| :: tasks[i] != Downloading
    ensures Holders(tasks) == 0
  {
    if tasks != [] { NoHolders(tasks[..|tasks| - 1]); }
  }

  lemma {:induction false} HolderExists(tasks: seq<Phase>)
    requires Holders(tasks) > 0
    ensures exists i | 0 <= i < |tasks| :: tasks[i] == Downloading
  {
    if forall i | 0 <= i < |tasks| :: tasks[i] != Downloading { NoHolders(tasks); }
  }

  lemma ActSound(valid: nat -> bool, size: nat, n: Nursery, a: Action)
    requires Sound(valid, size, n) && Enabled(n, a)
    ensures Sound(valid, size, Act(valid, n, a))
  {
    HoldersUpdate(n.tasks, a.i, if a.Enter? then Downloading else Finished);
  }

  lemma {:induction false} RunSound(valid: nat -> bool, size: nat, actions: seq<Action>, n: Nursery)
    requires Runs(valid, size, actions, n)
    ensures Sound(valid, size, n)
  {
    if actions == [] {
      NoHolders(n.tasks);
    } else {
      var init, last := actions[..|actions| - 1], actions[|actions| - 1];
      var m := Run(valid, size, init).value;
      RunSound(valid, size, init, m);
      ActSound(valid, size, m, last);
    }
  }

  predicate Closed(n: Nursery)
  {
    forall i | 0 <= i < |n.tasks| :: n.tasks[i] == Finished
  }

  // When all tasks are over there is exactly one winner if any seeder is valid, and none otherwise,
  // whatever the order in which downloads ended.
  lemma NurseryResult(valid: nat -> bool, size: nat, actions: seq<Action>, n: Nursery)
    requires Runs(valid, size, actions, n) && Closed(n)
    ensures |n.winner| == if exists i :: 0 <= i < size && valid(i) then 1 else 0
    ensures forall w | w in n.winner :: w < size && valid(w)
  {
    RunSound(valid, size, actions, n);
    if n.winner != [] { assert n.winner[0] in n.winner; }
  }

  // It never gets stuck: until all tasks are over, some task can go on.
  lemma NurseryProgress(valid: nat -> bool, size: nat, actions: seq<Action>, n: Nursery)
    requires Runs(valid, size, actions, n) && !Closed(n)
    ensures exists a :: Enabled(n, a)
  {
    RunSound(valid, size, actions, n);
    var i :| 0 <= i < |n.tasks| && n.tasks[i] != Finished;
    if n.cancelled {
      assert Enabled(n, Abort(i));
    } else if Holders(n.tasks) > 0 {
      HolderExists(n.tasks);
      var j :| 0 <= j < |n.tasks| && n.tasks[j] == Downloading;
      assert Enabled(n, Judge(j));
    } else {
      if n.tasks[i] == Downloading {
        assert Enabled(n, Judge(i));
      } else {
        assert Enabled(n, Enter(i));
      }
    }
  }

  function Remaining(p: Phase): nat { match p case Waiting => 2 case Downloading => 1 case Finished => 0 }

  function Work(tasks: seq<Phase>): nat
  {
    if tasks == [] then 0 else Work(tasks[..|tasks| - 1]) + Remaining(tasks[|tasks| - 1])
  }

  lemma {:induction false} WorkUpdate(tasks: seq<Phase>, i: nat, p: Phase)
    requires i < |tasks|
    ensures Work(tasks[i := p]) == Work(tasks) - Remaining(tasks[i]) + Remaining(p)
    decreases |tasks|
  {
    var n := |tasks| - 1;
    if i == n {
      assert tasks[i := p][..n] == tasks[..n];
    } else {
      assert tasks[i := p][..n] == tasks[..n][i := p];
      WorkUpdate(tasks[..n], i, p);
    }
  }

  lemma {:induction false} AllWaiting(size: nat)
    ensures Work(Opened(size).tasks) == 2 * size
  {
    if size > 0 {
      AllWaiting(size - 1);
      assert Opened(size).tasks[..size - 1] == Opened(size - 1).tasks;
    }
  }

  // And it ends: each seeder accounts for two actions at most, so none is asked twice.
  lemma {:induction false} NurseryEnds(valid: nat -> bool, size: nat, actions: seq<Action>, n: Nursery)
    requires Runs(valid, size, actions, n)
    ensures |actions| + Work(n.tasks) <= 2 * size
  {
    if actions == [] {
      AllWaiting(size);
    } else {
      var init, last := actions[..|actions| - 1], actions[|actions| - 1];
      var m := Run(valid, size, init).value;
      NurseryEnds(valid, size, init, m);
      WorkUpdate(m.tasks, last.i, if last.Enter? then Downloading else Finished);
    }
  }

  // Whoever wins first stays the winner, however many valid responses come in after that.
  lemma {:induction false} WinnerStays(
    valid: nat -> bool, size: nat, actions: seq<Action>, k: nat, early: Nursery, late: Nursery)
    requires k <= |actions| && Runs(valid, size, actions[..k], early) && Runs(valid, size, actions, late)
    ensures early.winner != [] ==> late.winner == early.winner
    decreases |actions|
  {
    if k == |actions| {
      assert actions[..k] == actions;
    } else {
      var init := actions[..|actions| - 1];
      assert init[..k] == actions[..k];
      WinnerStays(valid, size, init, k, early, Run(valid, size, init).value);
    }
  }

  // The winner is the first whose download was judged and found valid.
  lemma FirstValidWins(valid: nat -> bool, n: Nursery, a: Action)
    requires Enabled(n, a)
    ensures n.winner == [] && a.Judge? && valid(a.i) ==> Act(valid, n, a).winner == [a.i]
    ensures n.winner != [] || !a.Judge? || !valid(a.i) ==> Act(valid, n, a).winner == n.winner
  {
  }
}
