/**
 Trust on first use with a rollback mark: pinstore.py, rust/mdp2p-core/src/pin.rs and
 rust/mdp2p-node/src/pinstore.rs, which share one file, and the use fetch_site makes of them
 (peer/peer.py:415-480). Fetches of a name follow one another.
 */
module Pins {
  import opened Ordering
  import opened Stores
  import opened Wrappers

  datatype PinStatus = Unknown | Match | Mismatch | Rollback

  // The key field of an entry. One that is absent or no text can only come from an edited file.
  datatype PinnedKey = Absent | NotText | Key(key: string)

  // One entry of the file. A pin written before rollback protection has no mark.
  datatype Entry = Entry(publicKey: PinnedKey, author: string, firstSeen: int, lastSeen: int, mark: Option<int>)

  type PinMap = map<string, Entry>

  datatype Pin = Pin(publicKey: string, mark: Option<int>)

  // rust/mdp2p-core/src/pin.rs
  function CheckPin(pin: Option<Pin>, key: string, timestamp: int): PinStatus
  {
    if pin.None? then Unknown
    else if pin.value.publicKey != key then Mismatch
    else if pin.value.mark.Some? && timestamp < pin.value.mark.value then Rollback
    else Match
  }

  // rust/mdp2p-node/src/pinstore.rs:58-67: an entry without a textual key counts as no pin.
  function Status(pins: PinMap, uri: string, key: string, timestamp: int): PinStatus
  {
    if uri in pins && pins[uri].publicKey.Key? then
      CheckPin(Some(Pin(pins[uri].publicKey.key, pins[uri].mark)), key, timestamp)
    else CheckPin(None, key, timestamp)
  }

  // pinstore.py:46-67; None stands for the KeyError an entry without a key raises. A key that is no text
  // differs from every key.
  function PyStatus(pins: PinMap, uri: string, key: string, timestamp: Option<int>): Option<PinStatus>
  {
    if uri !in pins then Some(Unknown)
    else if pins[uri].publicKey.Absent? then None
    else if pins[uri].publicKey != Key(key) then Some(Mismatch)
    else if timestamp.Some? && pins[uri].mark.Some? && timestamp.value < pins[uri].mark.value then Some(Rollback)
    else Some(Match)
  }

  // What a successful visit leaves in the file.
  function Visited(pins: PinMap, uri: string, key: string, author: string, timestamp: int, now: int): PinMap
  {
    pins[uri :=
      if uri in pins then
        pins[uri].(lastSeen := now,
                   mark := Some(Max(timestamp, if pins[uri].mark.Some? then pins[uri].mark.value else 0)))
      else Entry(Key(key), author, now, now, Some(timestamp))]
  }

  class PinStore {
    var pins: PinMap

    constructor (pins: PinMap)
      ensures this.pins == pins
    {
      this.pins := pins;
    }

    method Check(uri: string, key: string, timestamp: int) returns (status: PinStatus)
      ensures status == Status(pins, uri, key, timestamp)
    {
      var pin := None;
      if uri in pins && pins[uri].publicKey.Key? {
        pin := Some(Pin(pins[uri].publicKey.key, pins[uri].mark));
      }
      status := CheckPin(pin, key, timestamp);
    }

    // Rust
    method RecordVisit(uri: string, key: string, author: string, timestamp: int, now: int)
      modifies this
      ensures pins == Visited(old(pins), uri, key, author, timestamp, now)
    {
      var entry;
      if uri in pins {
        var seen := if pins[uri].mark.Some? then pins[uri].mark.value else 0;
        entry := pins[uri].(lastSeen := now, mark := Some(Max(timestamp, seen)));
      } else {
        entry := Entry(Key(key), author, now, now, Some(timestamp));
      }
      pins := pins[uri := entry];
    }

    // Python: `pin_key`
    method PinKey(uri: string, key: string, author: string, timestamp: Option<int>, now: int)
      modifies this
      ensures pins == old(pins)[uri :=
        Entry(Key(key), author, if uri in old(pins) then old(pins)[uri].firstSeen else now, now, timestamp)]
    {
      var firstSeen := if uri in pins then pins[uri].firstSeen else now;
      pins := pins[uri := Entry(Key(key), author, firstSeen, now, timestamp)];
    }

    // Python: `update_pin_last_seen`
    method UpdateLastSeen(uri: string, timestamp: Option<int>, now: int)
      modifies this
      ensures uri !in old(pins) ==> pins == old(pins)
      ensures uri in old(pins) && timestamp.Some? ==> pins == Visited(old(pins), uri, "", "", timestamp.value, now)
      ensures uri in old(pins) && timestamp.None? ==> pins == old(pins)[uri := old(pins)[uri].(lastSeen := now)]
    {
      if uri in pins {
        var entry := pins[uri].(lastSeen := now);
        if timestamp.Some? {
          entry := entry.(mark := Some(Max(timestamp.value, if entry.mark.Some? then entry.mark.value else 0)));
        }
        pins := pins[uri := entry];
      }
    }

    method Unpin(uri: string) returns (removed: bool)
      modifies this
      ensures removed <==> uri in old(pins)
      ensures pins == old(pins) - {uri}
    {
      removed := uri in pins;
      pins := pins - {uri};
    }

    // The end of Python's fetch_site: pin on the first visit, refresh otherwise.
    method PyRecordVisit(uri: string, key: string, author: string, timestamp: int, now: int)
      requires PyStatus(pins, uri, key, Some(timestamp)) in {Some(Unknown), Some(Match)}
      modifies this
      ensures pins == Visited(old(pins), uri, key, author, timestamp, now)
    {
      if PyStatus(pins, uri, key, Some(timestamp)) == Some(Unknown) {
        PinKey(uri, key, author, Some(timestamp), now);
      } else {
        UpdateLastSeen(uri, Some(timestamp), now);
      }
    }
  }

  ghost predicate Usable(pins: PinMap, uri: string)
  {
    uri in pins ==> pins[uri].publicKey.Key?
  }

  // The two clients read a shared file alike where the entry holds a textual key; on any other entry Rust
  // sees no pin, and Python raises or answers a mismatch.
  lemma ClientsAgree(pins: PinMap, uri: string, key: string, timestamp: int)
    ensures PyStatus(pins, uri, key, Some(timestamp)) ==
      if Usable(pins, uri) then Some(Status(pins, uri, key, timestamp))
      else if pins[uri].publicKey.Absent? then None
      else Some(Mismatch)
    ensures !Usable(pins, uri) ==> Status(pins, uri, key, timestamp) == Unknown
  {
  }

  // ---- Any sequence of fetches, whatever the naming server answers

  // A verified answer for a name, and whether a seeder then delivered an acceptable bundle.
  datatype Fetch = Fetch(uri: string, key: string, author: string, timestamp: int, delivered: bool, now: int)

  predicate Accepted(pins: PinMap, f: Fetch)
  {
    Status(pins, f.uri, f.key, f.timestamp) in {Unknown, Match} && f.delivered
  }

  function AfterFetches(pins: PinMap, fetches: seq<Fetch>): PinMap
  {
    if fetches == [] then pins
    else
      var before, f := AfterFetches(pins, fetches[..|fetches| - 1]), fetches[|fetches| - 1];
      if Accepted(before, f) then Visited(before, f.uri, f.key, f.author, f.timestamp, f.now) else before
  }

  predicate AcceptedAt(pins: PinMap, fetches: seq<Fetch>, i: nat)
    requires i < |fetches|
  {
    Accepted(AfterFetches(pins, fetches[..i]), fetches[i])
  }

  // Once a fetch of the name has been accepted, the pin holds its key and a mark no lower than its timestamp.
  lemma {:induction false} PinRemembers(pins: PinMap, fetches: seq<Fetch>, i: nat)
    requires i < |fetches| && AcceptedAt(pins, fetches, i) && Usable(pins, fetches[i].uri)
    ensures var uri := fetches[i].uri; var now := AfterFetches(pins, fetches);
      && uri in now && now[uri].publicKey == Key(fetches[i].key)
      && now[uri].mark.Some? && now[uri].mark.value >= fetches[i].timestamp
    decreases |fetches|
  {
    var n := |fetches| - 1;
    UsableStays(pins, fetches[..n], fetches[i].uri);
    if i < n {
      assert fetches[..n][..i] == fetches[..i];
      PinRemembers(pins, fetches[..n], i);
    }
  }

  lemma {:induction false} UsableStays(pins: PinMap, fetches: seq<Fetch>, uri: string)
    requires Usable(pins, uri)
    ensures Usable(AfterFetches(pins, fetches), uri)
  {
    if fetches != [] {
      UsableStays(pins, fetches[..|fetches| - 1], uri);
    }
  }

  ghost predicate OneKeyNoRollback(pins: PinMap, fetches: seq<Fetch>, uri: string)
  {
    forall i, j | 0 <= i < j < |fetches| && fetches[i].uri == uri == fetches[j].uri &&
      AcceptedAt(pins, fetches, i) && AcceptedAt(pins, fetches, j) ::
      fetches[i].key == fetches[j].key && fetches[i].timestamp <= fetches[j].timestamp
  }

  // Over any sequence of fetches, all records accepted for a name carry one key and never go back in time.
  lemma FetchesKeepOneKey(pins: PinMap, fetches: seq<Fetch>, uri: string)
    requires Usable(pins, uri)
    ensures OneKeyNoRollback(pins, fetches, uri)
  {
    forall i, j | 0 <= i < j < |fetches| && fetches[i].uri == uri == fetches[j].uri &&
      AcceptedAt(pins, fetches, i) && AcceptedAt(pins, fetches, j)
      ensures fetches[i].key == fetches[j].key && fetches[i].timestamp <= fetches[j].timestamp
    {
      assert fetches[..j][..i] == fetches[..i];
      PinRemembers(pins, fetches[..j], i);
    }
  }

  // The entry must hold a textual key: on one that does not, the Rust client trusts every key it is shown.
  lemma OneKeyExactly(pins: PinMap, uri: string)
    ensures (forall fetches: seq<Fetch> :: OneKeyNoRollback(pins, fetches, uri)) <==> Usable(pins, uri)
  {
    if Usable(pins, uri) {
      forall fetches: seq<Fetch> ensures OneKeyNoRollback(pins, fetches, uri) {
        FetchesKeepOneKey(pins, fetches, uri);
      }
    } else {
      var a, b := Fetch(uri, "a", "", 1, true, 1), Fetch(uri, "b", "", 1, true, 1);
      var fetches := [a, b];
      assert fetches[..0] == [] && fetches[..1] == [a] && [a][..0] == [];
      assert AfterFetches(pins, [a]) == Visited(pins, uri, "a", "", 1, 1);
      assert AcceptedAt(pins, fetches, 0) && AcceptedAt(pins, fetches, 1);
      assert fetches[0].key[0] == 'a' && fetches[1].key[0] == 'b';
      assert !OneKeyNoRollback(pins, fetches, uri);
    }
  }

  // ---- A client of one honest naming store

  // A fetch asks the store for a name, and later, whatever has been registered in between, checks the answer
  // against the pin and records the visit if a bundle was delivered. Fetches of different names overlap.
  datatype Happening =
    | Registered(uri: string, s: Signed<NameRecord>)
    | Asked(uri: string)
    | Finished(uri: string, delivered: bool, now: int)

  // `answers`: what the store answered to the fetches under way.
  datatype World = World(pins: PinMap, names: Names, answers: map<string, NameRecord>)

  // The answer an honest store gives is the record it holds.
  function Happen(w: World, h: Happening): World
  {
    match h
    case Registered(uri, s) => w.(names := SetName(w.names, uri, s))
    case Asked(uri) =>
      if !w.names.Has(uri) || uri in w.answers then w else w.(answers := w.answers[uri := w.names.vals[uri].record])
    case Finished(uri, delivered, now) =>
      if uri !in w.answers then w
      else
        var r := w.answers[uri];
        var f := Fetch(uri, r.publicKey, r.author, r.timestamp, delivered, now);
        World(if Accepted(w.pins, f) then Visited(w.pins, uri, r.publicKey, r.author, r.timestamp, now) else w.pins,
              w.names, w.answers - {uri})
  }

  function History(w: World, hs: seq<Happening>): World
  {
    if hs == [] then w else Happen(History(w, hs[..|hs| - 1]), hs[|hs| - 1])
  }

  // The pin is one that the record fits: its key, and a mark no higher than its timestamp. A pin without a
  // mark will get a mark of 0 or more.
  ghost predicate FitsPin(pins: PinMap, uri: string, r: NameRecord)
  {
    uri in pins ==>
      && pins[uri].publicKey == Key(r.publicKey)
      && (if pins[uri].mark.Some? then pins[uri].mark.value else 0) <= r.timestamp
  }

  // What a client remembers of a name, and what it has been answered, is something the store has held.
  ghost predicate Consistent(w: World)
  {
    && (forall uri | uri in w.pins :: w.names.Has(uri) && FitsPin(w.pins, uri, w.names.vals[uri].record))
    && forall uri | uri in w.answers ::
        && w.names.Has(uri)
        && w.answers[uri].publicKey == w.names.vals[uri].record.publicKey
        && w.answers[uri].timestamp <= w.names.vals[uri].record.timestamp
        && FitsPin(w.pins, uri, w.answers[uri])
  }

  lemma HappenConsistent(w: World, h: Happening)
    requires Consistent(w)
    ensures Consistent(Happen(w, h))
  {
    if h.Registered? { SetNameGrows(w.names, h.uri, h.s); }
  }

  lemma {:induction false} HistoryConsistent(w: World, hs: seq<Happening>)
    requires Consistent(w)
    ensures Consistent(History(w, hs))
  {
    if hs != [] {
      HistoryConsistent(w, hs[..|hs| - 1]);
      HappenConsistent(History(w, hs[..|hs| - 1]), hs[|hs| - 1]);
    }
  }

  // However registrations and fetches interleave, an honest store never raises an alarm: at every moment the
  // answer to a fetch under way, old as it may be, passes the pin. A client that starts without pins is
  // consistent with any store.
  lemma HonestStoreNeverAlarms(w: World, hs: seq<Happening>, uri: string)
    requires Consistent(w)
    requires uri in History(w, hs).answers
    ensures var r := History(w, hs).answers[uri];
      Status(History(w, hs).pins, uri, r.publicKey, r.timestamp) in {Unknown, Match}
  {
    HistoryConsistent(w, hs);
  }

  lemma NoPinsIsConsistent(names: Names)
    ensures Consistent(World(map[], names, map[]))
  {
  }

  // The condition on pins without a mark is needed: visiting twice, with no change in between, raises a
  // rollback alarm exactly when the record's timestamp is negative.
  lemma UnmarkedPinAlarmsExactly(pins: PinMap, uri: string, key: string, author: string, timestamp: int, now: int)
    requires uri in pins && pins[uri].publicKey == Key(key) && pins[uri].mark.None?
    ensures Status(pins, uri, key, timestamp) == Match
    ensures Status(Visited(pins, uri, key, author, timestamp, now), uri, key, timestamp) == Rollback <==> timestamp < 0
  {
  }

  // ---- What a pin tells

  // The i-th fetch is one of the name that was accepted, with none before it, or none after it.
  ghost predicate AcceptedOf(pins: PinMap, fetches: seq<Fetch>, i: nat, uri: string)
  {
    i < |fetches| && fetches[i].uri == uri && AcceptedAt(pins, fetches, i)
  }

  ghost predicate FirstOf(pins: PinMap, fetches: seq<Fetch>, i: nat, uri: string)
  {
    AcceptedOf(pins, fetches, i, uri) && forall j: nat | j < i :: !AcceptedOf(pins, fetches, j, uri)
  }

  ghost predicate LastOf(pins: PinMap, fetches: seq<Fetch>, i: nat, uri: string)
  {
    AcceptedOf(pins, fetches, i, uri) && forall j: nat | i < j < |fetches| :: !AcceptedOf(pins, fetches, j, uri)
  }

  // Fetches that are not accepted ones of the name leave its pin alone.
  lemma {:induction false} OthersLeaveThePin(pins: PinMap, fetches: seq<Fetch>, uri: string, i: nat)
    requires i <= |fetches| && forall j: nat | i <= j < |fetches| :: !AcceptedOf(pins, fetches, j, uri)
    ensures var before, now := AfterFetches(pins, fetches[..i]), AfterFetches(pins, fetches);
      (uri in before <==> uri in now) && (uri in now ==> now[uri] == before[uri])
    decreases |fetches|
  {
    if i == |fetches| {
      assert fetches[..i] == fetches;
    } else {
      var n := |fetches| - 1;
      assert fetches[..n][..i] == fetches[..i];
      forall j: nat | i <= j < n ensures !AcceptedOf(pins, fetches[..n], j, uri) {
        assert fetches[..n][..j] == fetches[..j] && !AcceptedOf(pins, fetches, j, uri);
      }
      OthersLeaveThePin(pins, fetches[..n], uri, i);
      assert !AcceptedOf(pins, fetches, n, uri);
    }
  }

  // No visit changes the key, the author or the first time of a pin.
  lemma {:induction false} FirstVisitStays(pins: PinMap, fetches: seq<Fetch>, uri: string, i: nat)
    requires i <= |fetches| && uri in AfterFetches(pins, fetches[..i])
    ensures var before, now := AfterFetches(pins, fetches[..i]), AfterFetches(pins, fetches);
      && uri in now && now[uri].publicKey == before[uri].publicKey
      && now[uri].author == before[uri].author && now[uri].firstSeen == before[uri].firstSeen
      && (before[uri].mark.Some? ==> now[uri].mark.Some?)
    decreases |fetches|
  {
    if i == |fetches| {
      assert fetches[..i] == fetches;
    } else {
      assert fetches[..|fetches| - 1][..i] == fetches[..i];
      FirstVisitStays(pins, fetches[..|fetches| - 1], uri, i);
    }
  }

  // What an accepted fetch leaves: of a first one everything, of a later one its time and, as it is no older than the
  // mark, its timestamp.
  lemma AcceptedFetchLeaves(pins: PinMap, fetches: seq<Fetch>, uri: string, i: nat)
    requires AcceptedOf(pins, fetches, i, uri)
    ensures var before, after, f :=
        AfterFetches(pins, fetches[..i]), AfterFetches(pins, fetches[..i + 1]), fetches[i];
      && uri in after && after[uri].lastSeen == f.now
      && (uri !in before ==> after[uri] == Entry(Key(f.key), f.author, f.now, f.now, Some(f.timestamp)))
      && (uri in before && before[uri].publicKey.Key? && before[uri].mark.Some? ==>
          after[uri].mark == Some(f.timestamp))
  {
    assert fetches[..i + 1][..i] == fetches[..i];
  }

  // The pin of a name that had none is there once a fetch of it has been accepted, and tells of the first one its
  // key, author and time, and of the last one its time and timestamp.
  lemma PinTellsOfFetches(pins: PinMap, fetches: seq<Fetch>, uri: string, i: nat, j: nat)
    requires uri !in pins && FirstOf(pins, fetches, i, uri) && LastOf(pins, fetches, j, uri)
    ensures uri in AfterFetches(pins, fetches)
    ensures AfterFetches(pins, fetches)[uri] ==
      Entry(Key(fetches[i].key), fetches[i].author, fetches[i].now, fetches[j].now, Some(fetches[j].timestamp))
  {
    hide AfterFetches;
    assert AfterFetches(pins, []) == pins by { NoFetches(pins); }
    assert fetches[..i][..0] == [] && i <= j;
    forall k: nat | k < i ensures !AcceptedOf(pins, fetches[..i], k, uri) {
      assert fetches[..i][..k] == fetches[..k] && !AcceptedOf(pins, fetches, k, uri);
    }
    OthersLeaveThePin(pins, fetches[..i], uri, 0);
    AcceptedFetchLeaves(pins, fetches, uri, i);
    AcceptedFetchLeaves(pins, fetches, uri, j);
    if i < j {
      assert fetches[..j][..i + 1] == fetches[..i + 1];
      FirstVisitStays(pins, fetches[..j], uri, i + 1);
    }
    assert fetches[..j + 1][..i + 1] == fetches[..i + 1];
    FirstVisitStays(pins, fetches[..j + 1], uri, i + 1);
    OthersLeaveThePin(pins, fetches, uri, j + 1);
  }

  lemma NoFetches(pins: PinMap)
    ensures AfterFetches(pins, []) == pins
  {
  }

  // And a name that had no pin has none until then.
  lemma NoPinWithoutFetch(pins: PinMap, fetches: seq<Fetch>, uri: string)
    requires uri !in pins && forall i: nat :: !AcceptedOf(pins, fetches, i, uri)
    ensures uri !in AfterFetches(pins, fetches)
  {
    assert fetches[..0] == [];
    OthersLeaveThePin(pins, fetches, uri, 0);
  }
}
