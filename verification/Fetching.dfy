/**
 A whole fetch of `md://uri` (rust/mdp2p-node/src/fetch.rs:57-184): the naming answer, the pin, the seeders, the
 store and the pin again, with what the composition guarantees. Neither the naming server nor any seeder
 is trusted: what they answer is arbitrary.
 */
module Fetching {
  import opened Bundle
  import opened Disk
  import opened Json
  import opened Paths
  import opened Pins
  import opened Printer
  import opened Records
  import opened Seeders
  import opened Seeding
  import opened Storage
  import opened Terms
  import opened Text
  import opened Wire
  import opened Wrappers

  datatype Problem =
    | BadName
    | NoAnswer
    | ServerError
    | BadRecord(why: ResolveError)
    | KeyChanged
    | OlderRecord
    | LookupFailed
    | NoSeeder
    | NoValidBundle
    | NotStored(cause: StoreError)

  datatype Visit = Visit(seeder: nat, fileCount: nat, firstVisit: bool)

  function AuthorOf(answer: Value): string
  {
    var record := Get(answer, "record");
    StringOr(if record.Some? then GetStr(record.value, "author") else None, "unknown")
  }

  // What a client with these pins makes of an answer of the naming server.
  function Judged(c: Crypto, pins: PinMap, uri: string, answer: Option<Value>): Result<ResolvedName, Problem>
  {
    if !ValidUri(uri) then Failure(BadName)
    else if answer.None? then Failure(NoAnswer)
    else if GetStr(answer.value, "type") == Some("error") then Failure(ServerError)
    else
      var resolved := CheckResolvedRecord(c, uri, answer.value);
      if resolved.Failure? then Failure(BadRecord(resolved.error))
      else
        match Status(pins, uri, resolved.value.publicKey, resolved.value.timestamp)
        case Mismatch => Failure(KeyChanged)
        case Rollback => Failure(OlderRecord)
        case _ => Success(resolved.value)
  }

  function Wanted(uri: string, r: ResolvedName): Expectation { Expectation(uri, r.publicKey, r.manifestRef, 0) }

  // The fetch as the pins see it.
  function AsFetch(uri: string, answer: Value, r: ResolvedName, delivered: bool, now: int): Fetch
  {
    Fetch(uri, r.publicKey, AuthorOf(answer), r.timestamp, delivered, now)
  }

  ghost predicate NoneGood(c: Crypto, s: Swarm, e: Expectation)
  {
    forall i: nat | i < s.size :: !Good(c, s, e, i)
  }

  // What the winning response becomes on disk.
  ghost function TreeOf(codec: FileCodec, w: Winner): Tree
    requires Shape(w.bundle)
  {
    SiteTree(codec, Manifest(w.bundle), Signature(w.bundle), w.files)
  }

  // `answer` is the naming server's (None if the request failed), `found` the providers other than this
  // node (None if the lookup failed) and what becomes of each, `now` the clock when the visit is recorded.
  method FetchSite(
    c: Crypto, uri: string, answer: Option<Value>, found: Option<Swarm>, store: SiteStore, pins: PinStore, now: int)
    returns (r: Result<Visit, Problem>, ghost won: Option<Winner>)
    modifies store, store.disk, pins
    // A record or a pin that is not in order, and nothing else, stops the fetch with that problem.
    ensures Judged(c, old(pins.pins), uri, answer).Failure? ==>
      r == Failure(Judged(c, old(pins.pins), uri, answer).error)
    ensures Judged(c, old(pins.pins), uri, answer).Success? ==>
      var resolved := Judged(c, old(pins.pins), uri, answer).value;
      && (r == Failure(LookupFailed) <==> found.None?)
      && (r == Failure(NoSeeder) <==> found.Some? && found.value.size == 0)
      && (r == Failure(NoValidBundle) <==>
          found.Some? && found.value.size > 0 && NoneGood(c, found.value, Wanted(uri, resolved)))
      && (r.Failure? ==> r.error in {LookupFailed, NoSeeder, NoValidBundle} || r.error.NotStored?)
      && (won.Some? <==> r.Success? || r.error.NotStored?)
      && (won.Some? ==> found.Some? && won.value.provider < found.value.size &&
                         Wins(c, found.value, Wanted(uri, resolved), won.value))
      && (r.Success? ==> r.value == Visit(won.value.provider, |won.value.files|,
            Status(old(pins.pins), uri, resolved.publicKey, resolved.timestamp) == Unknown))
      && pins.pins == AfterFetches(old(pins.pins), [AsFetch(uri, answer.value, resolved, r.Success?, now)])
    // Nothing is stored before a bundle has been accepted, nothing is pinned before it has been stored.
    ensures r.Failure? ==> pins.pins == old(pins.pins) && store.sites == old(store.sites)
    ensures r.Failure? && !r.error.NotStored? ==>
      store.disk.dirs == old(store.disk.dirs) && store.disk.trace == old(store.disk.trace)
    ensures r.Success? ==> store.sites == old(store.sites)[uri := uri]
    // What has been won is stored exactly when a directory can hold it, unless the disk fails.
    ensures store.disk.faults >= old(store.disk.faults)
    ensures won.None? ==> store.disk.faults == old(store.disk.faults)
    ensures r.Success? ==> Storable(won.value.files)
    ensures won.Some? && store.disk.faults == old(store.disk.faults) ==> (r.Success? <==> Storable(won.value.files))
    ensures won.Some? ==> Shape(won.value.bundle)
    ensures won.Some? ==>
      var w := store.SwapOf(old(store.disk.dirs), uri, TreeOf(store.codec, won.value));
      && (r.Success? ==> Replaced(store.disk.dirs, w))
      && (r == Failure(NotStored(RestoreFailed)) ==> Parked(store.disk.dirs, w))
      && (r.Failure? && r != Failure(NotStored(RestoreFailed)) ==> Untouched(store.disk.dirs, w))
      && AllSafe(store.disk.trace, |old(store.disk.trace)|, w)
  {
    hide CheckResolvedRecord;
    hide Check;
    hide Good;
    hide Wins;
    hide SiteTree;
    hide Untouched;
    hide Replaced;
    hide Parked;
    hide AllSafe;
    hide ValidUri;
    hide Visited;
    hide Storable;
    won := None;
    var judged := Judged(c, pins.pins, uri, answer);
    if !ValidUri(uri) {
      return Failure(BadName), won;
    }
    if answer.None? {
      return Failure(NoAnswer), won;
    }
    if GetStr(answer.value, "type") == Some("error") {
      return Failure(ServerError), won;
    }
    var resolved := CheckResolvedRecord(c, uri, answer.value);
    if resolved.Failure? {
      return Failure(BadRecord(resolved.error)), won;
    }
    var name := resolved.value;
    var status := pins.Check(uri, name.publicKey, name.timestamp);
    if status == Mismatch {
      return Failure(KeyChanged), won;
    }
    if status == Rollback {
      return Failure(OlderRecord), won;
    }
    OneFetch(pins.pins, AsFetch(uri, answer.value, name, false, now));
    if found.None? {
      return Failure(LookupFailed), won;
    }
    if found.value.size == 0 {
      return Failure(NoSeeder), won;
    }
    var winner, _, _ := TrySeeders(c, found.value, Wanted(uri, name));
    if winner.None? {
      return Failure(NoValidBundle), won;
    }
    won := winner;
    WinnerIsGood(c, found.value, Wanted(uri, name), winner.value);
    var bundle, files := winner.value.bundle, winner.value.files;
    var stored := store.WriteSite(uri, Manifest(bundle), Signature(bundle), files);
    if stored.Failure? {
      return Failure(NotStored(stored.error)), won;
    }
    OneFetch(pins.pins, AsFetch(uri, answer.value, name, true, now));
    pins.RecordVisit(uri, name.publicKey, AuthorOf(answer.value), name.timestamp, now);
    r := Success(Visit(winner.value.provider, |files|, status == Unknown));
  }

  lemma OneFetch(pins: PinMap, f: Fetch)
    ensures AfterFetches(pins, [f]) ==
      if Accepted(pins, f) then Visited(pins, f.uri, f.key, f.author, f.timestamp, f.now) else pins
  {
    assert [f][..0] == [];
    assert AfterFetches(pins, []) == pins;
  }

  lemma WinnerIsGood(c: Crypto, s: Swarm, e: Expectation, w: Winner)
    requires Wins(c, s, e, w)
    ensures Shape(w.bundle) && Good(c, s, e, w.provider)
  {
    hide VerifyManifest;
    hide ManifestRef;
    hide IsManifestExpired;
    hide ContentCheck;
  }

  // ---- What the composition guarantees

  // Once a name is pinned, its owner's key signs everything a fetch takes over, whoever answers: the record,
  // the manifest the record commits to, and through it the files; and the record is no older than the mark.
  lemma PinnedKeyRules(c: Crypto, pins: PinMap, uri: string, answer: Value, r: ResolvedName, b: Value, now: int)
    requires uri in pins && pins[uri].publicKey.Key?
    requires Judged(c, pins, uri, Some(answer)) == Success(r)
    requires Check(c, b, Wanted(uri, r).(now := now)).Success?
    ensures var owner := pins[uri].publicKey.key;
      && Vouches(c, Get(answer, "record").value, GetStr(answer, "signature").value, uri, r)
      && r.publicKey == owner
      && c.verify(owner, Signature(b), Canonical(Manifest(b)))
      && GetStr(Get(answer, "record").value, "manifest_ref") == Some(c.sha256(Canonical(Manifest(b))))
      && GetStr(Manifest(b), "uri") == Some(uri)
      && HashesOk(c, Manifest(b), FileMap(b))
      && (pins[uri].mark.Some? ==> pins[uri].mark.value <= r.timestamp)
  {
    hide CheckResolvedRecord;
    hide Check;
    hide Vouches;
    hide FilesOk;
    hide HashesOk;
    hide Canonical;
    hide FloatFree;
    hide IsManifestExpired;
    ResolvedIffVouched(c, uri, answer, r);
    AcceptedIffAcceptable(c, b, Wanted(uri, r).(now := now));
    VouchedRef(c, Get(answer, "record").value, GetStr(answer, "signature").value, uri, r);
  }

  lemma VouchedRef(c: Crypto, record: Value, signature: string, uri: string, r: ResolvedName)
    requires Vouches(c, record, signature, uri, r)
    ensures GetStr(record, "manifest_ref") == Some(r.manifestRef)
  {
  }

  function BundleRequest(uri: string): Value
  {
    Object(map["type" := Str("get_bundle"), "uri" := Str(uri)])
  }

  // ---- From one node to another

  const MAX_BUNDLE_RESPONSE_SIZE := 100 * 1024 * 1024

  // How the answering node prints a message, and how the asking one reads it.
  datatype WireFormat = WireFormat(encode: Value -> bytes, decode: bytes -> Option<Value>)

  // What comes of an answer at the node that asked: a text over the limit is never sent
  // (rust/mdp2p-node/src/codec.rs:71-82, 113-124), and both ends have the same limit.
  function Delivered(f: WireFormat, answer: Value): Outcome
  {
    if |f.encode(answer)| > MAX_BUNDLE_RESPONSE_SIZE then Failed
    else
      var payload := Receive(Frame(f.encode(answer)), MAX_BUNDLE_RESPONSE_SIZE).0;
      if payload.None? || f.decode(payload.value).None? then Failed else Response(f.decode(payload.value).value)
  }

  lemma DeliveredWhole(f: WireFormat, answer: Value)
    requires f.decode(f.encode(answer)) == Some(answer)
    ensures Delivered(f, answer) == if |f.encode(answer)| <= 104_857_600 then Response(answer) else Failed
  {
    hide Receive;
    hide Frame;
    if |f.encode(answer)| <= MAX_BUNDLE_RESPONSE_SIZE {
      FramingRoundTrip(f.encode(answer), [], MAX_BUNDLE_RESPONSE_SIZE);
      assert Frame(f.encode(answer)) + [] == Frame(f.encode(answer));
    }
  }

  // Every visitor seeds: a node that stored what it fetched is, as the i-th provider of anybody else's fetch,
  // a good one exactly as long as its text of the site fits in a message and the manifest has not expired.
  lemma EveryVisitorSeeds(
    c: Crypto, store: SiteStore, sites: map<string, string>, dirs: Dirs, w: Winner, e: Expectation, f: WireFormat,
    s: Swarm, i: nat)
    requires Check(c, w.bundle, e) == Success(w.files)
    requires e.uri in sites && sites[e.uri] == e.uri
    requires e.uri in dirs && dirs[e.uri] == TreeOf(store.codec, w)
    requires store.codec.parse(store.codec.pretty(Manifest(w.bundle))) == Some(Manifest(w.bundle))
    requires forall k, t, m | c.verify(k, t, m) :: c.verify(k, store.codec.trim(t), m)
    requires var answer := Answer(store.codec, sites, dirs, BundleRequest(e.uri));
      f.decode(f.encode(answer)) == Some(answer) && s.outcome(i) == Delivered(f, answer)
    ensures Good(c, s, e, i) <==>
      && !IsManifestExpired(Manifest(w.bundle), s.clock(i))
      && |f.encode(Answer(store.codec, sites, dirs, BundleRequest(e.uri)))| <= MAX_BUNDLE_RESPONSE_SIZE
  {
    hide Check;
    hide Serve;
    hide SiteTree;
    hide IsManifestExpired;
    hide Delivered;
    SeedingPreservesAcceptance(c, store.codec, w.bundle, e, s.clock(i));
    AnswersFromDisk(store.codec, sites, dirs, e.uri);
    DeliveredWhole(f, Answer(store.codec, sites, dirs, BundleRequest(e.uri)));
  }

  lemma AnswersFromDisk(codec: FileCodec, sites: map<string, string>, dirs: Dirs, uri: string)
    requires uri in sites && sites[uri] in dirs
    ensures var served := Serve(codec, dirs[sites[uri]]);
      served.Some? ==> Answer(codec, sites, dirs, BundleRequest(uri)) == served.value
  {
    hide Serve;
    assert "type"[0] == 't' && "uri"[0] == 'u';
    assert GetStr(BundleRequest(uri), "uri") == Some(uri) && GetStr(BundleRequest(uri), "type") == Some("get_bundle");
  }

  // ---- Why a fetch stops at the record

  // The pin, if there is one with a textual key, and what it says against this key and date.
  ghost predicate PinnedToAnother(pins: PinMap, uri: string, key: string)
  {
    uri in pins && pins[uri].publicKey.Key? && pins[uri].publicKey.key != key
  }

  ghost predicate SeenNewer(pins: PinMap, uri: string, key: string, timestamp: int)
  {
    && uri in pins && pins[uri].publicKey == Key(key)
    && pins[uri].mark.Some? && timestamp < pins[uri].mark.value
  }

  // Each problem with the record has its own cause, and a record without any of them is followed.
  lemma JudgedByCause(c: Crypto, pins: PinMap, uri: string, answer: Value, r: ResolvedName)
    requires ValidUri(uri)
    ensures Judged(c, pins, uri, None) == Failure(NoAnswer)
    ensures IsText(answer, "type", "error") ==> Judged(c, pins, uri, Some(answer)) == Failure(ServerError)
    ensures var resolved := CheckResolvedRecord(c, uri, answer);
      && (!IsText(answer, "type", "error") && resolved.Failure? ==>
          Judged(c, pins, uri, Some(answer)) == Failure(BadRecord(resolved.error)))
      && (resolved == Success(r) ==>
          && (Judged(c, pins, uri, Some(answer)) == Failure(KeyChanged) <==> PinnedToAnother(pins, uri, r.publicKey))
          && (Judged(c, pins, uri, Some(answer)) == Failure(OlderRecord) <==>
              SeenNewer(pins, uri, r.publicKey, r.timestamp))
          && (Judged(c, pins, uri, Some(answer)) == Success(r) <==>
              !PinnedToAnother(pins, uri, r.publicKey) && !SeenNewer(pins, uri, r.publicKey, r.timestamp)))
  {
    TypeIsNoError(c, uri, answer);
    hide CheckResolvedRecord;
    hide ValidUri;
  }

  lemma TypeIsNoError(c: Crypto, uri: string, answer: Value)
    ensures CheckResolvedRecord(c, uri, answer).Success? ==> GetStr(answer, "type") == Some("record")
    ensures "record" != "error"
  {
    assert "record"[0] == 'r' && "error"[0] == 'e';
    hide VerifyNameRecord;
  }
}
