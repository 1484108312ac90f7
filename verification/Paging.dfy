/**
 Listing names page by page while the server goes on accepting records (naming.py:612-622,
 naming.py:661-680). Within one server run names are never dropped and keep their place.
 */
module Paging {
  import opened Json
  import opened Messages
  import opened Ordering
  import opened Printer
  import opened Stores
  import opened Wrappers

  const DEFAULT_PAGE_SIZE := 500
  const MAX_PAGE_SIZE := 1000
  const MAX_PAGES := 1000

  // A request's field as `int()` sees it: absent, a number, or something it raises on.
  datatype Arg = Absent | Given(i: int) | Unusable

  function Min(a: int, b: int): int { if a < b then a else b }

  function NumberOr(a: Arg, default: int): int { if a.Given? then a.i else default }

  // One bad field resets both.
  function Bounds(offset: Arg, limit: Arg): (r: (nat, nat))
    ensures 1 <= r.1 <= MAX_PAGE_SIZE
  {
    var bad := offset.Unusable? || limit.Unusable?;
    var o := if bad then 0 else Max(0, NumberOr(offset, 0));
    var l := if bad then DEFAULT_PAGE_SIZE else NumberOr(limit, DEFAULT_PAGE_SIZE);
    (o, Min(Max(1, l), MAX_PAGE_SIZE))
  }

  // `items[offset : offset + limit]` and where to go on, if anything is left.
  function Paginate<T>(items: seq<T>, offset: Arg, limit: Arg): (seq<T>, Option<nat>)
  {
    var (o, l) := Bounds(offset, limit);
    var page := if o > |items| then [] else items[o..Min(o + l, |items|)];
    (page, if o + l < |items| then Some(o + l) else None)
  }

  // Whatever is asked for, a page is a run of the list from its offset, at most 1000 long, and there is a
  // next offset exactly when something comes after the page.
  lemma PageIsARun<T>(items: seq<T>, offset: Arg, limit: Arg)
    ensures var (page, next) := Paginate(items, offset, limit); var (o, l) := Bounds(offset, limit);
      && |page| <= MAX_PAGE_SIZE
      && (o <= |items| ==> page <= items[o..])
      && (next.Some? <==> o + |page| < |items| && page != [])
      && (next.Some? ==> next.value == o + |page|)
  {
  }

  // What page a client gets: from the offset it asks for, or the start if that is negative or missing; as many records
  // as it asks for, at least one and at most a thousand, or five hundred; and both as if nothing had been asked if
  // either is no number.
  lemma PageAskedFor<T>(items: seq<T>, offset: int, limit: int)
    ensures Bounds(Given(offset), Given(limit)).0 == (if offset < 0 then 0 else offset)
    ensures Bounds(Given(offset), Given(limit)).1 == (if limit < 1 then 1 else if 1000 < limit then 1000 else limit)
    ensures Bounds(Absent, Given(limit)).0 == 0 && Bounds(Given(offset), Absent).1 == 500
    ensures Bounds(Given(offset), Absent).0 == Bounds(Given(offset), Given(limit)).0
    ensures Bounds(Absent, Given(limit)).1 == Bounds(Given(offset), Given(limit)).1
    ensures Bounds(Absent, Absent) == (0, 500)
    ensures forall other :: Bounds(Unusable, other) == (0, 500) == Bounds(other, Unusable)
    ensures 0 <= offset <= |items| && 1 <= limit <= 1000 && offset + limit <= |items| ==>
      Paginate(items, Given(offset), Given(limit)).0 == items[offset..offset + limit]
    ensures 0 <= offset <= |items| && 1 <= limit <= 1000 && offset + limit > |items| ==>
      Paginate(items, Given(offset), Given(limit)) == (items[offset..], None)
  {
    if 0 <= offset <= |items| { assert items[offset..|items|] == items[offset..]; }
  }

  function Records(d: Names): seq<NameRecord>
    requires d.Valid()
  {
    seq(|d.keys|, i requires 0 <= i < |d.keys| => d.vals[d.keys[i]].record)
  }

  ghost predicate NamesItself(d: Names)
  {
    d.Valid() && forall u | u in d.vals :: d.vals[u].record.uri == u
  }

  // Records the server accepts or refuses between two page requests.
  method Register(store: NameStore, offered: seq<Signed<NameRecord>>)
    requires NamesItself(store.records)
    modifies store
    ensures NamesItself(store.records) && NamesGrow(old(store.records), store.records)
  {
    for i := 0 to |offered|
      invariant NamesItself(store.records) && NamesGrow(old(store.records), store.records)
    {
      ghost var before := store.records;
      SetNameGrows(before, offered[i].record.uri, offered[i]);
      var _ := store.Set(offered[i].record.uri, offered[i]);
      NamesGrowTransitive(old(store.records), before, store.records);
    }
  }

  // The records collected so far are those of the first names of `now`, each no older than it was in
  // `start` and no newer than it is in `now`.
  ghost predicate Collected(records: seq<NameRecord>, start: Names, now: Names)
  {
    && |records| <= |now.keys|
    && forall i | 0 <= i < |records| ::
        && records[i].uri == now.keys[i]
        && (now.Has(records[i].uri) ==> records[i].timestamp <= now.vals[records[i].uri].record.timestamp)
        && (start.Has(records[i].uri) ==> start.vals[records[i].uri].record.timestamp <= records[i].timestamp)
  }

  lemma CollectedStays(records: seq<NameRecord>, start: Names, a: Names, b: Names)
    requires Collected(records, start, a) && NamesGrow(a, b) && a.Valid()
    ensures Collected(records, start, b)
  {
    forall i | 0 <= i < |records|
      ensures records[i].uri == b.keys[i]
      ensures b.Has(records[i].uri) ==> records[i].timestamp <= b.vals[records[i].uri].record.timestamp
    {
      assert a.keys[i] == b.keys[i];
    }
  }

  lemma CollectPage(records: seq<NameRecord>, page: seq<NameRecord>, start: Names, now: Names)
    requires Collected(records, start, now) && NamesItself(now) && NamesGrow(start, now)
    requires page <= Records(now)[|records|..]
    ensures Collected(records + page, start, now)
  {
    var more := records + page;
    forall i | |records| <= i < |more| ensures more[i] == now.vals[now.keys[i]].record {
      assert more[i] == page[i - |records|] == Records(now)[|records|..][i - |records|] == Records(now)[i];
    }
  }

  lemma NothingCollected(now: Names)
    ensures Collected([], now, now) && NamesGrow(now, now) && WentOn([])
  {
  }

  // What the loop sees of a page: full, unless nothing is left after it.
  lemma PageFrom<T>(items: seq<T>, offset: nat)
    requires offset == 0 || offset < |items|
    ensures var (page, next) := Paginate(items, Given(offset), Absent);
      && page <= items[offset..]
      && (next.Some? <==> offset + DEFAULT_PAGE_SIZE < |items|)
      && (next.None? ==> offset + |page| == |items|)
      && (next.Some? ==> next.value == offset + |page| < |items| && |page| == DEFAULT_PAGE_SIZE)
  {
  }

  // ---- A page has to fit in a message

  // The response to `list` (naming.py:458-460).
  function NamesAnswer(page: seq<NameRecord>, next: Value): Value
  {
    Object(map["type" := Str("names"), "records" := Array(Values(page)), "next_offset" := next])
  }

  function Values(page: seq<NameRecord>): seq<Value>
  {
    seq(|page|, i requires 0 <= i < |page| => RecordValue(page[i]))
  }

  // The page a client is at when it has `offset` records, and where it is told to go on.
  function PageAt(d: Names, offset: nat): seq<NameRecord>
    requires d.Valid()
  {
    Paginate(Records(d), Given(offset), Absent).0
  }

  function NextAt(d: Names, offset: nat): Value
    requires d.Valid() && offset <= MAX_PAGES * DEFAULT_PAGE_SIZE
  {
    if offset + DEFAULT_PAGE_SIZE < |d.keys| then Integer(offset + DEFAULT_PAGE_SIZE) else Null
  }

  // A response whose text is over the limit raises in `send_framed_json`, and an error is sent instead
  // (naming.py:408-411).
  ghost predicate Fits(d: Names, offset: nat)
    requires d.Valid() && offset <= MAX_PAGES * DEFAULT_PAGE_SIZE
  {
    |Canonical(NamesAnswer(PageAt(d, offset), NextAt(d, offset)))| <= MAX_MSG_SIZE
  }

  datatype Reply = Page(records: seq<NameRecord>, next: Option<nat>) | Failed

  method Ask(store: NameStore, offset: nat) returns (r: Reply)
    requires store.records.Valid() && offset <= MAX_PAGES * DEFAULT_PAGE_SIZE
    requires offset == 0 || offset < |store.records.keys|
    ensures r.Failed? <==> !Fits(store.records, offset)
    ensures r.Page? ==>
      && r.records == PageAt(store.records, offset)
      && r.next == if offset + DEFAULT_PAGE_SIZE < |store.records.keys| then Some(offset + DEFAULT_PAGE_SIZE) else None
  {
    hide Canonical;
    var (page, next) := Paginate(Records(store.records), Given(offset), Absent);
    if |Canonical(NamesAnswer(page, NextAt(store.records, offset)))| > MAX_MSG_SIZE {
      return Failed;
    }
    r := Page(page, next);
  }

  // The records of all pages; those of the first thousand pages; or a page was refused, and nothing is returned.
  datatype Listing = Complete(records: seq<NameRecord>) | Cut(records: seq<NameRecord>) | Refused

  // Page p could be sent, and there were names after it.
  ghost predicate Continues(d: Names, p: nat)
  {
    d.Valid() && p < MAX_PAGES && Fits(d, p * DEFAULT_PAGE_SIZE) && |d.keys| > (p + 1) * DEFAULT_PAGE_SIZE
  }

  ghost predicate WentOn(seen: seq<Names>)
  {
    forall p | 0 <= p < |seen| :: Continues(seen[p], p)
  }

  // The client's loop against a store that keeps changing: `offered[p]` is what the server is sent before it
  // answers page request p, and `seen[p]` what it then holds. Which page ends the listing, and how, follows
  // from the sizes of the pages alone.
  method ListAll(store: NameStore, offered: seq<seq<Signed<NameRecord>>>) returns (r: Listing, ghost seen: seq<Names>)
    requires NamesItself(store.records) && |offered| == MAX_PAGES
    modifies store
    ensures NamesItself(store.records) && NamesGrow(old(store.records), store.records)
    ensures 0 < |seen| <= MAX_PAGES && seen[|seen| - 1] == store.records
    ensures WentOn(if r.Cut? then seen else seen[..|seen| - 1])
    ensures match r
      case Complete(records) =>
        && Fits(store.records, (|seen| - 1) * DEFAULT_PAGE_SIZE)
        && |records| == |store.records.keys| <= |seen| * DEFAULT_PAGE_SIZE
        && Collected(records, old(store.records), store.records)
      case Cut(records) =>
        && |records| == |seen| * DEFAULT_PAGE_SIZE && |seen| == MAX_PAGES
        && Collected(records, old(store.records), store.records)
      case Refused => !Fits(store.records, (|seen| - 1) * DEFAULT_PAGE_SIZE)
  {
    hide Collected;
    hide NamesGrow;
    hide PageAt;
    hide Fits;
    hide WentOn;
    hide Continues;
    hide NamesItself;
    var records: seq<NameRecord> := [];
    NothingCollected(store.records);
    ItselfIsValid(store.records);
    var offset: nat := 0;
    seen := [];
    for p := 0 to MAX_PAGES
      invariant NamesItself(store.records) && NamesGrow(old(store.records), store.records)
      invariant offset == |records| == p * DEFAULT_PAGE_SIZE && |seen| == p && WentOn(seen)
      invariant p > 0 ==> offset < |store.records.keys| && seen[p - 1] == store.records
      invariant Collected(records, old(store.records), store.records)
    {
      ghost var before := store.records;
      Register(store, offered[p]);
      ItselfIsValid(store.records);
      StillCollected(records, old(store.records), before, store.records);
      var reply := Ask(store, offset);
      ghost var went := seen;
      seen := seen + [store.records];
      assert seen[..p] == went;
      if reply.Failed? {
        return Refused, seen;
      }
      MoreCollected(records, old(store.records), store.records);
      records := records + reply.records;
      if reply.next.None? {
        return Complete(records), seen;
      }
      GoesOn(went, store.records);
      offset := reply.next.value;
    }
    r := Cut(records);
  }

  lemma ItselfIsValid(d: Names)
    requires NamesItself(d)
    ensures d.Valid()
  {
  }

  lemma GoesOn(seen: seq<Names>, d: Names)
    requires WentOn(seen) && |seen| < MAX_PAGES && d.Valid()
    requires Fits(d, |seen| * DEFAULT_PAGE_SIZE) && |d.keys| > (|seen| + 1) * DEFAULT_PAGE_SIZE
    ensures WentOn(seen + [d])
  {
    hide Fits;
  }

  lemma StillCollected(records: seq<NameRecord>, start: Names, a: Names, b: Names)
    requires Collected(records, start, a) && NamesItself(a) && NamesItself(b) && NamesGrow(start, a) && NamesGrow(a, b)
    ensures Collected(records, start, b) && NamesGrow(start, b) && |a.keys| <= |b.keys| && b.Valid()
  {
    CollectedStays(records, start, a, b);
    NamesGrowTransitive(start, a, b);
  }

  lemma MoreCollected(records: seq<NameRecord>, start: Names, now: Names)
    requires Collected(records, start, now) && NamesItself(now) && NamesGrow(start, now)
    requires records == [] || |records| < |now.keys|
    ensures var page := PageAt(now, |records|);
      && Collected(records + page, start, now)
      && (if |records| + DEFAULT_PAGE_SIZE < |now.keys| then |page| == DEFAULT_PAGE_SIZE
          else |records| + |page| == |now.keys|)
  {
    hide Collected;
    hide NamesGrow;
    hide Paginate;
    PageFrom(Records(now), |records|);
    CollectPage(records, PageAt(now, |records|), start, now);
  }

  // What a caller of a completed listing has: every name there was at the start, no name twice, and each
  // record at least as new as at the start.
  lemma CompleteListing(records: seq<NameRecord>, start: Names, now: Names)
    requires NamesItself(now) && NamesGrow(start, now) && Collected(records, start, now) && |records| == |now.keys|
    ensures forall i, j | 0 <= i < j < |records| :: records[i].uri != records[j].uri
    ensures forall u | start.Has(u) ::
      exists i :: 0 <= i < |records| && records[i].uri == u && records[i].timestamp >= start.vals[u].record.timestamp
  {
    forall i, j | 0 <= i < j < |records| ensures records[i].uri != records[j].uri {
      assert now.keys[i] != now.keys[j];
    }
    forall u | start.Has(u)
      ensures exists i ::
        0 <= i < |records| && records[i].uri == u && records[i].timestamp >= start.vals[u].record.timestamp
    {
      assert u in now.vals && u in now.keys;
      var i :| 0 <= i < |now.keys| && now.keys[i] == u;
      assert records[i].uri == u;
    }
  }
}
