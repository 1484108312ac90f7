/**
 How large a page of names is, and what that means for listing them. naming.py:24-25 promises that pages stay
 within a message however many records accumulate; it holds for short records, and as few as three long ones, each
 in a request the server reads, end it for everybody.
 */
module Listings {
  import opened Answers
  import opened Json
  import opened Messages
  import opened NamingHistory
  import opened NamingServer
  import opened Paging
  import opened Paths
  import opened Printer
  import opened Spelling
  import opened Stores
  import opened Text
  import opened Wire
  import opened Wrappers

  // ---- The size of a page

  // The page's records, a comma between two, and 42 bytes, the brackets and the offset around them.
  lemma PageLength(page: seq<NameRecord>, next: Value)
    ensures |Canonical(NamesAnswer(page, next))| ==
      42 + |Canonical(next)| + ItemsLength(Values(page)) + (if page == [] then 2 else |page| + 1)
  {
    var v := NamesAnswer(page, next);
    hide *;
    PageMembers(page, next);
    KeyLength("next_offset");
    KeyLength("records");
    KeyLength("type");
    KeyLength("names");
    ThreeMembers(v, "next_offset", "records", "type");
    ArrayLength(Values(page));
    PageSizes(v, page, next);
  }

  lemma PageMembers(page: seq<NameRecord>, next: Value)
    ensures var v := NamesAnswer(page, next);
      && v.Object? && v.members.Keys == {"next_offset", "records", "type"}
      && HeadsIncrease(["next_offset", "records", "type"])
      && v.members["type"] == Str("names")
      && v.members["records"] == Array(Values(page)) && v.members["next_offset"] == next
      && |Values(page)| == |page|
  {
    assert "type"[0] == 't' && "records"[0] == 'r' && "next_offset"[0] == 'n';
  }

  lemma PageSizes(v: Value, page: seq<NameRecord>, next: Value)
    requires v.Object? && v.members.Keys == {"next_offset", "records", "type"}
    requires v.members["type"] == Str("names")
    requires v.members["records"] == Array(Values(page)) && v.members["next_offset"] == next
    requires |Quoted("next_offset")| == 13 && |Quoted("records")| == 9 && |Quoted("type")| == 6
    requires |Canonical(Str("names"))| == 7
    ensures MemberSize(v, "next_offset") + MemberSize(v, "records") + MemberSize(v, "type") ==
      38 + |Canonical(next)| + |Canonical(Array(Values(page)))|
  {
    hide Canonical;
    hide Quoted;
  }

  // A page can be sent exactly when its records, with a comma between two, leave room for what is around them.
  lemma FitsExactly(d: Names, offset: nat)
    requires d.Valid() && offset <= MAX_PAGES * DEFAULT_PAGE_SIZE
    ensures var page := PageAt(d, offset);
      Fits(d, offset) <==>
        42 + |Canonical(NextAt(d, offset))| + ItemsLength(Values(page)) +
          (if page == [] then 2 else |page| + 1) <= MAX_MSG_SIZE
  {
    hide Canonical;
    hide NamesAnswer;
    PageLength(PageAt(d, offset), NextAt(d, offset));
  }

  // The offset an answer gives is where the page ends and the list goes on.
  lemma NextIsAfterThePage(d: Names, offset: nat)
    requires d.Valid() && offset <= MAX_PAGES * DEFAULT_PAGE_SIZE
    ensures NextAt(d, offset).Null? <==> offset + |PageAt(d, offset)| >= |d.keys|
    ensures !NextAt(d, offset).Null? ==> NextAt(d, offset) == Integer(offset + |PageAt(d, offset)|)
  {
    hide RecordValue;
  }

  // And then the client reads what the server sent.
  lemma PageArrives(d: Names, offset: nat)
    requires d.Valid() && offset <= MAX_PAGES * DEFAULT_PAGE_SIZE && Fits(d, offset)
    ensures var answer := NamesAnswer(PageAt(d, offset), NextAt(d, offset));
      |Canonical(answer)| < MAX_FRAME && ReceiveMessage(Frame(Canonical(answer)), MAX_MSG_SIZE) == (Some(answer), [])
  {
    var page, next := PageAt(d, offset), NextAt(d, offset);
    var answer := NamesAnswer(page, next);
    AnswerIsFloatFree(page, next);
    hide Canonical;
    hide ReceiveMessage;
    hide NamesAnswer;
    MessageRoundTrip(answer, [], MAX_MSG_SIZE);
    assert Frame(Canonical(answer)) + [] == Frame(Canonical(answer));
  }

  lemma AnswerIsFloatFree(page: seq<NameRecord>, next: Value)
    requires next.Integer? || next.Null?
    ensures FloatFree(NamesAnswer(page, next))
  {
    PageMembers(page, next);
    forall x | x in Values(page) ensures FloatFree(x) {
      var i :| 0 <= i < |page| && Values(page)[i] == x;
    }
    assert FloatFree(Array(Values(page)));
  }

  // Records of at most 2096 bytes each never fail a listing: every page fits.
  lemma ShortRecordsFit(d: Names, offset: nat)
    requires d.Valid() && offset <= MAX_PAGES * DEFAULT_PAGE_SIZE
    requires forall u | u in d.vals :: |Canonical(RecordValue(d.vals[u].record))| <= 2096
    ensures Fits(d, offset)
  {
    hide Canonical;
    hide RecordValue;
    hide NamesAnswer;
    var page, next := PageAt(d, offset), NextAt(d, offset);
    PageLength(page, next);
    if next.Integer? { NumberLength(next.i); } else { NullLength(); }
    PageOfStore(d, offset);
    hide PageAt;
    hide NextAt;
    hide Values;
    forall r | r in page ensures |Canonical(RecordValue(r))| <= 2096 {
      var i :| 0 <= i < |page| && page[i] == r;
      assert d.keys[offset + i] in d.vals;
    }
    ValuesOf(page, 2096);
    ItemsLengthAtMost(Values(page), 2096);
    assert 2096 * |page| <= 2096 * DEFAULT_PAGE_SIZE;
  }

  lemma PageOfStore(d: Names, offset: nat)
    requires d.Valid()
    ensures |PageAt(d, offset)| <= DEFAULT_PAGE_SIZE
    ensures forall i | 0 <= i < |PageAt(d, offset)| ::
      offset + i < |d.keys| && PageAt(d, offset)[i] == d.vals[d.keys[offset + i]].record
  {
    hide Paginate;
    var items, page := Paging.Records(d), PageAt(d, offset);
    PageOfItems(items, offset);
    forall i | 0 <= i < |page| ensures offset + i < |d.keys| && page[i] == d.vals[d.keys[offset + i]].record {
      assert page[i] == items[offset + i];
    }
  }

  lemma PageOfItems<T>(items: seq<T>, offset: nat)
    ensures var page := Paginate(items, Given(offset), Absent).0;
      && |page| <= DEFAULT_PAGE_SIZE
      && forall i | 0 <= i < |page| :: offset + i < |items| && page[i] == items[offset + i]
  {
  }

  lemma ValuesOf(page: seq<NameRecord>, each: nat)
    requires forall r | r in page :: |Canonical(RecordValue(r))| <= each
    ensures |Values(page)| == |page| && forall x | x in Values(page) :: |Canonical(x)| <= each
  {
    hide Canonical;
    hide RecordValue;
    forall x | x in Values(page) ensures |Canonical(x)| <= each {
      var i :| 0 <= i < |page| && Values(page)[i] == x;
      assert page[i] in page;
    }
  }

  // ---- Long records

  lemma LongRecordLength(r: NameRecord)
    ensures |Canonical(RecordValue(r))| >= |Escaped(r.author)| + 2
  {
    TextLength(r.author);
    hide Canonical;
    hide Escaped;
    RecordMembers(r);
    hide RecordValue;
    MemberLength(RecordValue(r), "author");
  }

  // Whoever registered them, the first page cannot be sent any more, and every listing fails at once.
  lemma LongAuthorsStopListing(d: Names, n: nat, each: nat)
    requires d.Valid() && n <= |d.keys| && n <= DEFAULT_PAGE_SIZE && each * n >= MAX_MSG_SIZE
    requires forall i | 0 <= i < n :: |Escaped(d.vals[d.keys[i]].record.author)| >= each
    ensures !Fits(d, 0)
  {
    hide Canonical;
    hide Escaped;
    hide RecordValue;
    hide NamesAnswer;
    var page, next := PageAt(d, 0), NextAt(d, 0);
    PageLength(page, next);
    assert |page| >= n;
    forall i | 0 <= i < n ensures |Canonical(Values(page)[i])| >= each {
      assert page[i] == Paging.Records(d)[i];
      LongRecordLength(page[i]);
    }
    ItemsLengthAtLeast(Values(page), n, each);
  }

  lemma RecordMembers(r: NameRecord)
    ensures var v := RecordValue(r);
      && v.Object? && v.members.Keys == {"author", "manifest_ref", "public_key", "timestamp", "uri"}
      && HeadsIncrease(["author", "manifest_ref", "public_key", "timestamp", "uri"])
      && v.members["author"] == Str(r.author) && v.members["manifest_ref"] == Str(r.manifestRef)
      && v.members["public_key"] == Str(r.publicKey) && v.members["timestamp"] == Integer(r.timestamp)
      && v.members["uri"] == Str(r.uri)
  {
    assert "uri"[0] == 'u' && "author"[0] == 'a';
    assert "public_key"[0] == 'p' && "manifest_ref"[0] == 'm' && "timestamp"[0] == 't';
  }

  lemma RecordSizes(v: Value, r: NameRecord)
    requires v.Object? && v.members.Keys == {"author", "manifest_ref", "public_key", "timestamp", "uri"}
    requires v.members["author"] == Str(r.author) && v.members["manifest_ref"] == Str(r.manifestRef)
    requires v.members["public_key"] == Str(r.publicKey) && v.members["timestamp"] == Integer(r.timestamp)
    requires v.members["uri"] == Str(r.uri)
    requires |Quoted("author")| == 8 && |Quoted("manifest_ref")| == 14 && |Quoted("public_key")| == 12
    requires |Quoted("timestamp")| == 11 && |Quoted("uri")| == 5
    ensures MemberSize(v, "author") + MemberSize(v, "manifest_ref") + MemberSize(v, "public_key") +
      MemberSize(v, "timestamp") + MemberSize(v, "uri") ==
      55 + |Canonical(Str(r.author))| + |Canonical(Str(r.manifestRef))| + |Canonical(Str(r.publicKey))| +
      |Canonical(Integer(r.timestamp))| + |Canonical(Str(r.uri))|
  {
    hide Canonical;
    hide Quoted;
  }

  lemma RecordLength(r: NameRecord)
    requires Plain(r.uri) && Plain(r.publicKey) && Plain(r.manifestRef)
    ensures |Canonical(RecordValue(r))| <=
      90 + |r.uri| + |Escaped(r.author)| + |r.publicKey| + |r.manifestRef|
  {
    hide *;
    RecordMembers(r);
    KeyLength("author");
    KeyLength("manifest_ref");
    KeyLength("public_key");
    KeyLength("timestamp");
    KeyLength("uri");
    HeadsMeanIncreasing(["author", "manifest_ref", "public_key", "timestamp", "uri"]);
    FiveMembers(RecordValue(r), "author", "manifest_ref", "public_key", "timestamp", "uri");
    RecordSizes(RecordValue(r), r);
    TextLength(r.uri);
    TextLength(r.author);
    TextLength(r.publicKey);
    TextLength(r.manifestRef);
    NumberLength(r.timestamp);
  }

  // ---- What a request can hold

  // Every registration came in a request that the server reads.
  ghost predicate RegistrationsCame(run: Run)
  {
    forall j | 0 <= j < |run| && run[j].req.Register? :: Came(RegisterRequest(run[j].req.name))
  }

  // A record that came in a request, in whatever form, fits in the answer to whoever asks for it.
  lemma ResolvedFits(s: Signed<NameRecord>)
    ensures Came(RegisterRequest(s)) ==> |Canonical(ResolveAnswer(s))| <= MAX_MSG_SIZE
  {
    hide Canonical;
    hide Submission;
    hide Came;
    if Came(RegisterRequest(s)) { OneFits("register", "record", RecordValue(s.record), s.signature); }
  }

  lemma NameCame(cfg: Config, lib: Library, run: Run, uri: string)
    requires RegistrationsCame(run) && After(cfg, lib, run).names.Has(uri)
    ensures |Canonical(RecordValue(After(cfg, lib, run).names.vals[uri].record))| <= 6 * MAX_REQUEST_SIZE
  {
    hide After;
    hide Canonical;
    hide Submission;
    hide Came;
    hide AcceptedAt;
    NamesWereRegistered(cfg, lib, run, uri);
    var s := After(cfg, lib, run).names.vals[uri];
    var i :| RegisteredAt(cfg, lib, run, i, s);
    CameAtMostSixfold(RegisterRequest(s));
    SubmissionLength("register", RecordValue(s.record), s.signature);
  }

  // Two names can always be listed.
  lemma TwoNamesAreListed(cfg: Config, lib: Library, run: Run)
    requires RegistrationsCame(run)
    ensures After(cfg, lib, run).names.Valid()
    ensures |After(cfg, lib, run).names.keys| <= 2 ==> Fits(After(cfg, lib, run).names, 0)
  {
    hide After;
    hide Canonical;
    hide NamesAnswer;
    hide RecordValue;
    hide RegistrationsCame;
    RunWellFormed(cfg, lib, run);
    var d := After(cfg, lib, run).names;
    if |d.keys| <= 2 {
      var page := PageAt(d, 0);
      PageOfStore(d, 0);
      assert |page| <= |d.keys|;
      forall r | r in page ensures |Canonical(RecordValue(r))| <= 6 * MAX_REQUEST_SIZE {
        var i :| 0 <= i < |page| && page[i] == r;
        assert d.keys[0 + i] in d.vals;
        NameCame(cfg, lib, run, d.keys[i]);
      }
      ValuesOf(page, 6 * MAX_REQUEST_SIZE);
      hide Values;
      hide PageAt;
      ItemsLengthAtMost(Values(page), 6 * MAX_REQUEST_SIZE);
      NullLength();
      FitsExactly(d, 0);
    }
  }

  // ---- A run that ends all listings

  // Somebody with one key registers the names "a", "b", ..., all at one moment and with one long author.
  datatype Grab =
    Grab(count: nat, author: string, key: string, ref: string, now: JsonInt, sign: NameRecord -> string)

  function LongRegistration(g: Grab, i: nat): Signed<NameRecord>
    requires i < 26
  {
    var r := NameRecord([(97 + i) as char], g.author, g.key, g.ref, g.now);
    Signed(r, g.sign(r))
  }

  // The first n registrations.
  function LongRun(g: Grab, n: nat): Run
    requires n <= 26
  {
    seq(n, i requires 0 <= i < n => Event(Register(LongRegistration(g, i)), g.now))
  }

  ghost predicate Signs(lib: Library, g: Grab)
  {
    forall i | 0 <= i < 26 ::
      var s := LongRegistration(g, i);
      s.signature != "" && lib.verified(g.key, s.signature, Name(s.record))
  }

  ghost predicate HoldsLong(d: Names, g: Grab, n: nat)
    requires n <= 26
  {
    && d.Valid() && |d.keys| == n
    && forall i | 0 <= i < n :: d.keys[i] == [(97 + i) as char] && d.vals[d.keys[i]] == LongRegistration(g, i)
  }

  lemma LongAccepted(lib: Library, st: State, g: Grab, i: nat)
    requires i < 26 && Signs(lib, g) && HoldsLong(st.names, g, i)
    ensures RegisterRefusal(lib, st, LongRegistration(g, i), g.now).None?
    ensures [(97 + i) as char] !in st.names.vals
  {
    var uri := [(97 + i) as char];
    assert !HasDoubleDot(uri) && PyValidUri(uri);
    forall j | 0 <= j < i ensures st.names.keys[j] != uri {
      assert st.names.keys[j][0] != uri[0];
    }
  }

  lemma {:induction false} LongRunHolds(cfg: Config, lib: Library, g: Grab, n: nat)
    requires n <= 26 && Signs(lib, g)
    ensures HoldsLong(After(cfg, lib, LongRun(g, n)).names, g, n)
  {
    hide RegisterRefusal;
    hide Signs;
    if n > 0 {
      var run := LongRun(g, n);
      assert run[..n - 1] == LongRun(g, n - 1);
      LongRunHolds(cfg, lib, g, n - 1);
      var st := After(cfg, lib, run[..n - 1]);
      LongAccepted(lib, st, g, n - 1);
      LongStep(st.names, g, n - 1);
    }
  }

  lemma LongStep(d: Names, g: Grab, i: nat)
    requires i < 26 && HoldsLong(d, g, i) && [(97 + i) as char] !in d.vals
    ensures var s := LongRegistration(g, i);
      s.record.uri == [(97 + i) as char] && HoldsLong(SetName(d, s.record.uri, s), g, i + 1)
  {
  }

  // Whatever the run goes on with, these names stay as they are until their owner replaces them.
  ghost predicate NothingSignedWith(key: string, more: Run)
  {
    forall j | 0 <= j < |more| && more[j].req.Register? :: more[j].req.name.record.publicKey != key
  }

  ghost predicate StillLong(d: Names, g: Grab)
  {
    && d.Valid() && |d.keys| >= g.count && g.count <= 26
    && forall i | 0 <= i < g.count :: d.keys[i] == [(97 + i) as char] && d.vals[d.keys[i]] == LongRegistration(g, i)
  }

  lemma StaysLong(d: Names, uri: string, s: Signed<NameRecord>, g: Grab)
    requires StillLong(d, g) && s.record.publicKey != g.key
    ensures StillLong(SetName(d, uri, s), g)
  {
  }

  lemma {:induction false} LongForEver(cfg: Config, lib: Library, run: Run, more: Run, g: Grab)
    requires StillLong(After(cfg, lib, run).names, g) && NothingSignedWith(g.key, more)
    ensures StillLong(After(cfg, lib, run + more).names, g)
    decreases |more|
  {
    hide StillLong;
    hide NamingServer.Refused;
    if more == [] {
      assert run + more == run;
    } else {
      var n := |more| - 1;
      assert (run + more)[..|run + more| - 1] == run + more[..n];
      LongForEver(cfg, lib, run, more[..n], g);
      if more[n].req.Register? {
        var s := more[n].req.name;
        StaysLong(After(cfg, lib, run + more[..n]).names, s.record.uri, s, g);
      }
    }
  }

  // Key, reference and signatures are printed as they are and are together of a usual length.
  ghost predicate UsualGrab(g: Grab)
  {
    Plain(g.key) && Plain(g.ref) && forall r :: Plain(g.sign(r)) && |g.key| + |g.ref| + |g.sign(r)| <= 1000
  }

  // The author is within a request as it is, and so many times too long for an answer once escaped.
  ghost predicate LongEnough(g: Grab)
  {
    Literal(g.author) && |Utf8(g.author)| + 1200 <= MAX_REQUEST_SIZE && |Escaped(g.author)| * g.count >= MAX_MSG_SIZE
  }

  // The documented claim is false: a few registrations, each accepted and each in a request that the server reads,
  // and from then on, whatever anybody else sends, the first page cannot be sent and every listing of names fails.
  lemma FewNamesEndListing(cfg: Config, lib: Library, g: Grab, more: Run)
    requires g.count <= 26 && Signs(lib, g) && UsualGrab(g) && LongEnough(g) && NothingSignedWith(g.key, more)
    ensures var run := LongRun(g, g.count);
      && (forall i | 0 <= i < g.count :: AcceptedAt(cfg, lib, run, i)) && RegistrationsCame(run)
      && After(cfg, lib, run + more).names.Valid()
      && !Fits(After(cfg, lib, run + more).names, 0)
  {
    var run := LongRun(g, g.count);
    hide *;
    forall i | 0 <= i < g.count ensures AcceptedAt(cfg, lib, run, i) {
      LongPrefix(g, i);
      LongRunHolds(cfg, lib, g, i);
      LongEventAccepted(cfg, lib, run, g, i);
    }
    LongRunCame(g);
    LongRunHolds(cfg, lib, g, g.count);
    HoldsForNow(After(cfg, lib, run).names, g);
    LongForEver(cfg, lib, run, more, g);
    LongNamesStop(After(cfg, lib, run + more).names, g);
  }

  lemma LongPrefix(g: Grab, i: nat)
    requires i <= g.count <= 26
    ensures i <= |LongRun(g, g.count)| && LongRun(g, g.count)[..i] == LongRun(g, i)
  {
    hide LongRegistration;
  }

  lemma HoldsForNow(d: Names, g: Grab)
    requires g.count <= 26 && HoldsLong(d, g, g.count)
    ensures StillLong(d, g)
  {
    hide LongRegistration;
  }

  lemma LongEventAccepted(cfg: Config, lib: Library, run: Run, g: Grab, i: nat)
    requires i < g.count <= 26 && run == LongRun(g, g.count) && Signs(lib, g)
    requires HoldsLong(After(cfg, lib, run[..i]).names, g, i)
    ensures AcceptedAt(cfg, lib, run, i)
  {
    hide After;
    hide RegisterRefusal;
    LongAccepted(lib, After(cfg, lib, run[..i]), g, i);
  }

  lemma LongRunCame(g: Grab)
    requires g.count <= 26 && UsualGrab(g) && LongEnough(g)
    ensures RegistrationsCame(LongRun(g, g.count))
  {
    var run := LongRun(g, g.count);
    forall j | 0 <= j < |run| && run[j].req.Register? ensures Came(RegisterRequest(run[j].req.name)) {
      assert run[j].req.name == LongRegistration(g, j);
      hide *;
      LongComes(g, j);
    }
  }

  const RECORD_KEYS := ["author", "manifest_ref", "public_key", "timestamp", "uri"]

  lemma RecordKeys(r: NameRecord)
    ensures var v := RecordValue(r);
      && v.Object? && FloatFree(v) && Distinct(RECORD_KEYS) && (forall k :: k in RECORD_KEYS <==> k in v.members)
      && RECORD_KEYS != [] && v.members[RECORD_KEYS[0]] == Str(r.author)
  {
    assert FloatFree(RecordValue(r));
    hide FloatFree;
    RecordMembers(r);
    hide RecordValue;
    HeadsMeanIncreasing(RECORD_KEYS);
    SortedIsDistinct(RECORD_KEYS);
    hide Distinct;
    hide HeadsIncrease;
    assert forall k :: k in RECORD_KEYS <==> k in RecordValue(r).members.Keys;
  }

  lemma LongComes(g: Grab, i: nat)
    requires i < 26 && UsualGrab(g) && LongEnough(g)
    ensures Came(RegisterRequest(LongRegistration(g, i)))
  {
    var s := LongRegistration(g, i);
    var value := RecordValue(s.record);
    assert s.record.author == g.author;
    assert RegisterRequest(s) == Submission("register", value, s.signature);
    LongSize(g, i);
    assert Literal(g.author) && |Utf8(g.author)| + 1200 <= MAX_REQUEST_SIZE;
    hide *;
    RecordKeys(s.record);
    CameRaw("register", value, s.signature, RECORD_KEYS, g.author);
  }

  lemma LongSize(g: Grab, i: nat)
    requires i < 26 && UsualGrab(g)
    ensures |Canonical(RegisterRequest(LongRegistration(g, i)))| <= 1200 + |Escaped(g.author)|
  {
    var s := LongRegistration(g, i);
    var r := s.record;
    assert Plain(r.uri) && |r.uri| == 1;
    assert Plain(r.publicKey) && Plain(r.manifestRef) && Plain(s.signature) && r.author == g.author;
    assert |r.publicKey| + |r.manifestRef| + |s.signature| <= 1000;
    assert RegisterRequest(s) == Submission("register", RecordValue(r), s.signature) && Word("register");
    hide *;
    RecordLength(r);
    TextLength(s.signature);
    SubmissionLength("register", RecordValue(r), s.signature);
  }

  lemma LongNamesStop(d: Names, g: Grab)
    requires StillLong(d, g) && LongEnough(g)
    ensures d.Valid() && !Fits(d, 0)
  {
    forall i | 0 <= i < g.count ensures |Escaped(d.vals[d.keys[i]].record.author)| >= |Escaped(g.author)| {
      assert d.vals[d.keys[i]] == LongRegistration(g, i);
    }
    hide Fits;
    hide Escaped;
    LongAuthorsStopListing(d, g.count, |Escaped(g.author)|);
  }

  // Seventeen authors of 62 KiB do it, and three of 62,000 DEL characters. Two names never do.
  lemma LongAuthors(g: Grab)
    requires
      || (g.count >= 17 && g.author == Repeated('a', 62 * 1024))
      || (g.count >= 3 && g.author == Repeated('\U{7f}', 62_000))
    ensures LongEnough(g)
  {
    Widths();
    RepeatedLength('a', 62 * 1024);
    RepeatedLength('\U{7f}', 62_000);
    hide Repeated;
    hide EscapeChar;
    hide EncodeChar;
    hide Escaped;
    hide Utf8;
    hide Literal;
  }
}
