/**
 An author's side (bundle/manifest.py, bundle/name_records.py, peer/peer.py:140-213): the manifest of the
 Markdown files under a directory, its signature, the name record that commits to it, and what the
 directory then serves. A fetch by anybody accepts it, with exceptions the author is not told about.
 */
module Publishing {
  import opened Bundle
  import opened BundlePython
  import opened Disk
  import opened Fetching
  import opened Json
  import opened Messages
  import opened NamingHistory
  import opened NamingServer
  import opened Paths
  import opened Pins
  import opened Printer
  import opened Records
  import opened Seeders
  import opened Seeding
  import opened Spelling
  import opened Storage
  import opened Stores
  import opened Terms
  import opened Text
  import opened Wrappers

  // A key pair: the public key, and the signature of a message.
  // `expiresAt` is the time of publication plus the time to live.
  datatype Draft =
    Draft(uri: string, author: string, version: i64, timestamp: i64, expiresAt: i64, categories: seq<string>)

  // A path a search for *.md under a directory can return. A name may hold a backslash.
  predicate Walkable(p: string)
  {
    IsMarkdown(p) && '\0' !in p && forall s | s in Split(p) :: NormalSegment(s)
  }

  // What the search finds, in the order it is sorted in.
  ghost predicate Walk(files: Files)
  {
    && DistinctPaths(files)
    && forall i | 0 <= i < |files| :: Walkable(files[i].0) && |files[i].1| < I64_LIMIT
  }

  // ---- The manifest

  function EntryOf(c: Crypto, file: (string, bytes)): Value
    requires |file.1| < I64_LIMIT
  {
    Object(map["path" := Str(file.0), "hash" := Str(c.sha256(file.1)), "size" := Integer(|file.1|)])
  }

  function EntriesOf(c: Crypto, files: Files): seq<Value>
    requires forall i | 0 <= i < |files| :: |files[i].1| < I64_LIMIT
  {
    if files == [] then []
    else EntriesOf(c, files[..|files| - 1]) + [EntryOf(c, files[|files| - 1])]
  }

  function BytesIn(files: Files): nat
  {
    if files == [] then 0 else BytesIn(files[..|files| - 1]) + |files[|files| - 1].1|
  }

  predicate Publishable(files: Files)
  {
    |files| <= MAX_BUNDLE_FILES && BytesIn(files) <= MAX_BUNDLE_TOTAL_SIZE
  }

  // Signed with the author's key: `create_manifest`, then `sign_manifest`.
  function ManifestOf(c: Crypto, d: Draft, key: string, files: Files): Value
    requires Publishable(files) && forall i | 0 <= i < |files| :: |files[i].1| < I64_LIMIT
  {
    Object(map[
      "uri" := Str(d.uri),
      "author" := Str(d.author),
      "version" := Integer(d.version),
      "timestamp" := Integer(d.timestamp),
      "expires_at" := Integer(d.expiresAt),
      "categories" := Array(Texts(d.categories)),
      "files" := Array(EntriesOf(c, files)),
      "total_size" := Integer(BytesIn(files)),
      "file_count" := Integer(|files|),
      "public_key" := Str(key)])
  }

  // None: too many files, or too large.
  method CreateManifest(c: Crypto, d: Draft, key: string, files: Files) returns (r: Option<Value>)
    requires forall i | 0 <= i < |files| :: |files[i].1| < I64_LIMIT
    ensures r == if Publishable(files) then Some(ManifestOf(c, d, key, files)) else None
  {
    var entries: seq<Value> := [];
    for i := 0 to |files|
      invariant entries == EntriesOf(c, files[..i])
    {
      assert files[..i + 1][..i] == files[..i];
      entries := entries + [EntryOf(c, files[i])];
    }
    assert files[..|files|] == files;
    if |files| > MAX_BUNDLE_FILES {
      return None;
    }
    var total := 0;
    for i := 0 to |files|
      invariant total == BytesIn(files[..i])
    {
      assert files[..i + 1][..i] == files[..i];
      total := total + |files[i].1|;
    }
    if total > MAX_BUNDLE_TOTAL_SIZE {
      return None;
    }
    var manifest: map<string, Value> := map[
      "uri" := Str(d.uri),
      "author" := Str(d.author),
      "version" := Integer(d.version),
      "timestamp" := Integer(d.timestamp),
      "expires_at" := Integer(d.expiresAt),
      "categories" := Array(Texts(d.categories)),
      "files" := Array(entries),
      "total_size" := Integer(total),
      "file_count" := Integer(|files|)];
    r := Some(Object(manifest["public_key" := Str(key)]));
  }

  // ---- What the author's directory serves

  ghost predicate Servable(files: Files)
  {
    forall i | 0 <= i < |files| :: ValidPath(files[i].0) && FromUtf8(files[i].1).Some?
  }

  ghost function TextMap(files: Files): map<string, Value>
    requires Servable(files)
  {
    if files == [] then map[]
    else
      var last := files[|files| - 1];
      TextMap(files[..|files| - 1])[last.0 := Str(FromUtf8(last.1).value)]
  }

  lemma EntryFields(c: Crypto, file: (string, bytes))
    requires |file.1| < I64_LIMIT
    ensures GetStr(EntryOf(c, file), "path") == Some(file.0)
    ensures GetStr(EntryOf(c, file), "hash") == Some(c.sha256(file.1))
  {
    assert "path"[0] == 'p' && "hash"[0] == 'h' && "size"[0] == 's';
  }

  lemma {:induction false} ServesWalk(c: Crypto, t: Tree, files: Files)
    requires forall i | 0 <= i < |files| :: |files[i].1| < I64_LIMIT
    requires forall i | 0 <= i < |files| :: Split(files[i].0) in t && t[Split(files[i].0)] == files[i].1
    ensures ServedFiles(t, EntriesOf(c, files)) == if Servable(files) then Some(TextMap(files)) else None
  {
    hide ValidPath;
    hide FromUtf8;
    hide Split;
    hide EntryOf;
    if files != [] {
      var init, last := files[..|files| - 1], files[|files| - 1];
      ServesWalk(c, t, init);
      EntryFields(c, last);
      OneEntryMore(c, files);
      ServableOneMore(files);
      hide EntriesOf;
      hide Servable;
    }
  }

  lemma ServableOneMore(files: Files)
    requires files != []
    ensures var last := files[|files| - 1];
      Servable(files) <==> Servable(files[..|files| - 1]) && ValidPath(last.0) && FromUtf8(last.1).Some?
  {
    hide ValidPath;
    hide FromUtf8;
  }

  lemma OneEntryMore(c: Crypto, files: Files)
    requires files != [] && forall i | 0 <= i < |files| :: |files[i].1| < I64_LIMIT
    ensures var n := |files| - 1; var entries := EntriesOf(c, files);
      |entries| == n + 1 && entries[..n] == EntriesOf(c, files[..n]) && entries[n] == EntryOf(c, files[n])
  {
    hide EntryOf;
    EntriesLength(c, files[..|files| - 1]);
  }

  lemma {:induction false} EntriesLength(c: Crypto, files: Files)
    requires forall i | 0 <= i < |files| :: |files[i].1| < I64_LIMIT
    ensures |EntriesOf(c, files)| == |files|
  {
    if files != [] { EntriesLength(c, files[..|files| - 1]); }
  }

  lemma ServableParts(files: Files)
    requires Servable(files) && files != []
    ensures Servable(files[..|files| - 1]) && FromUtf8(files[|files| - 1].1).Some?
  {
  }

  ghost function PathsOf(files: Files): set<string>
  {
    set i | 0 <= i < |files| :: files[i].0
  }

  lemma PathsStep(files: Files)
    requires files != []
    ensures PathsOf(files) == PathsOf(files[..|files| - 1]) + {files[|files| - 1].0}
    ensures DistinctPaths(files) ==> files[|files| - 1].0 !in PathsOf(files[..|files| - 1])
  {
    var n := |files| - 1;
    var init := files[..n];
    forall p ensures p in PathsOf(files) <==> p in PathsOf(init) + {files[n].0} {
      if i :| 0 <= i < |files| && files[i].0 == p {
        if i < n { assert init[i].0 == p; }
      }
    }
  }

  ghost predicate HoldsTexts(m: map<string, Value>, files: Files)
  {
    forall i | 0 <= i < |files| :: files[i].0 in m && m[files[i].0].Str? && Utf8(m[files[i].0].s) == files[i].1
  }

  lemma HoldsOneMore(m: map<string, Value>, files: Files, text: string)
    requires files != [] && DistinctPaths(files) && HoldsTexts(m, files[..|files| - 1])
    requires Utf8(text) == files[|files| - 1].1
    ensures HoldsTexts(m[files[|files| - 1].0 := Str(text)], files)
  {
    hide Utf8;
    var n := |files| - 1;
    forall i | 0 <= i < n ensures files[i] == files[..n][i] {}
  }

  lemma {:induction false} TextMapHolds(files: Files)
    requires Servable(files) && DistinctPaths(files)
    ensures |TextMap(files)| <= |files|
    ensures TextMap(files).Keys == PathsOf(files)
    ensures HoldsTexts(TextMap(files), files)
  {
    hide FromUtf8;
    hide Servable;
    hide HoldsTexts;
    if files != [] {
      ServableParts(files);
      TextMapHolds(files[..|files| - 1]);
      DecodedIsEncoded(files[|files| - 1].1);
      PathsStep(files);
      HoldsOneMore(TextMap(files[..|files| - 1]), files, FromUtf8(files[|files| - 1].1).value);
      hide PathsOf;
    } else {
      assert HoldsTexts(TextMap(files), files) by { HoldsNothing(TextMap(files)); }
    }
  }

  lemma HoldsNothing(m: map<string, Value>)
    ensures HoldsTexts(m, [])
  {
  }

  lemma {:induction false} EntriesExpected(c: Crypto, files: Files)
    requires DistinctPaths(files) && forall i | 0 <= i < |files| :: |files[i].1| < I64_LIMIT
    ensures Expected(EntriesOf(c, files)).Some?
    ensures Expected(EntriesOf(c, files)).value.Keys == PathsOf(files)
    ensures forall i | 0 <= i < |files| :: Expected(EntriesOf(c, files)).value[files[i].0] == c.sha256(files[i].1)
  {
    hide EntryOf;
    if files != [] {
      var init, last := files[..|files| - 1], files[|files| - 1];
      EntriesExpected(c, init);
      PathsStep(files);
      EntryFields(c, last);
      EntriesLength(c, init);
      assert EntriesOf(c, files)[..|files| - 1] == EntriesOf(c, init);
      EntriesLength(c, files);
    }
  }

  // ---- The manifest passes every check

  lemma ManifestFields(c: Crypto, d: Draft, key: string, files: Files)
    requires Publishable(files) && forall i | 0 <= i < |files| :: |files[i].1| < I64_LIMIT
    ensures var m := ManifestOf(c, d, key, files);
      && GetStr(m, "uri") == Some(d.uri)
      && GetStr(m, "public_key") == Some(key)
      && Get(m, "expires_at") == Some(Integer(d.expiresAt))
      && Get(m, "file_count") == Some(Integer(|files|))
      && Get(m, "files") == Some(Array(EntriesOf(c, files)))
  {
    assert "uri"[0] == 'u' && "author"[0] == 'a';
    assert "version"[0] == 'v' && "timestamp"[1] == 'i' && "expires_at"[0] == 'e';
    assert "categories"[0] == 'c' && "total_size"[1] == 'o' && "public_key"[0] == 'p';
    assert "files"[3] == 'e' && "file_count"[4] == '_' && "files"[4] == 's' && "file_count"[0] == 'f';
  }

  lemma {:induction false} EntriesAreFloatFree(c: Crypto, files: Files)
    requires forall i | 0 <= i < |files| :: |files[i].1| < I64_LIMIT
    ensures forall x | x in EntriesOf(c, files) :: FloatFree(x)
  {
    if files != [] { EntriesAreFloatFree(c, files[..|files| - 1]); }
  }

  lemma ManifestIsFloatFree(c: Crypto, d: Draft, key: string, files: Files)
    requires Publishable(files) && forall i | 0 <= i < |files| :: |files[i].1| < I64_LIMIT
    ensures FloatFree(ManifestOf(c, d, key, files))
  {
    EntriesAreFloatFree(c, files);
    assert forall x | x in Texts(d.categories) :: FloatFree(x);
    assert FloatFree(Array(EntriesOf(c, files))) && FloatFree(Array(Texts(d.categories)));
    var m := ManifestOf(c, d, key, files).members;
    forall k | k in m ensures FloatFree(m[k]) {
      assert m[k].Str? || m[k].Integer? || m[k] == Array(EntriesOf(c, files)) || m[k] == Array(Texts(d.categories));
    }
  }

  function PathSeq(files: Files): seq<string>
  {
    seq(|files|, i requires 0 <= i < |files| => files[i].0)
  }

  lemma {:induction false} TotalFrom(m: map<string, Value>, files: Files, i: nat)
    requires HoldsTexts(m, files) && i <= |files|
    ensures TotalSize(m, PathSeq(files), i) + BytesIn(files[..i]) == BytesIn(files)
    decreases |files| - i
  {
    hide Utf8;
    if i == |files| {
      assert files[..i] == files;
    } else {
      TotalFrom(m, files, i + 1);
      assert files[..i + 1][..i] == files[..i];
      assert SizeOf(m[PathSeq(files)[i]]) == |files[i].1|;
    }
  }

  lemma PathsEnumerate(files: Files)
    requires DistinctPaths(files)
    ensures Enumerates(PathSeq(files), PathsOf(files))
  {
    forall p | p in PathsOf(files) ensures p in PathSeq(files) {
      var i :| 0 <= i < |files| && files[i].0 == p;
      assert PathSeq(files)[i] == p;
    }
  }

  lemma TextsAreOk(m: map<string, Value>, files: Files)
    requires Servable(files) && m.Keys == PathsOf(files) && HoldsTexts(m, files)
    ensures forall p | p in m :: FileOk(m, p)
  {
    hide Utf8;
    hide FromUtf8;
    hide ValidPath;
    forall p | p in m ensures FileOk(m, p) {
      assert p in PathsOf(files);
      var i :| 0 <= i < |files| && files[i].0 == p;
    }
  }

  lemma TextsFit(files: Files)
    requires Servable(files) && DistinctPaths(files) && BytesIn(files) <= MAX_BUNDLE_TOTAL_SIZE
    ensures FilesOk(TextMap(files))
  {
    TextMapHolds(files);
    PathsEnumerate(files);
    hide *;
    var m := TextMap(files);
    TextsAreOk(m, files);
    TotalFrom(m, files, 0);
    TotalIgnoresOrder(m, PathSeq(files));
    TextsFitTotal(m, files);
  }

  lemma TextsFitTotal(m: map<string, Value>, files: Files)
    requires (forall p | p in m :: FileOk(m, p)) && forall j | 0 <= j < |files| :: PathSeq(files)[j] in m
    requires TotalSize(m, PathSeq(files), 0) + BytesIn(files[..0]) == BytesIn(files) <= MAX_BUNDLE_TOTAL_SIZE
    requires TotalSize(m, PathSeq(files), 0) == TotalSize(m, SortedKeys(m.Keys), 0)
    ensures FilesOk(m)
  {
    hide FileOk;
    hide TotalSize;
  }

  lemma HashesFit(c: Crypto, d: Draft, key: string, files: Files)
    requires Servable(files) && Walk(files) && Publishable(files)
    ensures HashesOk(c, ManifestOf(c, d, key, files), TextMap(files))
  {
    hide Utf8;
    hide Servable;
    hide IsMarkdown;
    hide ManifestOf;
    ManifestFields(c, d, key, files);
    TextMapHolds(files);
    EntriesExpected(c, files);
    var m := TextMap(files);
    forall p | p in m
      ensures m[p].Str? && IsMarkdown(p) && c.sha256(Utf8(m[p].s)) == Entries(ManifestOf(c, d, key, files)).value[p]
    {
      var i :| 0 <= i < |files| && files[i].0 == p;
    }
  }

  // ---- Published, then fetched

  function ManifestSignature(c: Crypto, d: Draft, a: Author, files: Files): string
    requires Publishable(files) && forall i | 0 <= i < |files| :: |files[i].1| < I64_LIMIT
  {
    a.sign(Canonical(ManifestOf(c, d, a.key, files)))
  }

  function RefOf(c: Crypto, d: Draft, a: Author, files: Files): string
    requires Publishable(files) && forall i | 0 <= i < |files| :: |files[i].1| < I64_LIMIT
  {
    c.sha256(Canonical(ManifestOf(c, d, a.key, files)))
  }

  // The author's directory once manifest and signature have been saved beside the files.
  ghost function AuthorTree(c: Crypto, codec: FileCodec, d: Draft, a: Author, files: Files): Tree
    requires Publishable(files) && forall i | 0 <= i < |files| :: |files[i].1| < I64_LIMIT
  {
    SiteTree(codec, ManifestOf(c, d, a.key, files), ManifestSignature(c, d, a, files), files)
  }

  ghost function Offered(c: Crypto, codec: FileCodec, d: Draft, a: Author, files: Files): Value
    requires Servable(files) && Publishable(files) && forall i | 0 <= i < |files| :: |files[i].1| < I64_LIMIT
  {
    BundleMessage(ManifestOf(c, d, a.key, files), codec.trim(ManifestSignature(c, d, a, files)), TextMap(files))
  }

  // Everything that can be published is served, except when a name holds a backslash, a path is deeper than
  // ten levels, or a file is not UTF-8: publishing checks none of these, and every request then fails.
  lemma AuthorServes(c: Crypto, codec: FileCodec, d: Draft, a: Author, files: Files)
    requires Walk(files) && Publishable(files)
    requires codec.parse(codec.pretty(ManifestOf(c, d, a.key, files))) == Some(ManifestOf(c, d, a.key, files))
    ensures Serve(codec, AuthorTree(c, codec, d, a, files)) ==
      if Servable(files) then Some(Offered(c, codec, d, a, files)) else None
  {
    hide IsMarkdown;
    hide ManifestOf;
    hide FilesTree;
    hide FromUtf8;
    hide ValidPath;
    hide TextMap;
    var m, t := ManifestOf(c, d, a.key, files), AuthorTree(c, codec, d, a, files);
    ManifestFields(c, d, a.key, files);
    ManifestReadsBack(codec, m, ManifestSignature(c, d, a, files), files);
    forall i | 0 <= i < |files| ensures Split(files[i].0) in t && t[Split(files[i].0)] == files[i].1 {
      FilesTreeHolds(files, i);
      MarkdownIsNotManifest(files[i].0);
    }
    hide SiteTree;
    ServesWalk(c, t, files);
  }

  lemma ServableIffSound(files: Files)
    requires Walk(files)
    ensures Servable(files) <==> forall i | 0 <= i < |files| ::
      '\\' !in files[i].0 && |Split(files[i].0)| <= MAX_PATH_DEPTH && FromUtf8(files[i].1).Some?
  {
  }

  // What is served is accepted against the author's own reference until the day it expires, and delivers
  // the author's files, byte for byte.
  lemma PublishedIsAccepted(c: Crypto, codec: FileCodec, d: Draft, a: Author, files: Files, now: int)
    requires Walk(files) && Publishable(files) && Servable(files) && HonestAuthor(c, a)
    requires forall k, s, m | c.verify(k, s, m) :: c.verify(k, codec.trim(s), m)
    ensures var r := Check(c, Offered(c, codec, d, a, files), Expectation(d.uri, a.key, RefOf(c, d, a, files), now));
      if now > d.expiresAt then r == Failure(Expired)
      else r.Success? && forall f :: f in r.value <==> f in files
  {
    var m, f := ManifestOf(c, d, a.key, files), TextMap(files);
    var signature := codec.trim(ManifestSignature(c, d, a, files));
    var b, e := Offered(c, codec, d, a, files), Expectation(d.uri, a.key, RefOf(c, d, a, files), now);
    TextsFit(files);
    HashesFit(c, d, a.key, files);
    TextMapHolds(files);
    ManifestFields(c, d, a.key, files);
    SignedAndReferenced(c, d, a, files, signature);
    hide *;
    MessageFields(m, signature, f);
    AcceptedUntilExpiry(c, b, e, d.expiresAt, |files|);
    if now <= d.expiresAt {
      DeliversAuthorsFiles(f, files, Check(c, b, e).value);
    }
  }

  lemma AcceptedUntilExpiry(c: Crypto, b: Value, e: Expectation, expiresAt: i64, count: nat)
    requires Shape(b) && FilesOk(FileMap(b)) && HashesOk(c, Manifest(b), FileMap(b))
    requires VerifyManifest(c, Manifest(b), Signature(b), e.key) && ManifestRef(c, Manifest(b)) == Some(e.ref)
    requires GetStr(Manifest(b), "uri") == Some(e.uri)
    requires Get(Manifest(b), "expires_at") == Some(Integer(expiresAt))
    requires |FileMap(b)| <= count <= MAX_BUNDLE_FILES && Get(Manifest(b), "file_count") == Some(Integer(count))
    ensures if e.now > expiresAt then Check(c, b, e) == Failure(Expired)
      else Check(c, b, e).Success? && Carries(FileMap(b), SortedKeys(FileMap(b).Keys), Check(c, b, e).value)
  {
    hide *;
    AcceptedIffAcceptable(c, b, e);
    ExpiresWhenItSays(Manifest(b), expiresAt, e.now);
    CountIsOk(b, count);
    HeadDecides(c, b, e);
    AcceptableParts(c, b, e);
    DeliversCarries(b, Check(c, b, e));
  }

  lemma ExpiresWhenItSays(m: Value, expiresAt: i64, now: int)
    requires Get(m, "expires_at") == Some(Integer(expiresAt))
    ensures IsManifestExpired(m, now) <==> now > expiresAt
  {
  }

  lemma CountIsOk(b: Value, count: nat)
    requires Shape(b) && |FileMap(b)| <= count <= MAX_BUNDLE_FILES
    requires Get(Manifest(b), "file_count") == Some(Integer(count))
    ensures CountOk(b)
  {
  }

  lemma HeadDecides(c: Crypto, b: Value, e: Expectation)
    requires Shape(b) && VerifyManifest(c, Manifest(b), Signature(b), e.key)
    requires GetStr(Manifest(b), "uri") == Some(e.uri) && ManifestRef(c, Manifest(b)) == Some(e.ref)
    ensures IsManifestExpired(Manifest(b), e.now) ==> Check(c, b, e) == Failure(Expired)
    ensures !IsManifestExpired(Manifest(b), e.now) ==> HeadOk(c, b, e)
  {
    hide VerifyManifest;
    hide ManifestRef;
    hide IsManifestExpired;
    hide ContentCheck;
  }

  lemma AcceptableParts(c: Crypto, b: Value, e: Expectation)
    ensures HeadOk(c, b, e) && CountOk(b) && FilesOk(FileMap(b)) && HashesOk(c, Manifest(b), FileMap(b)) ==>
      Acceptable(c, b, e)
  {
    hide HeadOk;
    hide CountOk;
    hide FilesOk;
    hide HashesOk;
  }

  lemma DeliversCarries(b: Value, r: Result<Files, BundleReject>)
    requires Shape(b)
    ensures r.Success? && Delivers(b, r.value) ==> Carries(FileMap(b), SortedKeys(FileMap(b).Keys), r.value)
  {
    hide Carries;
  }

  lemma SignedAndReferenced(c: Crypto, d: Draft, a: Author, files: Files, signature: string)
    requires Publishable(files) && forall i | 0 <= i < |files| :: |files[i].1| < I64_LIMIT
    requires c.verify(a.key, signature, Canonical(ManifestOf(c, d, a.key, files)))
    ensures VerifyManifest(c, ManifestOf(c, d, a.key, files), signature, a.key)
    ensures ManifestRef(c, ManifestOf(c, d, a.key, files)) == Some(RefOf(c, d, a, files))
  {
    ManifestFields(c, d, a.key, files);
    ManifestIsFloatFree(c, d, a.key, files);
    hide ManifestOf;
    hide Canonical;
    hide FloatFree;
  }

  lemma DeliversAuthorsFiles(m: map<string, Value>, files: Files, accepted: Files)
    requires DistinctPaths(files) && m.Keys == PathsOf(files) && HoldsTexts(m, files)
    requires Carries(m, SortedKeys(m.Keys), accepted)
    ensures forall f :: f in accepted <==> f in files
  {
    hide Utf8;
    var keys := SortedKeys(m.Keys);
    forall f | f in accepted ensures f in files {
      var j :| 0 <= j < |accepted| && accepted[j] == f;
      assert keys[j] in m && f.0 == keys[j];
      assert f.0 in PathsOf(files);
      var i :| 0 <= i < |files| && files[i].0 == f.0;
      assert files[i] == f;
    }
    forall f | f in files ensures f in accepted {
      var i :| 0 <= i < |files| && files[i] == f;
      assert f.0 in m && f.0 in keys;
      var j :| 0 <= j < |keys| && keys[j] == f.0;
      assert accepted[j] == f;
    }
  }

  // ---- The name record

  // `build_name_record` and `sign_name_record`.
  ghost function Registration(d: Draft, a: Author, ref: string, timestamp: i64): Signed<NameRecord>
  {
    var record := NameRecord(d.uri, d.author, a.key, ref, timestamp);
    Signed(record, a.sign(Canonical(RecordValue(record))))
  }

  // What a naming server whose stores are in this state answers to a request for a name.
  function ServerAnswer(st: State, uri: string): Value
  {
    var found := Resolved(st, uri);
    if found.Some? then ResolveAnswer(found.value) else ErrorMessage("unknown uri: " + uri)
  }

  lemma RecordFields(r: NameRecord)
    ensures var v := RecordValue(r);
      && GetStr(v, "uri") == Some(r.uri) && Get(v, "author").Some? && GetStr(v, "public_key") == Some(r.publicKey)
      && GetStr(v, "manifest_ref") == Some(r.manifestRef) && Get(v, "timestamp") == Some(Integer(r.timestamp))
      && FloatFree(v)
  {
    assert "uri"[0] == 'u' && "author"[0] == 'a' && "public_key"[0] == 'p';
    assert "manifest_ref"[0] == 'm' && "timestamp"[0] == 't';
  }

  lemma AnswerFields(s: Signed<NameRecord>)
    ensures var v := ResolveAnswer(s);
      && GetStr(v, "type") == Some("record") && Get(v, "record") == Some(RecordValue(s.record))
      && GetStr(v, "signature") == Some(s.signature)
  {
    hide RecordValue;
    assert "type"[0] == 't' && "record"[0] == 'r' && "signature"[0] == 's';
  }

  // The author's own record is accepted by everybody, for the name it is about.
  lemma RecordResolves(c: Crypto, d: Draft, a: Author, ref: string, timestamp: i64)
    requires HonestAuthor(c, a)
    ensures var answer := ResolveAnswer(Registration(d, a, ref, timestamp));
      && GetStr(answer, "type") == Some("record")
      && CheckResolvedRecord(c, d.uri, answer) == Success(ResolvedName(a.key, ref, timestamp))
  {
    var s := Registration(d, a, ref, timestamp);
    RecordFields(s.record);
    AnswerFields(s);
    hide CheckResolvedRecord;
    hide RecordValue;
    hide ResolveAnswer;
    hide Canonical;
    hide FloatFree;
    ResolvedIffVouched(c, d.uri, ResolveAnswer(s), ResolvedName(a.key, ref, timestamp));
  }

  // ---- The author's node

  // Python's format, and the reader for it.
  const PYTHON_FORMAT := WireFormat(Canonical, Decode)

  // What comes of a request for a bundle (peer/bundle_protocol.py:150-185). A dictionary that cannot be built, or
  // whose text is over the limit, raises, and the text of the exception is sent instead.
  function PeerReply(codec: FileCodec, sites: map<string, string>, dirs: Dirs, uri: string, why: string): Outcome
  {
    if uri !in sites then Delivered(PYTHON_FORMAT, ErrorMessage("site '" + uri + "' not found"))
    else
      var data := Serve(codec, if sites[uri] in dirs then dirs[sites[uri]] else map[]);
      if data.None? || |Canonical(data.value)| > MAX_BUNDLE_RESPONSE_SIZE then
        Delivered(PYTHON_FORMAT, ErrorMessage("internal error: " + why))
      else Delivered(PYTHON_FORMAT, data.value)
  }

  lemma ErrorIsNoBundle(c: Crypto, s: Swarm, e: Expectation, i: nat, msg: string)
    requires s.outcome(i) == Delivered(PYTHON_FORMAT, ErrorMessage(msg))
    ensures !Good(c, s, e, i)
  {
    var error := ErrorMessage(msg);
    ErrorFields(msg);
    DecodesCanonical(error);
    hide Canonical;
    hide Decode;
    hide FloatFree;
    hide Delivered;
    hide Check;
    hide Get;
    hide GetStr;
    DeliveredWhole(PYTHON_FORMAT, error);
    ShapelessIsRefused(c, error, ExpectationAt(e, s, i));
  }

  lemma ErrorFields(msg: string)
    ensures FloatFree(ErrorMessage(msg)) && !Shape(ErrorMessage(msg))
  {
    assert "type"[0] == 't' && "msg"[1] == 's' && "manifest"[0] == 'm' && "manifest"[1] == 'a';
  }

  lemma ShapelessIsRefused(c: Crypto, b: Value, e: Expectation)
    requires !Shape(b)
    ensures Check(c, b, e) == Failure(Malformed)
  {
  }

  lemma OfferedIsFloatFree(c: Crypto, codec: FileCodec, d: Draft, a: Author, files: Files)
    requires Servable(files) && Publishable(files) && Walk(files)
    ensures FloatFree(Offered(c, codec, d, a, files))
  {
    ManifestIsFloatFree(c, d, a.key, files);
    TextMapHolds(files);
    TextsAreFloatFree(TextMap(files), files);
    hide ManifestOf;
    hide TextMap;
    hide Servable;
    MessageIsFloatFree(
      ManifestOf(c, d, a.key, files), codec.trim(ManifestSignature(c, d, a, files)), TextMap(files));
  }

  lemma TextsAreFloatFree(m: map<string, Value>, files: Files)
    requires m.Keys == PathsOf(files) && HoldsTexts(m, files)
    ensures FloatFree(Object(m))
  {
    hide Utf8;
    forall k | k in m ensures FloatFree(m[k]) {
      assert k in PathsOf(files);
    }
  }

  lemma MessageIsFloatFree(manifest: Value, signature: string, files: map<string, Value>)
    requires FloatFree(manifest) && FloatFree(Object(files))
    ensures FloatFree(BundleMessage(manifest, signature, files))
  {
    var m := BundleMessage(manifest, signature, files).members;
    forall k | k in m ensures FloatFree(m[k]) {
      assert m[k].Str? || m[k] == manifest || m[k] == Object(files);
    }
  }

  // The author's registration of this version was accepted in the run, and none accepted is newer.
  ghost predicate Registered(
    c: Crypto, d: Draft, a: Author, files: Files, timestamp: i64, cfg: Config, lib: Library, run: Run, at: nat)
    requires Publishable(files) && Walk(files)
  {
    var s := Registration(d, a, RefOf(c, d, a, files), timestamp);
    && RegisteredAt(cfg, lib, run, at, s)
    && forall j: nat, t | RegisteredAt(cfg, lib, run, j, t) && t.record.uri == d.uri :: t.record.timestamp <= timestamp
  }

  // From publication to fetch. Once the author's registration has been accepted by a naming server, and as long as
  // no newer one is, a client that holds no pin for the name, or one that fits, follows the server's answer; and
  // the author's node, as the i-th provider of its fetch, is a good one exactly when the files can be served, their
  // text fits in a message, and the manifest has not expired.
  lemma PublishedIsFetched(
    c: Crypto, codec: FileCodec, d: Draft, a: Author, files: Files, timestamp: i64, cfg: Config, lib: Library, run: Run,
    at: nat, sites: map<string, string>, dirs: Dirs, pins: PinMap, s: Swarm, i: nat, why: string)
    requires ValidUri(d.uri) && Walk(files) && Publishable(files) && HonestAuthor(c, a)
    requires Registered(c, d, a, files, timestamp, cfg, lib, run, at)
    requires codec.parse(codec.pretty(ManifestOf(c, d, a.key, files))) == Some(ManifestOf(c, d, a.key, files))
    requires forall k, t, m | c.verify(k, t, m) :: c.verify(k, codec.trim(t), m)
    requires d.uri in sites && sites[d.uri] in dirs && dirs[sites[d.uri]] == AuthorTree(c, codec, d, a, files)
    requires Status(pins, d.uri, a.key, timestamp) in {Unknown, Match}
    requires s.outcome(i) == PeerReply(codec, sites, dirs, d.uri, why)
    ensures var name := ResolvedName(a.key, RefOf(c, d, a, files), timestamp);
      && Judged(c, pins, d.uri, Some(ServerAnswer(After(cfg, lib, run), d.uri))) == Success(name)
      && (Good(c, s, Wanted(d.uri, name), i) <==>
          Servable(files) && SmallEnough(c, codec, d, a, files) && s.clock(i) <= d.expiresAt)
  {
    var name := ResolvedName(a.key, RefOf(c, d, a, files), timestamp);
    var registration := Registration(d, a, name.manifestRef, timestamp);
    ServerFollows(c, d, a, files, timestamp, cfg, lib, run, at);
    AuthorServes(c, codec, d, a, files);
    RecordResolves(c, d, a, name.manifestRef, timestamp);
    hide *;
    FollowsRecord(c, pins, d.uri, ResolveAnswer(registration), name);
    if Servable(files) && SmallEnough(c, codec, d, a, files) {
      OfferedIsFloatFree(c, codec, d, a, files);
      RepliesWithBundle(codec, sites, dirs, d.uri, why, Offered(c, codec, d, a, files));
      GoodWhenAccepted(c, s, d.uri, name, i);
      PublishedIsAccepted(c, codec, d, a, files, s.clock(i));
    } else {
      RepliesWithError(codec, sites, dirs, d.uri, why);
      ErrorIsNoBundle(c, s, Wanted(d.uri, name), i, "internal error: " + why);
    }
  }

  lemma ServerFollows(
    c: Crypto, d: Draft, a: Author, files: Files, timestamp: i64, cfg: Config, lib: Library, run: Run, at: nat)
    requires Publishable(files) && Walk(files) && Registered(c, d, a, files, timestamp, cfg, lib, run, at)
    ensures ServerAnswer(After(cfg, lib, run), d.uri) ==
      ResolveAnswer(Registration(d, a, RefOf(c, d, a, files), timestamp))
  {
    hide RegisteredAt;
    hide Resolved;
    hide RefOf;
    hide ResolveAnswer;
    ResolvesToRegistered(cfg, lib, run, at, Registration(d, a, RefOf(c, d, a, files), timestamp));
  }

  // The text of the site, escapes and all, fits in a message.
  ghost predicate SmallEnough(c: Crypto, codec: FileCodec, d: Draft, a: Author, files: Files)
    requires Servable(files) && Publishable(files) && Walk(files)
  {
    |Canonical(Offered(c, codec, d, a, files))| <= MAX_BUNDLE_RESPONSE_SIZE
  }

  lemma RepliesWithBundle(codec: FileCodec, sites: map<string, string>, dirs: Dirs, uri: string, why: string, b: Value)
    requires uri in sites && sites[uri] in dirs && Serve(codec, dirs[sites[uri]]) == Some(b)
    requires FloatFree(b) && |Canonical(b)| <= MAX_BUNDLE_RESPONSE_SIZE
    ensures PeerReply(codec, sites, dirs, uri, why) == Response(b)
  {
    hide Serve;
    hide Canonical;
    hide FloatFree;
    hide Decode;
    DecodesCanonical(b);
    DeliveredWhole(PYTHON_FORMAT, b);
  }

  lemma RepliesWithError(codec: FileCodec, sites: map<string, string>, dirs: Dirs, uri: string, why: string)
    requires uri in sites && sites[uri] in dirs
    requires var b := Serve(codec, dirs[sites[uri]]); b.None? || |Canonical(b.value)| > MAX_BUNDLE_RESPONSE_SIZE
    ensures PeerReply(codec, sites, dirs, uri, why) == Delivered(PYTHON_FORMAT, ErrorMessage("internal error: " + why))
  {
    hide Serve;
    hide Canonical;
    hide Delivered;
  }

  lemma FollowsRecord(c: Crypto, pins: PinMap, uri: string, answer: Value, r: ResolvedName)
    requires ValidUri(uri) && GetStr(answer, "type") == Some("record")
    requires CheckResolvedRecord(c, uri, answer) == Success(r)
    requires Status(pins, uri, r.publicKey, r.timestamp) in {Unknown, Match}
    ensures Judged(c, pins, uri, Some(answer)) == Success(r)
  {
    hide ValidUri;
    hide CheckResolvedRecord;
    hide Status;
    assert "record"[0] == 'r' && "error"[0] == 'e';
  }

  lemma GoodWhenAccepted(c: Crypto, s: Swarm, uri: string, r: ResolvedName, i: nat)
    requires s.outcome(i).Response?
    ensures Good(c, s, Wanted(uri, r), i) <==>
      Check(c, s.outcome(i).bundle, Expectation(uri, r.publicKey, r.manifestRef, s.clock(i))).Success?
  {
    hide Check;
  }

  // ---- What publishing lets through

  // A backslash in a name: published, never served.
  lemma BackslashIsPublished(c: Crypto, codec: FileCodec, d: Draft, a: Author)
    requires var files := [("a\\b.md", [])];
      Publishable(files) ==>
        codec.parse(codec.pretty(ManifestOf(c, d, a.key, files))) == Some(ManifestOf(c, d, a.key, files))
    ensures var files := [("a\\b.md", [])];
      Walk(files) && Publishable(files) && !Servable(files) && Serve(codec, AuthorTree(c, codec, d, a, files)) == None
  {
    var files := [("a\\b.md", [])];
    SplitPlain("a\\b.md");
    assert "a\\b.md"[1] == '\\' && "a\\b.md"[3..] == ".md";
    assert files[..0] == [];
    assert Publishable(files) && Walk(files);
    assert !Servable(files) by { assert !ValidPath(files[0].0); }
    hide *;
    AuthorServes(c, codec, d, a, files);
  }

  // An accented letter takes two bytes on disk and six in a message.
  const ACCENTS := 20_000_000

  // Forty megabytes of accented text: published within the limit, every file sound, and nobody ever gets it,
  // because the message would take 120 megabytes.
  lemma AccentedSiteIsPublished(c: Crypto, codec: FileCodec, d: Draft, a: Author)
    ensures var files := [("a.md", Utf8(Repeated('\U{e9}', ACCENTS)))];
      Walk(files) && Publishable(files) && Servable(files) && !SmallEnough(c, codec, d, a, files)
  {
    var text := Repeated('\U{e9}', ACCENTS);
    Widths();
    RepeatedLength('\U{e9}', ACCENTS);
    assert |Utf8(text)| == 2 * ACCENTS && |Escaped(text)| == 6 * ACCENTS;
    hide *;
    Utf8RoundTrip(text);
    OneTextSite(c, codec, d, a, "a.md", text);
  }

  // A site of one file is at least as long, as a message, as the quoted text of the file.
  lemma OneTextSite(c: Crypto, codec: FileCodec, d: Draft, a: Author, name: string, text: string)
    requires name == "a.md" && |Utf8(text)| <= MAX_BUNDLE_TOTAL_SIZE && FromUtf8(Utf8(text)) == Some(text)
    ensures var files := [(name, Utf8(text))];
      && Walk(files) && Publishable(files) && Servable(files)
      && |Canonical(Offered(c, codec, d, a, files))| >= |Escaped(text)|
  {
    hide Utf8;
    hide FromUtf8;
    hide Escaped;
    hide Canonical;
    hide ManifestOf;
    var files := [(name, Utf8(text))];
    SplitPlain(name);
    PlainNameIsValid(name);
    assert name[1..] == ".md" && files[..|files| - 1] == [];
    assert BytesIn(files) == BytesIn([]) + |Utf8(text)|;
    assert Walk(files) && Publishable(files) && Servable(files);
    assert TextMap(files) == TextMap([])[name := Str(text)];
    var b, texts := Offered(c, codec, d, a, files), TextMap(files);
    assert texts == map[name := Str(text)];
    MessageHolds(ManifestOf(c, d, a.key, files), codec.trim(ManifestSignature(c, d, a, files)), texts);
    MemberLength(b, "files");
    MemberLength(Object(texts), name);
    QuotedLength(text);
  }

  lemma MessageHolds(manifest: Value, signature: string, files: map<string, Value>)
    ensures Get(BundleMessage(manifest, signature, files), "files") == Some(Object(files))
  {
    assert "type"[0] == 't' && "manifest"[0] == 'm' && "signature"[0] == 's' && "files"[0] == 'f';
  }

  lemma QuotedLength(text: string)
    ensures |Canonical(Str(text))| == |Escaped(text)| + 2
  {
  }

  ghost predicate IsNumber(v: Value, name: string, n: int)
  {
    v.Object? && name in v.members && v.members[name].Integer? && v.members[name].i == n
  }

  // What the manifest says, field by field: about the site, and of every file its path, its hash and its size.
  lemma ManifestSays(c: Crypto, d: Draft, key: string, files: Files, i: nat)
    requires Publishable(files) && i < |files| && forall j | 0 <= j < |files| :: |files[j].1| < I64_LIMIT
    ensures var m := ManifestOf(c, d, key, files);
      && IsText(m, "uri", d.uri) && IsText(m, "author", d.author) && IsText(m, "public_key", key)
      && IsNumber(m, "version", d.version) && IsNumber(m, "timestamp", d.timestamp)
      && IsNumber(m, "expires_at", d.expiresAt) && IsNumber(m, "file_count", |files|)
      && IsNumber(m, "total_size", BytesIn(files))
      && "categories" in m.members && m.members["categories"] == Array(Texts(d.categories))
      && "files" in m.members && m.members["files"].Array? && |m.members["files"].items| == |files|
      && var entry := m.members["files"].items[i];
      && IsText(entry, "path", files[i].0) && IsText(entry, "hash", c.sha256(files[i].1))
      && IsNumber(entry, "size", |files[i].1|)
  {
    EntriesAt(c, files, i);
    assert "uri"[0] == 'u' && "author"[0] == 'a' && "version"[0] == 'v' && "timestamp"[1] == 'i';
    assert "expires_at"[0] == 'e' && "categories"[0] == 'c' && "total_size"[1] == 'o' && "public_key"[0] == 'p';
    assert "files"[3] == 'e' && "file_count"[4] == '_' && "files"[4] == 's' && "file_count"[0] == 'f';
    assert "path"[0] == 'p' && "hash"[0] == 'h' && "size"[0] == 's';
  }

  lemma {:induction false} EntriesAt(c: Crypto, files: Files, i: nat)
    requires i < |files| && forall j | 0 <= j < |files| :: |files[j].1| < I64_LIMIT
    ensures |EntriesOf(c, files)| == |files| && EntriesOf(c, files)[i] == EntryOf(c, files[i])
    decreases |files|
  {
    var n := |files| - 1;
    if i < n {
      EntriesAt(c, files[..n], i);
    } else {
      EntriesLength(c, files[..n]);
    }
  }

  // And the size is that of all the files together, in whatever order they are counted.
  lemma {:induction false} BytesAddUp(a: Files, b: Files)
    ensures BytesIn(a + b) == BytesIn(a) + BytesIn(b)
    ensures |a| == 1 ==> BytesIn(a) == |a[0].1|
  {
    if |a| == 1 { assert a[..0] == []; }
    if b == [] {
      assert a + b == a;
    } else {
      assert (a + b)[..|a + b| - 1] == a + b[..|b| - 1];
      BytesAddUp(a, b[..|b| - 1]);
    }
  }

  // What a client writes beside the pin is the author the record names, for a published site the author of the draft;
  // and of an answer that names none, that it is unknown.
  lemma AuthorIsNamed(s: Signed<NameRecord>, d: Draft, a: Author, ref: string, timestamp: i64, answer: Value)
    ensures AuthorOf(ResolveAnswer(s)) == s.record.author
    ensures Registration(d, a, ref, timestamp).record.author == d.author
    ensures !(answer.Object? && "record" in answer.members && HasText(answer.members["record"], "author")) ==>
      AuthorOf(answer) == "unknown"
  {
    AnswerFields(s);
    assert "uri"[0] == 'u' && "author"[0] == 'a' && "public_key"[0] == 'p';
    assert "manifest_ref"[0] == 'm' && "timestamp"[0] == 't';
    hide ResolveAnswer;
  }

  // What publishing refuses: more than a thousand files, or more than 52,428,800 bytes.
  lemma PublishableInTerms(files: Files)
    ensures Publishable(files) <==> |files| <= 1000 && BytesIn(files) <= 52_428_800
  {
  }
}
