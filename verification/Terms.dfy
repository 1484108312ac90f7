/**
 Names, paths and acceptance told without the checks that decide them: which characters and segments there are, and
 what a response has to hold, member by member, with the limits written out. The checks of the two programs share
 small helpers; here nothing is said through them.
 */
module Terms {
  import opened Bundle
  import opened BundlePython
  import opened Json
  import opened Paths
  import opened Printer
  import opened Records
  import opened Text
  import opened Wrappers

  // ---- Names

  ghost predicate LetterOrDigit(c: char)
  {
    'a' <= c <= 'z' || 'A' <= c <= 'Z' || '0' <= c <= '9'
  }

  // A name is a letter or a digit, then letters, digits, dots, underscores and hyphens, 255 characters in all, and
  // cannot be cut between two dots.
  lemma UriInTerms(uri: string)
    ensures ValidUri(uri) <==>
      && 1 <= |uri| <= 255 && LetterOrDigit(uri[0])
      && (forall c | c in uri :: LetterOrDigit(c) || c in "._-")
      && forall a, b :: uri != a + ".." + b
  {
    if HasDoubleDot(uri) {
      var i :| 0 <= i < |uri| - 1 && uri[i] == '.' && uri[i + 1] == '.';
      assert uri == uri[..i] + ".." + uri[i + 2..];
    } else {
      forall a, b ensures uri != a + ".." + b {
        var whole := a + ".." + b;
        assert whole[|a|] == '.' && whole[|a| + 1] == '.';
      }
    }
    if uri != [] {
      forall c ensures c in uri <==> c == uri[0] || c in uri[1..] {
        assert uri == [uri[0]] + uri[1..];
      }
    }
  }

  // ---- Paths

  lemma {:induction false} SegmentsPlain(path: string)
    ensures forall s | s in Split(path) :: '/' !in s && forall c | c in s :: c in path
  {
    if path != [] {
      SegmentsPlain(path[1..]);
      var rest, whole := Split(path[1..]), Split(path);
      assert forall c | c in path[1..] :: c in path;
      forall s | s in whole ensures '/' !in s && forall c | c in s :: c in path {
        if path[0] == '/' {
          assert s == [] || s in rest;
        } else {
          assert rest[0] in rest;
          assert s == [path[0]] + rest[0] || s in rest;
        }
      }
    }
  }

  lemma {:induction false} SplitOfJoin(segments: seq<string>)
    requires segments != [] && forall s | s in segments :: '/' !in s
    ensures Split(Join(segments)) == segments
  {
    if |segments| == 1 {
      SplitPlain(segments[0]);
    } else {
      assert segments[0] in segments && forall s | s in segments[1..] :: s in segments;
      SplitOfJoin(segments[1..]);
      SplitJoined(segments[0], Join(segments[1..]));
      assert segments == [segments[0]] + segments[1..];
    }
  }

  lemma {:induction false} JoinHolds(segments: seq<string>, c: char)
    requires segments != []
    ensures c in Join(segments) ==> c == '/' || exists s :: s in segments && c in s
  {
    if |segments| > 1 {
      JoinHolds(segments[1..], c);
      assert segments[0] in segments && forall s | s in segments[1..] :: s in segments;
    } else {
      assert segments[0] in segments;
    }
  }

  ghost predicate PlainSegments(segments: seq<string>)
  {
    && 1 <= |segments| <= 10
    && forall s | s in segments :: s !in {"", ".", ".."} && '/' !in s && '\\' !in s && '\0' !in s
  }

  // A path is one to ten segments with a slash between two, none of them empty, "." or "..".
  lemma PathInTerms(path: string)
    ensures ValidPath(path) <==> exists segments :: PlainSegments(segments) && path == Join(segments)
  {
    if ValidPath(path) {
      SegmentsPlain(path);
      JoinSplit(path);
      forall s | s in Split(path) ensures s !in {"", ".", ".."} && '/' !in s && '\\' !in s && '\0' !in s {
        assert NormalSegment(s);
      }
      assert PlainSegments(Split(path));
    }
    if segments :| PlainSegments(segments) && path == Join(segments) {
      SplitOfJoin(segments);
      JoinHolds(segments, '\\');
      JoinHolds(segments, '\0');
    }
  }

  // ---- Acceptance

  ghost predicate NamedMarkdown(path: string) { exists stem: string :: path == stem + ".md" }

  lemma MarkdownInTerms(path: string)
    ensures IsMarkdown(path) <==> NamedMarkdown(path)
  {
    if IsMarkdown(path) { assert path == path[..|path| - 3] + ".md"; }
  }

  ghost predicate IsText(v: Value, name: string, text: string)
  {
    v.Object? && name in v.members && v.members[name] == Str(text)
  }

  // Signed by the key expected, about the name expected, referred to by the reference expected, and not expired.
  ghost predicate Vouched(c: Crypto, m: Value, signature: string, e: Expectation)
  {
    && m.Object? && FloatFree(m)
    && IsText(m, "public_key", e.key) && c.verify(e.key, signature, Canonical(m))
    && IsText(m, "uri", e.uri)
    && c.sha256(Canonical(m)) == e.ref
    && ("expires_at" !in m.members || m.members["expires_at"].Null? ||
        (m.members["expires_at"].Integer? && e.now <= m.members["expires_at"].i < 0x8000_0000_0000_0000))
  }

  // At most a thousand files, whatever is declared, of 52,428,800 bytes together.
  ghost predicate Moderate(m: Value, files: map<string, Value>)
    requires m.Object?
  {
    && |files| <= 1000
    && ("file_count" !in m.members ||
        (m.members["file_count"].Integer? && 0 <= m.members["file_count"].i <= 1000))
    && TotalSize(files, SortedKeys(files.Keys), 0) <= 52_428_800
  }

  // The i-th entry is the last one listed for its path.
  ghost predicate LastListed(entries: seq<Value>, i: nat, path: string)
  {
    && i < |entries| && IsText(entries[i], "path", path)
    && forall j | i < j < |entries| :: !IsText(entries[j], "path", path)
  }

  ghost predicate IsEntry(v: Value)
  {
    v.Object? && "path" in v.members && v.members["path"].Str? && "hash" in v.members && v.members["hash"].Str?
  }

  ghost predicate IsEntryOf(v: Value, files: map<string, Value>)
  {
    IsEntry(v) && v.members["path"].s in files
  }

  ghost predicate HashListed(entries: seq<Value>, path: string, hash: string)
  {
    exists i: nat :: LastListed(entries, i, path) && IsText(entries[i], "hash", hash)
  }

  // The manifest lists the files and no others, each with a path and a hash, the last one for a path counting.
  ghost predicate ListsFiles(c: Crypto, entries: seq<Value>, files: map<string, Value>)
  {
    && (forall i | 0 <= i < |entries| :: IsEntryOf(entries[i], files))
    && forall p | p in files ::
        && files[p].Str? && ValidPath(p) && NamedMarkdown(p)
        && HashListed(entries, p, c.sha256(Utf8(files[p].s)))
  }

  ghost predicate Shaped(b: Value)
  {
    && b.Object? && {"manifest", "signature", "files"} <= b.members.Keys
    && b.members["manifest"].Object? && b.members["signature"].Str? && b.members["files"].Object?
  }

  // A response that is all it should be.
  ghost predicate Sound(c: Crypto, b: Value, e: Expectation)
  {
    && Shaped(b)
    && var m, files := b.members["manifest"], b.members["files"].members;
    && Vouched(c, m, b.members["signature"].s, e)
    && Moderate(m, files)
    && "files" in m.members && m.members["files"].Array? && ListsFiles(c, m.members["files"].items, files)
  }

  ghost predicate Tells(entries: seq<Value>, expected: map<string, string>, p: string)
  {
    && (p in expected <==> exists i: nat :: LastListed(entries, i, p))
    && forall i: nat | LastListed(entries, i, p) :: IsText(entries[i], "hash", expected[p])
  }

  // The second loop's table, as the entries tell it.
  lemma {:induction false} ListedExactly(entries: seq<Value>)
    ensures Expected(entries).Some? <==> forall i | 0 <= i < |entries| :: IsEntry(entries[i])
    ensures Expected(entries).Some? ==> forall p :: Tells(entries, Expected(entries).value, p)
  {
    if entries != [] {
      var n := |entries| - 1;
      var init, last := entries[..n], entries[n];
      ListedExactly(init);
      assert IsEntry(last) <==> GetStr(last, "path").Some? && GetStr(last, "hash").Some?;
      if Expected(init).Some? && IsEntry(last) {
        forall p ensures Tells(entries, Expected(entries).value, p) {
          OneMoreListed(entries, Expected(init).value, p);
        }
      }
    }
  }

  lemma OneMoreListed(entries: seq<Value>, before: map<string, string>, p: string)
    requires entries != [] && IsEntry(entries[|entries| - 1]) && Tells(entries[..|entries| - 1], before, p)
    ensures var last := entries[|entries| - 1];
      Tells(entries, before[last.members["path"].s := last.members["hash"].s], p)
  {
    var init, last := entries[..|entries| - 1], entries[|entries| - 1];
    if IsText(last, "path", p) {
      assert LastListed(entries, |entries| - 1, p);
    } else {
      forall i: nat ensures LastListed(entries, i, p) <==> LastListed(init, i, p) {}
      if p in before {
        var i: nat :| LastListed(init, i, p);
        assert LastListed(entries, i, p);
      }
      assert forall i: nat | LastListed(entries, i, p) :: LastListed(init, i, p) && entries[i] == init[i];
    }
  }

  lemma PathsInTerms(entries: seq<Value>, expected: map<string, string>, files: map<string, Value>)
    requires (forall i | 0 <= i < |entries| :: IsEntry(entries[i])) && forall p :: Tells(entries, expected, p)
    ensures expected.Keys <= files.Keys <==> forall i | 0 <= i < |entries| :: IsEntryOf(entries[i], files)
  {
    forall i | 0 <= i < |entries| ensures entries[i].members["path"].s in expected {
      LaterListed(entries, i, entries[i].members["path"].s);
      assert Tells(entries, expected, entries[i].members["path"].s);
    }
    if forall i | 0 <= i < |entries| :: IsEntryOf(entries[i], files) {
      forall p | p in expected ensures p in files {
        assert Tells(entries, expected, p);
        var i: nat :| LastListed(entries, i, p);
      }
    }
  }

  lemma HashInTerms(entries: seq<Value>, expected: map<string, string>, p: string, hash: string)
    requires Tells(entries, expected, p)
    ensures p in expected && expected[p] == hash <==> HashListed(entries, p, hash)
  {
  }

  lemma ListingInTerms(c: Crypto, m: Value, files: map<string, Value>)
    requires m.Object?
    requires forall p | p in files :: FileOk(files, p)
    ensures HashesOk(c, m, files) <==>
      "files" in m.members && m.members["files"].Array? && ListsFiles(c, m.members["files"].items, files)
  {
    hide ValidPath;
    hide Utf8;
    hide IsEntry;
    hide Expected;
    if "files" in m.members && m.members["files"].Array? {
      var entries := m.members["files"].items;
      ListedExactly(entries);
      if Expected(entries).Some? {
        PathsInTerms(entries, Expected(entries).value, files);
        TableInTerms(c, entries, Expected(entries).value, files);
      }
    }
  }

  lemma TableInTerms(c: Crypto, entries: seq<Value>, expected: map<string, string>, files: map<string, Value>)
    requires (forall i | 0 <= i < |entries| :: IsEntry(entries[i])) && forall p :: Tells(entries, expected, p)
    requires expected.Keys <= files.Keys <==> forall i | 0 <= i < |entries| :: IsEntryOf(entries[i], files)
    requires forall p | p in files :: FileOk(files, p)
    ensures ListsFiles(c, entries, files) <==>
      && expected.Keys == files.Keys
      && forall p | p in files ::
          files[p].Str? && IsMarkdown(p) && c.sha256(Utf8(files[p].s)) == expected[p]
  {
    hide ValidPath;
    hide Utf8;
    hide HashListed;
    hide IsEntry;
    forall p | p in files
      ensures (IsMarkdown(p) <==> NamedMarkdown(p)) && files[p].Str?
      ensures p in expected && expected[p] == c.sha256(Utf8(files[p].s)) <==>
        HashListed(entries, p, c.sha256(Utf8(files[p].s)))
    {
      MarkdownInTerms(p);
      HashInTerms(entries, expected, p, c.sha256(Utf8(files[p].s)));
    }
    hide IsMarkdown;
    hide NamedMarkdown;
    hide Tells;
  }

  lemma NotListed(c: Crypto, m: Value, files: map<string, Value>)
    ensures forall entries :: ListsFiles(c, entries, files) ==> forall p | p in files :: FileOk(files, p)
  {
    hide ValidPath;
    hide Utf8;
  }

  // Of the entries for a path there is a last one.
  lemma {:induction false} LaterListed(entries: seq<Value>, i: nat, p: string)
    requires i < |entries| && IsText(entries[i], "path", p)
    ensures exists j: nat :: LastListed(entries, j, p)
    decreases |entries| - i
  {
    if j: nat :| i < j < |entries| && IsText(entries[j], "path", p) {
      LaterListed(entries, j, p);
    } else {
      assert LastListed(entries, i, p);
    }
  }

  lemma ShapeInTerms(b: Value)
    ensures Shape(b) <==> Shaped(b)
    ensures Shape(b) ==>
      && Manifest(b) == b.members["manifest"] && Signature(b) == b.members["signature"].s
      && FileMap(b) == b.members["files"].members
  {
  }

  lemma HeadInTerms(c: Crypto, b: Value, e: Expectation)
    requires Shape(b)
    ensures HeadOk(c, b, e) <==> Vouched(c, Manifest(b), Signature(b), e)
    ensures CountOk(b) && TotalSize(FileMap(b), SortedKeys(FileMap(b).Keys), 0) <= MAX_BUNDLE_TOTAL_SIZE <==>
      Moderate(Manifest(b), FileMap(b))
  {
    hide Canonical;
    hide FloatFree;
    hide TotalSize;
    var m := Manifest(b);
    assert Get(m, "expires_at").Some? <==> "expires_at" in m.members;
    assert Get(m, "file_count").Some? <==> "file_count" in m.members;
  }

  // The check accepts exactly the sound responses.
  lemma AcceptedInTerms(c: Crypto, b: Value, e: Expectation)
    ensures Check(c, b, e).Success? <==> Sound(c, b, e)
  {
    hide Check;
    hide Canonical;
    hide FloatFree;
    hide TotalSize;
    hide ListsFiles;
    hide HashesOk;
    AcceptedIffAcceptable(c, b, e);
    ShapeInTerms(b);
    if Shape(b) {
      var m, files := Manifest(b), FileMap(b);
      HeadInTerms(c, b, e);
      if forall p | p in files :: FileOk(files, p) { ListingInTerms(c, m, files); }
      NotListed(c, m, files);
    }
  }

  // ---- Markdown

  lemma DeliveredIsMarkdown(c: Crypto, b: Value, e: Expectation)
    requires Check(c, b, e).Success?
    ensures forall f | f in Check(c, b, e).value :: NamedMarkdown(f.0)
  {
    AcceptedIffAcceptable(c, b, e);
    hide Check;
    hide IsMarkdown;
    hide NamedMarkdown;
    hide SortedKeys;
    hide ValidPath;
    var files, accepted := FileMap(b), Check(c, b, e).value;
    var keys := SortedKeys(files.Keys);
    forall f | f in accepted ensures NamedMarkdown(f.0) {
      var j :| 0 <= j < |accepted| && accepted[j] == f;
      assert f.0 == keys[j] && keys[j] in files;
      MarkdownInTerms(f.0);
    }
  }

  // A path is refused as not Markdown only if it is one of the files and does not end in ".md".
  lemma RefusedIsNotMarkdown(c: Crypto, b: Value, e: Expectation, p: string)
    requires Check(c, b, e) == Failure(NotMarkdown(p))
    ensures Shape(b) && p in FileMap(b) && !NamedMarkdown(p)
  {
    RejectionIsHonest(c, b, e);
    hide Check;
    MarkdownInTerms(p);
  }

  lemma {:induction false} FirstFault(c: Crypto, accepted: Files, expected: map<string, string>, i: nat, n: nat)
    requires i <= n < |accepted| && forall j | 0 <= j < |accepted| :: accepted[j].0 in expected
    requires forall j | i <= j < n :: IsMarkdown(accepted[j].0) && c.sha256(accepted[j].1) == expected[accepted[j].0]
    requires !IsMarkdown(accepted[n].0)
    ensures HashCheck(c, accepted, expected, i) == Some(NotMarkdown(accepted[n].0))
    decreases n - i
  {
    hide IsMarkdown;
    if i < n { FirstFault(c, accepted, expected, i + 1, n); }
  }

  lemma ContentRefused(c: Crypto, m: Value, files: map<string, Value>, p: string)
    requires FilesOk(files) && Entries(m).Some? && Entries(m).value.Keys == files.Keys
    requires forall q | q in files :: files[q].Str? && c.sha256(Utf8(files[q].s)) == Entries(m).value[q]
    requires p in files && !IsMarkdown(p) && forall q | q in files && ByteLess(q, p) :: IsMarkdown(q)
    ensures ContentCheck(c, m, files) == Failure(NotMarkdown(p))
  {
    hide Utf8;
    hide IsMarkdown;
    hide Scan;
    hide FilesOk;
    hide SortedKeys;
    hide ByteLess;
    hide HashCheck;
    hide Entries;
    var keys := SortedKeys(files.Keys);
    ScanIffFilesOk(files);
    var accepted := Scan(files, keys, 0, 0).value;
    ScanListsAll(files, accepted);
    SameListedKeys(Entries(m).value, files);
    assert p in keys;
    var n :| 0 <= n < |keys| && keys[n] == p;
    forall j | 0 <= j < |keys| ensures accepted[j].0 == keys[j] && keys[j] in files.Keys {
      assert keys[j] in keys;
    }
    FirstFault(c, accepted, Entries(m).value, 0, n);
  }

  lemma BehindTheHead(c: Crypto, b: Value, e: Expectation)
    requires Shape(b) && HeadOk(c, b, e) && CountOk(b)
    ensures Check(c, b, e) == ContentCheck(c, Manifest(b), FileMap(b))
  {
    hide VerifyManifest;
    hide ManifestRef;
    hide IsManifestExpired;
    hide ContentCheck;
  }

  // A response sound up to its count whose files are all valid and listed with their right hashes is refused exactly
  // if one of them does not end in ".md", and then for the first such in the order of the paths.
  lemma OnlyMarkdownIsMissing(c: Crypto, b: Value, e: Expectation)
    requires Shape(b) && HeadOk(c, b, e) && CountOk(b) && FilesOk(FileMap(b))
    requires Entries(Manifest(b)).Some? && Entries(Manifest(b)).value.Keys == FileMap(b).Keys
    requires forall p | p in FileMap(b) :: c.sha256(Utf8(FileMap(b)[p].s)) == Entries(Manifest(b)).value[p]
    ensures Check(c, b, e).Success? <==> forall p | p in FileMap(b) :: NamedMarkdown(p)
    ensures forall p | p in FileMap(b) && !NamedMarkdown(p) &&
        (forall q | q in FileMap(b) && ByteLess(q, p) :: NamedMarkdown(q)) ::
      Check(c, b, e) == Failure(NotMarkdown(p))
  {
    AcceptedIffAcceptable(c, b, e);
    BehindTheHead(c, b, e);
    forall p ensures IsMarkdown(p) <==> NamedMarkdown(p) { MarkdownInTerms(p); }
    hide IsMarkdown;
    hide NamedMarkdown;
    hide Check;
    hide Utf8;
    hide Entries;
    hide ByteLess;
    hide HeadOk;
    hide CountOk;
    hide FilesOk;
    hide ContentCheck;
    var m, files := Manifest(b), FileMap(b);
    EachIsText(files);
    hide Shape;
    forall p | p in files && !NamedMarkdown(p) && (forall q | q in files && ByteLess(q, p) :: NamedMarkdown(q))
      ensures Check(c, b, e) == Failure(NotMarkdown(p))
    {
      ContentRefused(c, m, files, p);
    }
  }

  lemma EachIsText(files: map<string, Value>)
    requires FilesOk(files)
    ensures forall p | p in files :: files[p].Str?
  {
    hide TotalSize;
  }

  // The same of what Python accepts.
  lemma PythonTakesOnlyMarkdown(
    py: PyLibrary, manifest: Value, files: map<string, Value>, order: seq<string>, site: seq<string>)
    requires Enumerates(order, files.Keys) && PyPayloadOk(py, manifest, files, order, site)
    ensures forall p | p in files :: NamedMarkdown(p)
  {
    forall p | p in files ensures NamedMarkdown(p) {
      assert HashOk(py, files, PyEntries(manifest).value, p);
      MarkdownInTerms(p);
    }
  }

  // ---- Records

  ghost predicate HasText(v: Value, name: string) { v.Object? && name in v.members && v.members[name].Str? }

  ghost predicate HasNumber(v: Value, name: string)
  {
    && v.Object? && name in v.members && v.members[name].Integer?
    && v.members[name].i < 0x8000_0000_0000_0000
  }

  // Signed by the key the record itself names in this field.
  ghost predicate SelfSigned(c: Crypto, record: Value, keyField: string, signature: string)
  {
    HasText(record, keyField) && FloatFree(record) &&
    c.verify(record.members[keyField].s, signature, Canonical(record))
  }

  // Dated at most so many seconds from now, by the distance 64-bit arithmetic gives.
  ghost predicate InTime(record: Value, maxDrift: Option<i64>, now: i64)
  {
    && HasNumber(record, "timestamp")
    && (maxDrift.None? || DriftOf(now, record.members["timestamp"].i) <= maxDrift.value)
  }

  // A name record is accepted exactly if it has its five fields, is in time, and is signed by the key it names.
  lemma NameRecordInTerms(c: Crypto, record: Value, signature: string, maxDrift: Option<i64>, now: i64)
    ensures VerifyNameRecord(c, record, signature, maxDrift, now).None? <==>
      && record.Object? && {"uri", "author", "public_key", "manifest_ref", "timestamp"} <= record.members.Keys
      && InTime(record, maxDrift, now) && SelfSigned(c, record, "public_key", signature)
  {
    hide Canonical;
    hide FloatFree;
    if record.Object? { RequireNameFields(record.members); }
    hide Require;
  }

  // An assignment is accepted exactly if it has its six fields, names reviewers, has a deadline after 1970, has the
  // content key of its own name and key, is in time, and is signed by the key it names.
  lemma AssignmentInTerms(c: Crypto, record: Value, signature: string, maxDrift: Option<i64>, now: i64)
    ensures VerifyReviewAssignment(c, record, signature, maxDrift, now).None? <==>
      && record.Object?
      && {"uri", "content_key", "publisher_public_key", "reviewer_public_keys", "deadline", "timestamp"} <=
         record.members.Keys
      && record.members["reviewer_public_keys"].Array?
      && (forall x | x in record.members["reviewer_public_keys"].items :: x.Str?)
      && HasNumber(record, "deadline") && 0 < record.members["deadline"].i
      && IsText(record, "content_key",
           "/mdp2p/" + c.sha256(Utf8((if HasText(record, "uri") then record.members["uri"].s else "") + ":" +
             (if HasText(record, "publisher_public_key") then record.members["publisher_public_key"].s else ""))))
      && InTime(record, maxDrift, now) && SelfSigned(c, record, "publisher_public_key", signature)
  {
    hide Canonical;
    hide FloatFree;
    hide Utf8;
    if record.Object? { RequireAssignmentFields(record.members); }
    hide Require;
  }

  lemma RequireAssignmentFields(members: map<string, Value>)
    ensures Require(members, ASSIGNMENT_FIELDS).None? <==>
      {"uri", "content_key", "publisher_public_key", "reviewer_public_keys", "deadline", "timestamp"} <= members.Keys
  {
    var f := ASSIGNMENT_FIELDS;
    assert f[0] == "uri" && f[1] == "content_key" && f[2] == "publisher_public_key";
    assert f[3] == "reviewer_public_keys" && f[4] == "deadline" && f[5] == "timestamp";
  }

  // A naming answer that is refused is no answer with a signed record, has a record that does not verify, is about
  // another name, or lacks a field of the right kind.
  lemma AnswerRefusedInTerms(c: Crypto, uri: string, answer: Value)
    ensures var r := CheckResolvedRecord(c, uri, answer);
      var given := IsText(answer, "type", "record") && "record" in answer.members && HasText(answer, "signature");
      && (!given ==> r == Failure(MalformedAnswer))
      && (given ==>
          var record, signature := answer.members["record"], answer.members["signature"].s;
          var err := VerifyNameRecord(c, record, signature, None, 0);
          && (err.Some? ==> r == Failure(ResolveError.Record(err.value)))
          && (err.None? && !IsText(record, "uri", uri) ==> r == Failure(WrongUri))
          && (err.None? && IsText(record, "uri", uri) && !HasText(record, "manifest_ref") ==>
              r == Failure(MalformedAnswer)))
  {
    hide VerifyNameRecord;
  }

  // ---- What Python compares

  // The number a comparison in Python takes a value for: a boolean counts one or zero.
  ghost predicate CountsAs(v: Value, x: real)
  {
    || (v.Integer? && x == v.i as real)
    || (v.Float? && x == v.r)
    || (v.Bool? && x == if v.b then 1.0 else 0.0)
  }

  lemma PythonInTerms(py: PyLibrary, m: Value, signature: string, key: string, now: int, count: nat)
    requires m.Object?
    ensures PyVerifyManifest(py, m, signature, key) <==>
      IsText(m, "public_key", py.reencode(key)) && py.verify(key, signature, py.dumps(m))
    ensures PyNotExpired(m, now) <==>
      "expires_at" !in m.members || m.members["expires_at"].Null? ||
      exists x :: CountsAs(m.members["expires_at"], x) && now as real <= x
    ensures PyCountOk(m, count) <==>
      count <= 1000 && ("file_count" !in m.members || exists x :: CountsAs(m.members["file_count"], x) && x <= 1000.0)
  {
    if "expires_at" in m.members { NumberIs(m.members["expires_at"]); }
    if "file_count" in m.members { NumberIs(m.members["file_count"]); }
  }

  lemma NumberIs(v: Value)
    ensures forall x :: CountsAs(v, x) <==> AsNumber(v) == Some(x)
  {
  }
}
