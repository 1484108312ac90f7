/**
 Acceptance of a seeder's response (rust/mdp2p-core/src/fetch.rs:126-206). `Check` follows the program
 check by check; `Acceptable` says, without an order, what an acceptable response is; the lemmas
 relate the two. `CheckDownloadedBundle` is the program's own form, with its three loops.
 */
module Bundle {
  import opened Json
  import opened Paths
  import opened Printer
  import Reader
  import opened Records
  import opened Text
  import opened Wrappers

  const MAX_BUNDLE_FILES := 1000
  const MAX_BUNDLE_TOTAL_SIZE := 50 * 1024 * 1024

  datatype BundleReject =
    | Malformed
    | BadSignatureOnManifest
    | UriMismatch
    | RefMismatch
    | Expired
    | TooManyFiles
    | BadPath(path: string)
    | TooLarge
    | FilesMismatch
    | NotMarkdown(path: string)
    | Corrupted(path: string)

  type Files = seq<(string, bytes)>

  // What the client expects: the name it asked for, what the naming record committed it to, its clock.
  datatype Expectation = Expectation(uri: string, key: string, ref: string, now: int)

  // ---- The response, once its shape is known

  predicate Shape(b: Value)
  {
    && Get(b, "manifest").Some? && Get(b, "manifest").value.Object?
    && GetStr(b, "signature").Some?
    && Get(b, "files").Some? && Get(b, "files").value.Object?
  }

  function Manifest(b: Value): Value requires Shape(b) { Get(b, "manifest").value }

  function Signature(b: Value): string requires Shape(b) { GetStr(b, "signature").value }

  function FileMap(b: Value): map<string, Value> requires Shape(b) { Get(b, "files").value.members }

  // ---- The checks one by one

  function HeadCheck(c: Crypto, b: Value, e: Expectation): Option<BundleReject>
  {
    if !Shape(b) then Some(Malformed)
    else if !VerifyManifest(c, Manifest(b), Signature(b), e.key) then Some(BadSignatureOnManifest)
    else if GetStr(Manifest(b), "uri") != Some(e.uri) then Some(UriMismatch)
    else if ManifestRef(c, Manifest(b)) != Some(e.ref) then Some(RefMismatch)
    else if IsManifestExpired(Manifest(b), e.now) then Some(Expired)
    else None
  }

  function DeclaredCount(manifest: Value, actual: nat): Option<nat>
  {
    var field := Get(manifest, "file_count");
    if field.None? then Some(actual) else AsU64(field.value)
  }

  function CountCheck(b: Value): Option<BundleReject>
    requires Shape(b)
  {
    var declared := DeclaredCount(Manifest(b), |FileMap(b)|);
    if declared.None? then Some(Malformed)
    else if declared.value > MAX_BUNDLE_FILES || |FileMap(b)| > MAX_BUNDLE_FILES then Some(TooManyFiles)
    else None
  }

  // The first loop from the i-th file on, `total` bytes having been seen.
  function Scan(files: map<string, Value>, keys: seq<string>, i: nat, total: nat): Result<Files, BundleReject>
    requires i <= |keys| && forall j | 0 <= j < |keys| :: keys[j] in files
    decreases |keys| - i
  {
    if i == |keys| then Success([])
    else
      var p, content := keys[i], files[keys[i]];
      if !content.Str? then Failure(Malformed)
      else if !ValidPath(p) then Failure(BadPath(p))
      else
        var raw := Utf8(content.s);
        if total + |raw| > MAX_BUNDLE_TOTAL_SIZE then Failure(TooLarge)
        else
          var more := Scan(files, keys, i + 1, total + |raw|);
          if more.Failure? then more else Success([(p, raw)] + more.value)
  }

  // The second loop: the last entry listed for a path counts.
  function Expected(entries: seq<Value>): Option<map<string, string>>
  {
    if entries == [] then Some(map[])
    else
      var before := Expected(entries[..|entries| - 1]);
      var entry := entries[|entries| - 1];
      var path, hash := GetStr(entry, "path"), GetStr(entry, "hash");
      if before.None? || path.None? || hash.None? then None else Some(before.value[path.value := hash.value])
  }

  function Entries(manifest: Value): Option<map<string, string>>
  {
    var field := Get(manifest, "files");
    if field.None? || !field.value.Array? then None else Expected(field.value.items)
  }

  predicate IsMarkdown(path: string)
  {
    |path| >= 3 && path[|path| - 3..] == ".md"
  }

  // The third loop from the i-th accepted file on.
  function HashCheck(c: Crypto, accepted: Files, expected: map<string, string>, i: nat): (r: Option<BundleReject>)
    requires i <= |accepted| && forall j | 0 <= j < |accepted| :: accepted[j].0 in expected
    ensures r.Some? ==> r.value.NotMarkdown? || r.value.Corrupted?
    decreases |accepted| - i
  {
    if i == |accepted| then None
    else if !IsMarkdown(accepted[i].0) then Some(NotMarkdown(accepted[i].0))
    else if c.sha256(accepted[i].1) != expected[accepted[i].0] then Some(Corrupted(accepted[i].0))
    else HashCheck(c, accepted, expected, i + 1)
  }

  // After the first loop: the listed set of paths, then the third loop.
  function ListingCheck(
    c: Crypto, manifest: Value, files: map<string, Value>, accepted: Files): (r: Option<BundleReject>)
    requires forall j | 0 <= j < |accepted| :: accepted[j].0 in files
    ensures r.Some? ==> r.value in {Malformed, FilesMismatch} || r.value.NotMarkdown? || r.value.Corrupted?
  {
    var expected := Entries(manifest);
    if expected.None? then Some(Malformed)
    else if |expected.value| != |files| || !(forall p | p in files :: p in expected.value) then Some(FilesMismatch)
    else HashCheck(c, accepted, expected.value, 0)
  }

  function ContentCheck(c: Crypto, manifest: Value, files: map<string, Value>): Result<Files, BundleReject>
  {
    var keys := SortedKeys(files.Keys);
    var accepted := Scan(files, keys, 0, 0);
    if accepted.Failure? then accepted
    else
      ScanLists(files, keys, 0, 0);
      assert forall j | 0 <= j < |keys| :: accepted.value[j].0 == keys[j];
      var bad := ListingCheck(c, manifest, files, accepted.value);
      if bad.Some? then Failure(bad.value) else accepted
  }

  function Check(c: Crypto, b: Value, e: Expectation): Result<Files, BundleReject>
  {
    var head := HeadCheck(c, b, e);
    if head.Some? then Failure(head.value)
    else
      var count := CountCheck(b);
      if count.Some? then Failure(count.value)
      else ContentCheck(c, Manifest(b), FileMap(b))
  }

  lemma {:induction false} ScanLists(files: map<string, Value>, keys: seq<string>, i: nat, total: nat)
    requires i <= |keys| && forall j | 0 <= j < |keys| :: keys[j] in files
    ensures var r := Scan(files, keys, i, total);
      r.Success? ==>
        && |r.value| == |keys| - i
        && forall j | i <= j < |keys| ::
            && r.value[j - i].0 == keys[j] && files[keys[j]].Str? && ValidPath(keys[j])
            && r.value[j - i].1 == Utf8(files[keys[j]].s)
    decreases |keys| - i
  {
    if i < |keys| && files[keys[i]].Str? {
      var raw := Utf8(files[keys[i]].s);
      ScanLists(files, keys, i + 1, total + |raw|);
      var more := Scan(files, keys, i + 1, total + |raw|);
      var r := Scan(files, keys, i, total);
      if r.Success? {
        forall j | i < j < |keys|
          ensures r.value[j - i].0 == keys[j] && r.value[j - i].1 == Utf8(files[keys[j]].s)
        {
          assert r.value[j - i] == more.value[j - (i + 1)];
        }
      }
    }
  }

  // ---- What an acceptable response is

  ghost predicate HeadOk(c: Crypto, b: Value, e: Expectation)
  {
    && Shape(b)
    && VerifyManifest(c, Manifest(b), Signature(b), e.key)
    && GetStr(Manifest(b), "uri") == Some(e.uri)
    && ManifestRef(c, Manifest(b)) == Some(e.ref)
    && !IsManifestExpired(Manifest(b), e.now)
  }

  ghost predicate CountOk(b: Value)
    requires Shape(b)
  {
    && |FileMap(b)| <= MAX_BUNDLE_FILES
    && (Get(Manifest(b), "file_count").Some? ==>
        AsU64(Get(Manifest(b), "file_count").value).Some? &&
        AsU64(Get(Manifest(b), "file_count").value).value <= MAX_BUNDLE_FILES)
  }

  ghost predicate FileOk(files: map<string, Value>, p: string)
    requires p in files
  {
    files[p].Str? && ValidPath(p)
  }

  function SizeOf(v: Value): nat { if v.Str? then |Utf8(v.s)| else 0 }

  // The bytes of the files listed from index i on.
  ghost function TotalSize(files: map<string, Value>, keys: seq<string>, i: nat): nat
    requires i <= |keys| && forall j | 0 <= j < |keys| :: keys[j] in files
    decreases |keys| - i
  {
    if i == |keys| then 0 else SizeOf(files[keys[i]]) + TotalSize(files, keys, i + 1)
  }

  ghost predicate FilesOk(files: map<string, Value>)
  {
    && (forall p | p in files :: FileOk(files, p))
    && TotalSize(files, SortedKeys(files.Keys), 0) <= MAX_BUNDLE_TOTAL_SIZE
  }

  ghost predicate HashesOk(c: Crypto, manifest: Value, files: map<string, Value>)
  {
    && Entries(manifest).Some?
    && Entries(manifest).value.Keys == files.Keys
    && forall p | p in files ::
        files[p].Str? && IsMarkdown(p) && c.sha256(Utf8(files[p].s)) == Entries(manifest).value[p]
  }

  ghost predicate Acceptable(c: Crypto, b: Value, e: Expectation)
  {
    HeadOk(c, b, e) && CountOk(b) && FilesOk(FileMap(b)) && HashesOk(c, Manifest(b), FileMap(b))
  }

  // The accepted files are the response's, in key order.
  ghost predicate Carries(files: map<string, Value>, keys: seq<string>, accepted: Files)
  {
    && |accepted| == |keys|
    && forall j | 0 <= j < |keys| ::
        keys[j] in files && files[keys[j]].Str? && accepted[j].0 == keys[j] && accepted[j].1 == Utf8(files[keys[j]].s)
  }

  // The accepted files are exactly the response's, each path once, in key order, with the bytes of its text.
  ghost predicate Delivers(b: Value, accepted: Files)
    requires Shape(b)
  {
    Carries(FileMap(b), SortedKeys(FileMap(b).Keys), accepted)
  }

  // ---- The loops and the conditions

  ghost predicate RunFits(files: map<string, Value>, keys: seq<string>, i: nat, n: nat, total: nat)
    requires i <= n <= |keys| && forall j | 0 <= j < |keys| :: keys[j] in files
  {
    && (forall j | i <= j < n :: FileOk(files, keys[j]))
    && total + TotalSize(files, keys[..n], i) <= MAX_BUNDLE_TOTAL_SIZE
  }

  lemma {:induction false} TotalSizePrefix(files: map<string, Value>, keys: seq<string>, i: nat, n: nat)
    requires i <= n <= |keys| && forall j | 0 <= j < |keys| :: keys[j] in files
    ensures i < n ==> TotalSize(files, keys[..n], i) == SizeOf(files[keys[i]]) + TotalSize(files, keys[..n], i + 1)
    ensures TotalSize(files, keys[..n], i) <= TotalSize(files, keys, i)
    decreases n - i
  {
    if i < n { TotalSizePrefix(files, keys, i + 1, n); }
  }

  // Where the scan stops: before the n-th file everything fitted, and the n-th file is what it reports.
  ghost predicate StopsAt(files: map<string, Value>, keys: seq<string>, i: nat, total: nat, n: nat, r: BundleReject)
    requires i <= n < |keys| && forall j | 0 <= j < |keys| :: keys[j] in files
  {
    && RunFits(files, keys, i, n, total)
    && (r == Malformed <==> !files[keys[n]].Str?)
    && (r.BadPath? <==> files[keys[n]].Str? && !ValidPath(keys[n]))
    && (r.BadPath? ==> r.path == keys[n])
    && (r == TooLarge <==> FileOk(files, keys[n]) && total + TotalSize(files, keys[..n + 1], i) > MAX_BUNDLE_TOTAL_SIZE)
    && (r == Malformed || r.BadPath? || r == TooLarge)
  }

  // Paths and sizes are checked file by file, so the scan fails on the first file at which anything is
  // wrong, with what is wrong there: a path that comes later than an oversized run is never looked at.
  lemma {:induction false} ScanStops(files: map<string, Value>, keys: seq<string>, i: nat, total: nat) returns (n: nat)
    requires i <= |keys| && forall j | 0 <= j < |keys| :: keys[j] in files
    requires total <= MAX_BUNDLE_TOTAL_SIZE
    ensures i <= n <= |keys|
    ensures Scan(files, keys, i, total).Success? <==> n == |keys|
    ensures n == |keys| ==> RunFits(files, keys, i, n, total)
    ensures n < |keys| ==> StopsAt(files, keys, i, total, n, Scan(files, keys, i, total).error)
    decreases |keys| - i
  {
    if i == |keys| {
      n := i;
      assert TotalSize(files, keys[..n], i) == 0;
    } else {
      var raw := SizeOf(files[keys[i]]);
      TotalSizePrefix(files, keys, i, i + 1);
      assert TotalSize(files, keys[..i + 1], i + 1) == 0 && TotalSize(files, keys[..i], i) == 0;
      if FileOk(files, keys[i]) && total + raw <= MAX_BUNDLE_TOTAL_SIZE {
        n := ScanStops(files, keys, i + 1, total + raw);
        TotalSizePrefix(files, keys, i, n);
        if n < |keys| { TotalSizePrefix(files, keys, i, n + 1); }
      } else {
        n := i;
      }
    }
  }

  lemma {:induction false} HashCheckFinds(c: Crypto, accepted: Files, expected: map<string, string>, i: nat)
    requires i <= |accepted| && forall j | 0 <= j < |accepted| :: accepted[j].0 in expected
    ensures var r := HashCheck(c, accepted, expected, i);
      && (r.None? ==> forall j | i <= j < |accepted| ::
            IsMarkdown(accepted[j].0) && c.sha256(accepted[j].1) == expected[accepted[j].0])
      && (r.Some? ==> exists j :: i <= j < |accepted| && HashFault(c, accepted[j], expected, r.value))
    decreases |accepted| - i
  {
    if i < |accepted| {
      HashCheckFinds(c, accepted, expected, i + 1);
      var r := HashCheck(c, accepted, expected, i);
      if r.Some? && r != HashCheck(c, accepted, expected, i + 1) {
        assert HashFault(c, accepted[i], expected, r.value);
      }
    }
  }

  ghost predicate HashFault(c: Crypto, file: (string, bytes), expected: map<string, string>, r: BundleReject)
    requires file.0 in expected
  {
    || (r == NotMarkdown(file.0) && !IsMarkdown(file.0))
    || (r == Corrupted(file.0) && IsMarkdown(file.0) && c.sha256(file.1) != expected[file.0])
  }

  lemma SameKeys(a: set<string>, b: set<string>)
    requires |a| == |b| && b <= a
    ensures a == b
  {
    assert (a - b) + b == a;
    assert |(a - b) + b| == |a - b| + |b|;
    assert a - b == {};
  }

  // What the content checks report, and when they report nothing.
  ghost predicate ContentFault(c: Crypto, manifest: Value, files: map<string, Value>, r: BundleReject)
  {
    match r
    case BadPath(p) => p in files && !ValidPath(p)
    case TooLarge => TotalSize(files, SortedKeys(files.Keys), 0) > MAX_BUNDLE_TOTAL_SIZE
    case Malformed =>
      (exists p :: p in files && !files[p].Str?) || (FilesOk(files) && ListingFault(c, manifest, files, r))
    case _ => FilesOk(files) && ListingFault(c, manifest, files, r)
  }

  lemma ScanIffFilesOk(files: map<string, Value>)
    ensures var keys := SortedKeys(files.Keys); var r := Scan(files, keys, 0, 0);
      && (r.Success? <==> FilesOk(files))
      && (r.Failure? ==>
          || (r.error == Malformed && exists p :: p in files && !files[p].Str?)
          || (r.error.BadPath? && r.error.path in files && !ValidPath(r.error.path))
          || (r.error == TooLarge && TotalSize(files, keys, 0) > MAX_BUNDLE_TOTAL_SIZE))
  {
    assert 0 <= MAX_BUNDLE_TOTAL_SIZE;
    hide *;
    var keys := SortedKeys(files.Keys);
    var n := ScanStops(files, keys, 0, 0);
    if n == |keys| { AllFit(files, keys); } else { NotAllFit(files, keys, n, Scan(files, keys, 0, 0).error); }
  }

  lemma AllFit(files: map<string, Value>, keys: seq<string>)
    requires keys == SortedKeys(files.Keys) && RunFits(files, keys, 0, |keys|, 0)
    ensures FilesOk(files)
  {
    hide Utf8;
    hide ValidPath;
    hide SizeOf;
    hide SortedKeys;
    assert keys[..|keys|] == keys;
    forall p | p in files ensures FileOk(files, p) {
      assert p in keys;
    }
  }

  lemma NotAllFit(files: map<string, Value>, keys: seq<string>, n: nat, r: BundleReject)
    requires keys == SortedKeys(files.Keys) && n < |keys| && StopsAt(files, keys, 0, 0, n, r)
    ensures !FilesOk(files)
    ensures
      || (r == Malformed && exists p :: p in files && !files[p].Str?)
      || (r.BadPath? && r.path in files && !ValidPath(r.path))
      || (r == TooLarge && TotalSize(files, keys, 0) > MAX_BUNDLE_TOTAL_SIZE)
  {
    hide Utf8;
    hide ValidPath;
    hide SizeOf;
    hide SortedKeys;
    assert keys[n] in keys;
    TotalSizePrefix(files, keys, 0, n + 1);
  }

  lemma ScanListsAll(files: map<string, Value>, accepted: Files)
    requires Scan(files, SortedKeys(files.Keys), 0, 0) == Success(accepted)
    ensures Carries(files, SortedKeys(files.Keys), accepted)
  {
    hide Utf8;
    var keys := SortedKeys(files.Keys);
    ScanLists(files, keys, 0, 0);
    forall j | 0 <= j < |keys|
      ensures keys[j] in files && files[keys[j]].Str?
      ensures accepted[j].0 == keys[j] && accepted[j].1 == Utf8(files[keys[j]].s)
    {
      assert accepted[j - 0].0 == keys[j];
    }
  }

  // The third loop, once the set of paths is known to be the listed one.
  lemma HashCheckMeans(
    c: Crypto, files: map<string, Value>, keys: seq<string>, accepted: Files, expected: map<string, string>)
    requires Carries(files, keys, accepted) && expected.Keys == files.Keys
    requires forall k :: k in keys <==> k in files
    ensures forall j | 0 <= j < |accepted| :: accepted[j].0 in expected
    ensures var bad := HashCheck(c, accepted, expected, 0);
      && (bad.None? <==>
          forall p | p in files :: files[p].Str? && IsMarkdown(p) && c.sha256(Utf8(files[p].s)) == expected[p])
      && (bad.Some? ==> exists p ::
            && p in files && files[p].Str?
            && ((bad.value == NotMarkdown(p) && !IsMarkdown(p)) ||
                (bad.value == Corrupted(p) && IsMarkdown(p) && c.sha256(Utf8(files[p].s)) != expected[p])))
  {
    hide Utf8;
    hide HashCheck;
    hide IsMarkdown;
    assert forall j | 0 <= j < |accepted| :: accepted[j].0 == keys[j];
    HashCheckFinds(c, accepted, expected, 0);
    var bad := HashCheck(c, accepted, expected, 0);
    if bad.None? {
      forall p | p in files ensures files[p].Str? && IsMarkdown(p) && c.sha256(Utf8(files[p].s)) == expected[p] {
        assert p in keys;
        var j :| 0 <= j < |keys| && keys[j] == p;
        assert accepted[j].0 == p;
      }
    } else {
      var j :| 0 <= j < |accepted| && HashFault(c, accepted[j], expected, bad.value);
      assert accepted[j].0 == keys[j] && keys[j] in keys;
    }
  }

  // What the checks after the first loop report.
  ghost predicate ListingFault(c: Crypto, manifest: Value, files: map<string, Value>, r: BundleReject)
  {
    match r
    case Malformed => Entries(manifest).None?
    case FilesMismatch => Entries(manifest).Some? && Entries(manifest).value.Keys != files.Keys
    case NotMarkdown(p) =>
      Entries(manifest).Some? && Entries(manifest).value.Keys == files.Keys && p in files && !IsMarkdown(p)
    case Corrupted(p) =>
      && Entries(manifest).Some? && Entries(manifest).value.Keys == files.Keys
      && p in files && files[p].Str? && IsMarkdown(p) && c.sha256(Utf8(files[p].s)) != Entries(manifest).value[p]
    case _ => false
  }

  lemma SameListedKeys(expected: map<string, string>, files: map<string, Value>)
    ensures (|expected| == |files| && forall p | p in files :: p in expected) <==> expected.Keys == files.Keys
  {
    if |expected| == |files| && forall p | p in files :: p in expected {
      SameKeys(expected.Keys, files.Keys);
    }
    if expected.Keys == files.Keys {
      assert |expected| == |expected.Keys| && |files| == |files.Keys|;
      assert forall p :: p in files ==> p in files.Keys;
    }
  }

  lemma ListsFiles(files: map<string, Value>, keys: seq<string>, accepted: Files)
    requires Carries(files, keys, accepted)
    ensures forall j | 0 <= j < |accepted| :: accepted[j].0 in files
  {
    assert forall j | 0 <= j < |accepted| :: accepted[j].0 == keys[j];
  }

  lemma HashesNeedListing(c: Crypto, manifest: Value, files: map<string, Value>)
    requires Entries(manifest).None? || Entries(manifest).value.Keys != files.Keys
    ensures !HashesOk(c, manifest, files)
    ensures ListingFault(c, manifest, files, if Entries(manifest).None? then Malformed else FilesMismatch)
  {
  }

  lemma HashesWithListing(c: Crypto, manifest: Value, files: map<string, Value>, expected: map<string, string>)
    requires Entries(manifest) == Some(expected) && expected.Keys == files.Keys
    ensures HashesOk(c, manifest, files) <==>
      forall p | p in files :: files[p].Str? && IsMarkdown(p) && c.sha256(Utf8(files[p].s)) == expected[p]
  {
  }

  lemma HashFaults(c: Crypto, manifest: Value, files: map<string, Value>)
    requires Entries(manifest).Some? && Entries(manifest).value.Keys == files.Keys
    ensures forall p | p in files && !IsMarkdown(p) :: ListingFault(c, manifest, files, NotMarkdown(p))
    ensures forall p |
      p in files && files[p].Str? && IsMarkdown(p) && c.sha256(Utf8(files[p].s)) != Entries(manifest).value[p] ::
      ListingFault(c, manifest, files, Corrupted(p))
  {
  }

  lemma ListingCheckMeans(c: Crypto, manifest: Value, files: map<string, Value>, keys: seq<string>, accepted: Files)
    requires Carries(files, keys, accepted)
    requires forall k :: k in keys <==> k in files
    ensures forall j | 0 <= j < |accepted| :: accepted[j].0 in files
    ensures var bad := ListingCheck(c, manifest, files, accepted);
      && (bad.None? <==> HashesOk(c, manifest, files))
      && (bad.Some? ==> ListingFault(c, manifest, files, bad.value))
  {
    hide Utf8;
    hide Entries;
    hide HashCheck;
    hide IsMarkdown;
    hide Carries;
    hide HashesOk;
    hide ListingFault;
    ListsFiles(files, keys, accepted);
    if Entries(manifest).None? {
      HashesNeedListing(c, manifest, files);
    } else {
      var expected := Entries(manifest).value;
      SameListedKeys(expected, files);
      if expected.Keys == files.Keys {
        HashCheckMeans(c, files, keys, accepted, expected);
        HashesWithListing(c, manifest, files, expected);
        HashFaults(c, manifest, files);
      } else {
        HashesNeedListing(c, manifest, files);
      }
    }
  }

  lemma ContentCheckMeans(c: Crypto, manifest: Value, files: map<string, Value>)
    ensures var r := ContentCheck(c, manifest, files);
      && (r.Success? <==> FilesOk(files) && HashesOk(c, manifest, files))
      && (r.Failure? ==> ContentFault(c, manifest, files, r.error))
  {
    hide Utf8;
    hide Entries;
    hide Scan;
    hide ListingCheck;
    hide HashesOk;
    hide FilesOk;
    hide IsMarkdown;
    hide ValidPath;
    hide TotalSize;
    hide Carries;
    var keys := SortedKeys(files.Keys);
    ScanIffFilesOk(files);
    if FilesOk(files) {
      var accepted := Scan(files, keys, 0, 0).value;
      ScanListsAll(files, accepted);
      ListingCheckMeans(c, manifest, files, keys, accepted);
    }
  }

  lemma ContentDelivered(c: Crypto, b: Value)
    requires Shape(b) && ContentCheck(c, Manifest(b), FileMap(b)).Success?
    ensures Delivers(b, ContentCheck(c, Manifest(b), FileMap(b)).value)
  {
    hide Utf8;
    hide Entries;
    hide Scan;
    hide ListingCheck;
    var files := FileMap(b);
    ScanListsAll(files, Scan(files, SortedKeys(files.Keys), 0, 0).value);
  }

  // A response is accepted exactly when it is acceptable, and then delivers its own files.
  lemma AcceptedIffAcceptable(c: Crypto, b: Value, e: Expectation)
    ensures Check(c, b, e).Success? <==> Acceptable(c, b, e)
    ensures Check(c, b, e).Success? ==> Delivers(b, Check(c, b, e).value)
  {
    hide VerifyManifest;
    hide ManifestRef;
    hide IsManifestExpired;
    hide ContentCheck;
    hide HashesOk;
    hide FilesOk;
    hide Delivers;
    if Shape(b) {
      ContentCheckMeans(c, Manifest(b), FileMap(b));
      if ContentCheck(c, Manifest(b), FileMap(b)).Success? { ContentDelivered(c, b); }
    }
  }

  // The reported check really fails, and every stage before it holds: shape, signature, uri, ref,
  // expiry, count, and then the content checks.
  ghost predicate Honest(c: Crypto, b: Value, e: Expectation, r: BundleReject)
  {
    match r
    case BadSignatureOnManifest => Shape(b) && !VerifyManifest(c, Manifest(b), Signature(b), e.key)
    case UriMismatch =>
      && Shape(b) && VerifyManifest(c, Manifest(b), Signature(b), e.key)
      && GetStr(Manifest(b), "uri") != Some(e.uri)
    case RefMismatch =>
      && Shape(b) && VerifyManifest(c, Manifest(b), Signature(b), e.key)
      && GetStr(Manifest(b), "uri") == Some(e.uri) && ManifestRef(c, Manifest(b)) != Some(e.ref)
    case Expired =>
      && Shape(b) && VerifyManifest(c, Manifest(b), Signature(b), e.key)
      && GetStr(Manifest(b), "uri") == Some(e.uri) && ManifestRef(c, Manifest(b)) == Some(e.ref)
      && IsManifestExpired(Manifest(b), e.now)
    case TooManyFiles => HeadOk(c, b, e) && !CountOk(b) && DeclaredCount(Manifest(b), |FileMap(b)|).Some?
    case Malformed =>
      || !Shape(b)
      || (HeadOk(c, b, e) && DeclaredCount(Manifest(b), |FileMap(b)|).None?)
      || (HeadOk(c, b, e) && CountOk(b) && ContentFault(c, Manifest(b), FileMap(b), r))
    case _ => HeadOk(c, b, e) && CountOk(b) && ContentFault(c, Manifest(b), FileMap(b), r)
  }

  lemma RejectionIsHonest(c: Crypto, b: Value, e: Expectation)
    ensures Check(c, b, e).Failure? ==> Honest(c, b, e, Check(c, b, e).error)
  {
    hide VerifyManifest;
    hide ManifestRef;
    hide IsManifestExpired;
    hide ContentCheck;
    hide Entries;
    hide FilesOk;
    hide TotalSize;
    hide IsMarkdown;
    hide ValidPath;
    hide Utf8;
    if Shape(b) {
      ContentCheckMeans(c, Manifest(b), FileMap(b));
    }
  }

  lemma {:induction false} TotalSizeGrows(files: map<string, Value>, keys: seq<string>, i: nat, n: nat, m: nat)
    requires i <= n <= m <= |keys| && forall j | 0 <= j < |keys| :: keys[j] in files
    ensures TotalSize(files, keys[..n], i) <= TotalSize(files, keys[..m], i)
    decreases n - i
  {
    hide SizeOf;
    if i < n {
      TotalSizePrefix(files, keys, i, n);
      TotalSizePrefix(files, keys, i, m);
      TotalSizeGrows(files, keys, i + 1, n, m);
    }
  }

  ghost predicate Overflows(files: map<string, Value>, keys: seq<string>, n: nat)
    requires n < |keys| && forall j | 0 <= j < |keys| :: keys[j] in files
  {
    (forall j | 0 <= j <= n :: FileOk(files, keys[j])) && TotalSize(files, keys[..n + 1], 0) > MAX_BUNDLE_TOTAL_SIZE
  }

  ghost predicate SomeRunOverflows(files: map<string, Value>, keys: seq<string>)
    requires forall j | 0 <= j < |keys| :: keys[j] in files
  {
    exists n :: 0 <= n < |keys| && Overflows(files, keys, n)
  }

  lemma ScanTooLargeExactly(files: map<string, Value>, keys: seq<string>)
    requires forall j | 0 <= j < |keys| :: keys[j] in files
    ensures Scan(files, keys, 0, 0) == Failure(TooLarge) <==> SomeRunOverflows(files, keys)
  {
    hide Utf8;
    hide Scan;
    hide ValidPath;
    hide SizeOf;
    hide TotalSize;
    var n := ScanStops(files, keys, 0, 0);
    if n < |keys| && Scan(files, keys, 0, 0).error == TooLarge {
      assert Overflows(files, keys, n);
    }
    if m :| 0 <= m < |keys| && Overflows(files, keys, m) {
      OverflowIsFirst(files, keys, n, m);
    }
  }

  // Exactly when the size is what is reported: some run of files from the start, in key order, is sound
  // and too large, whatever the files after it look like.
  lemma TooLargeExactly(c: Crypto, manifest: Value, files: map<string, Value>)
    ensures ContentCheck(c, manifest, files) == Failure(TooLarge) <==> SomeRunOverflows(files, SortedKeys(files.Keys))
  {
    hide Scan;
    hide SomeRunOverflows;
    hide ListingCheck;
    ScanTooLargeExactly(files, SortedKeys(files.Keys));
  }

  lemma OverflowIsFirst(files: map<string, Value>, keys: seq<string>, n: nat, m: nat)
    requires n <= |keys| && m < |keys| && forall j | 0 <= j < |keys| :: keys[j] in files
    requires RunFits(files, keys, 0, n, 0) && Overflows(files, keys, m)
    ensures n <= m && FileOk(files, keys[n])
  {
    hide TotalSize;
    hide FileOk;
    if m < n {
      TotalSizeGrows(files, keys, 0, m + 1, n);
      assert false;
    }
  }

  lemma PlainNameIsValid(name: string)
    requires '/' !in name && '\\' !in name && '\0' !in name && NormalSegment(name)
    ensures ValidPath(name)
  {
    SplitPlain(name);
  }

  // ---- One reference, one site

  // Two responses accepted against the same reference, from any two seeders, under any two keys and at
  // any two times, carry the same manifest and deliver the same files, or exhibit a collision of SHA-256.
  lemma OneRefOneSite(c: Crypto, b1: Value, e1: Expectation, b2: Value, e2: Expectation)
    requires Check(c, b1, e1).Success? && Check(c, b2, e2).Success?
    requires e1.ref == e2.ref
    ensures
      || (Manifest(b1) == Manifest(b2) && FileMap(b1) == FileMap(b2) &&
          Check(c, b1, e1).value == Check(c, b2, e2).value)
      || Collision(c, Canonical(Manifest(b1)), Canonical(Manifest(b2)))
      || exists p :: && p in FileMap(b1) && p in FileMap(b2) && FileMap(b1)[p].Str? && FileMap(b2)[p].Str?
                     && Collision(c, Utf8(FileMap(b1)[p].s), Utf8(FileMap(b2)[p].s))
  {
    hide Check;
    hide Utf8;
    hide Canonical;
    hide FloatFree;
    hide Entries;
    hide FilesOk;
    hide IsManifestExpired;
    AcceptedIffAcceptable(c, b1, e1);
    AcceptedIffAcceptable(c, b2, e2);
    var m1, m2, f1, f2 := Manifest(b1), Manifest(b2), FileMap(b1), FileMap(b2);
    RefCommits(c, b1, e1);
    RefCommits(c, b2, e2);
    if Canonical(m1) == Canonical(m2) {
      Reader.CanonicalInjective(m1, m2);
      SameListing(c, m1, f1, f2);
      if f1 == f2 {
        SameDelivery(b1, b2, Check(c, b1, e1).value, Check(c, b2, e2).value);
      }
    }
  }

  lemma RefCommits(c: Crypto, b: Value, e: Expectation)
    requires HeadOk(c, b, e)
    ensures FloatFree(Manifest(b)) && c.sha256(Canonical(Manifest(b))) == e.ref
  {
    hide Canonical;
    hide FloatFree;
  }

  // Two sets of files that fit one manifest are the same, or two of their texts collide.
  lemma SameListing(c: Crypto, m: Value, f1: map<string, Value>, f2: map<string, Value>)
    requires HashesOk(c, m, f1) && HashesOk(c, m, f2)
    ensures f1 == f2 ||
      exists p :: && p in f1 && p in f2 && f1[p].Str? && f2[p].Str? && Collision(c, Utf8(f1[p].s), Utf8(f2[p].s))
  {
    hide Utf8;
    hide Entries;
    assert f1.Keys == f2.Keys;
    if p :| p in f1 && f1[p] != f2[p] {
      Utf8Differs(f1[p].s, f2[p].s);
      assert Collision(c, Utf8(f1[p].s), Utf8(f2[p].s));
    } else {
      assert f1 == f2;
    }
  }

  lemma Utf8Differs(s: string, t: string)
    requires s != t
    ensures Utf8(s) != Utf8(t)
  {
    if Utf8(s) == Utf8(t) { Utf8Injective(s, t); }
  }

  lemma SameDelivery(b1: Value, b2: Value, a1: Files, a2: Files)
    requires Shape(b1) && Shape(b2) && FileMap(b1) == FileMap(b2)
    requires Delivers(b1, a1) && Delivers(b2, a2)
    ensures a1 == a2
  {
    var keys := SortedKeys(FileMap(b1).Keys);
    forall j | 0 <= j < |keys| ensures a1[j] == a2[j] {
      assert a1[j].0 == keys[j] && a2[j].0 == keys[j];
    }
  }

  // With a hash that never collides, a reference determines the site.
  lemma RefDeterminesSite(c: Crypto, b1: Value, e1: Expectation, b2: Value, e2: Expectation)
    requires forall x, y :: c.sha256(x) == c.sha256(y) ==> x == y
    requires Check(c, b1, e1).Success? && Check(c, b2, e2).Success?
    requires e1.ref == e2.ref
    ensures Manifest(b1) == Manifest(b2) && Check(c, b1, e1).value == Check(c, b2, e2).value
  {
    OneRefOneSite(c, b1, e1, b2, e2);
  }

  // ---- The program's own form

  method ScanFiles(files: map<string, Value>, keys: seq<string>) returns (r: Result<Files, BundleReject>)
    requires forall j | 0 <= j < |keys| :: keys[j] in files
    ensures r == Scan(files, keys, 0, 0)
  {
    var accepted: Files := [];
    var total: nat := 0;
    ResumedStart(Scan(files, keys, 0, 0));
    for i := 0 to |keys|
      invariant Resumed(accepted, Scan(files, keys, i, total)) == Scan(files, keys, 0, 0)
    {
      var path, content := keys[i], files[keys[i]];
      if !content.Str? {
        return Failure(Malformed);
      }
      if !ValidPath(path) {
        return Failure(BadPath(path));
      }
      var raw := Utf8(content.s);
      if total + |raw| > MAX_BUNDLE_TOTAL_SIZE {
        return Failure(TooLarge);
      }
      ResumedStep(accepted, (path, raw), Scan(files, keys, i + 1, total + |raw|));
      total := total + |raw|;
      accepted := accepted + [(path, raw)];
    }
    assert accepted + [] == accepted;
    r := Success(accepted);
  }

  ghost function Resumed(done: Files, rest: Result<Files, BundleReject>): Result<Files, BundleReject>
  {
    if rest.Failure? then rest else Success(done + rest.value)
  }

  lemma ResumedStart(rest: Result<Files, BundleReject>)
    ensures Resumed([], rest) == rest
  {
    if rest.Success? { assert [] + rest.value == rest.value; }
  }

  lemma ResumedStep(done: Files, file: (string, bytes), rest: Result<Files, BundleReject>)
    ensures rest.Success? ==> Resumed(done, Success([file] + rest.value)) == Resumed(done + [file], rest)
  {
    if rest.Success? { assert done + ([file] + rest.value) == done + [file] + rest.value; }
  }

  method ReadEntries(entries: seq<Value>) returns (r: Option<map<string, string>>)
    ensures r == Expected(entries)
  {
    var expected: map<string, string> := map[];
    for i := 0 to |entries|
      invariant Expected(entries[..i]) == Some(expected)
    {
      assert entries[..i + 1][..i] == entries[..i];
      var path, hash := GetStr(entries[i], "path"), GetStr(entries[i], "hash");
      if path.None? || hash.None? {
        ExpectedPrefix(entries, i + 1);
        return None;
      }
      expected := expected[path.value := hash.value];
    }
    assert entries[..|entries|] == entries;
    r := Some(expected);
  }

  lemma {:induction false} ExpectedPrefix(entries: seq<Value>, n: nat)
    requires n <= |entries| && Expected(entries[..n]).None?
    ensures Expected(entries).None?
    decreases |entries|
  {
    if n == |entries| {
      assert entries[..n] == entries;
    } else {
      assert entries[..|entries| - 1][..n] == entries[..n];
      ExpectedPrefix(entries[..|entries| - 1], n);
    }
  }

  method CheckHashes(c: Crypto, accepted: Files, expected: map<string, string>) returns (r: Option<BundleReject>)
    requires forall j | 0 <= j < |accepted| :: accepted[j].0 in expected
    ensures r == HashCheck(c, accepted, expected, 0)
  {
    for i := 0 to |accepted|
      invariant HashCheck(c, accepted, expected, i) == HashCheck(c, accepted, expected, 0)
    {
      var (path, raw) := accepted[i];
      if !IsMarkdown(path) {
        return Some(NotMarkdown(path));
      }
      if c.sha256(raw) != expected[path] {
        return Some(Corrupted(path));
      }
    }
    r := None;
  }

  method CheckDownloadedBundle(c: Crypto, b: Value, e: Expectation) returns (r: Result<Files, BundleReject>)
    ensures r == Check(c, b, e)
    ensures r.Success? <==> Acceptable(c, b, e)
  {
    AcceptedIffAcceptable(c, b, e);
    hide Acceptable;
    hide VerifyManifest;
    hide ManifestRef;
    hide IsManifestExpired;
    hide HashCheck;
    hide Scan;
    if !Shape(b) {
      return Failure(Malformed);
    }
    var manifest, files := Manifest(b), FileMap(b);
    if !VerifyManifest(c, manifest, Signature(b), e.key) {
      return Failure(BadSignatureOnManifest);
    }
    if GetStr(manifest, "uri") != Some(e.uri) {
      return Failure(UriMismatch);
    }
    if ManifestRef(c, manifest) != Some(e.ref) {
      return Failure(RefMismatch);
    }
    if IsManifestExpired(manifest, e.now) {
      return Failure(Expired);
    }
    var declared := DeclaredCount(manifest, |files|);
    if declared.None? {
      return Failure(Malformed);
    }
    if declared.value > MAX_BUNDLE_FILES || |files| > MAX_BUNDLE_FILES {
      return Failure(TooManyFiles);
    }
    r := CheckContent(c, manifest, files);
  }

  method CheckContent(c: Crypto, manifest: Value, files: map<string, Value>) returns (r: Result<Files, BundleReject>)
    ensures r == ContentCheck(c, manifest, files)
  {
    hide ListingCheck;
    hide Scan;
    hide Carries;
    var keys := SortedKeys(files.Keys);
    r := ScanFiles(files, keys);
    if r.Failure? {
      return;
    }
    ScanListsAll(files, r.value);
    ListsFiles(files, keys, r.value);
    var bad := CheckListing(c, manifest, files, r.value);
    if bad.Some? {
      r := Failure(bad.value);
    }
  }

  method CheckListing(c: Crypto, manifest: Value, files: map<string, Value>, accepted: Files)
    returns (r: Option<BundleReject>)
    requires forall j | 0 <= j < |accepted| :: accepted[j].0 in files
    ensures r == ListingCheck(c, manifest, files, accepted)
  {
    hide HashCheck;
    hide Expected;
    var field := Get(manifest, "files");
    if field.None? || !field.value.Array? {
      return Some(Malformed);
    }
    var expected := ReadEntries(field.value.items);
    if expected.None? {
      return Some(Malformed);
    }
    if |expected.value| != |files| || !(forall p | p in files :: p in expected.value) {
      return Some(FilesMismatch);
    }
    r := CheckHashes(c, accepted, expected.value);
  }
}
