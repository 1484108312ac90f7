/**
 The documented order of the checks on a seeder's response (rust/mdp2p-core/src/fetch.rs:121-124): shape,
 signature, name, reference, expiry, count, every path, total size, file set, every extension, every hash. The
 program checks shape where it needs it, paths along with sizes, and extensions along with hashes. Both refuse
 the same responses; this says exactly for which of them they give the same reason.
 */
module BundleOrder {
  import opened Bundle
  import opened Json
  import opened Paths
  import opened Printer
  import opened Records
  import opened Seeding
  import opened Storage
  import opened Text
  import opened Wrappers

  // ---- The documented check

  // Everything the reason "malformed" is given for.
  predicate WholeShape(b: Value)
  {
    && Shape(b)
    && (forall p | p in FileMap(b) :: FileMap(b)[p].Str?)
    && DeclaredCount(Manifest(b), |FileMap(b)|).Some?
    && Entries(Manifest(b)).Some?
  }

  // The steps that look at each file.
  datatype Step =
    | PathStep
    | ExtensionStep
    | HashStep(c: Crypto, files: map<string, Value>, expected: map<string, string>)

  predicate Wrong(s: Step, p: string)
  {
    match s
    case PathStep => !ValidPath(p)
    case ExtensionStep => !IsMarkdown(p)
    case HashStep(c, files, expected) =>
      p in files && files[p].Str? && p in expected && c.sha256(Utf8(files[p].s)) != expected[p]
  }

  // The first of the paths that fails the step.
  function First(keys: seq<string>, s: Step): Option<string>
  {
    if keys == [] then None else if Wrong(s, keys[0]) then Some(keys[0]) else First(keys[1..], s)
  }

  // One step after the other, each over all files; among files the order is that of the keys.
  ghost function PathsThenSize(files: map<string, Value>, keys: seq<string>): Option<BundleReject>
    requires forall j | 0 <= j < |keys| :: keys[j] in files
  {
    var badPath := First(keys, PathStep);
    if badPath.Some? then Some(BadPath(badPath.value))
    else if TotalSize(files, keys, 0) > MAX_BUNDLE_TOTAL_SIZE then Some(TooLarge)
    else None
  }

  ghost function ExtensionsThenHashes(
    c: Crypto, files: map<string, Value>, keys: seq<string>, expected: map<string, string>): Option<BundleReject>
  {
    var notMarkdown, corrupted := First(keys, ExtensionStep), First(keys, HashStep(c, files, expected));
    if notMarkdown.Some? then Some(NotMarkdown(notMarkdown.value))
    else if corrupted.Some? then Some(Corrupted(corrupted.value))
    else None
  }

  ghost function DocumentedContent(c: Crypto, files: map<string, Value>, expected: map<string, string>):
    Option<BundleReject>
  {
    var keys := SortedKeys(files.Keys);
    if PathsThenSize(files, keys).Some? then PathsThenSize(files, keys)
    else if expected.Keys != files.Keys then Some(FilesMismatch)
    else ExtensionsThenHashes(c, files, keys, expected)
  }

  ghost function EntriesOf(b: Value): map<string, string>
    requires WholeShape(b)
  {
    Entries(Manifest(b)).value
  }

  // The reason for refusing a response; None accepts it.
  ghost function DocumentedCheck(c: Crypto, b: Value, e: Expectation): Option<BundleReject>
  {
    if !WholeShape(b) then Some(Malformed)
    else if HeadCheck(c, b, e).Some? then HeadCheck(c, b, e)
    else if CountCheck(b).Some? then CountCheck(b)
    else DocumentedContent(c, FileMap(b), EntriesOf(b))
  }

  function ReasonOf(r: Result<Files, BundleReject>): Option<BundleReject>
  {
    if r.Failure? then Some(r.error) else None
  }

  // ---- When the program keeps to it

  // The files before the first invalid path are within the limit.
  ghost predicate PathsBeforeSize(files: map<string, Value>, keys: seq<string>)
    requires forall j | 0 <= j < |keys| :: keys[j] in files
  {
    forall m | 0 <= m < |keys| && FirstAt(keys, PathStep, m) ::
      TotalSize(files, keys[..m], 0) <= MAX_BUNDLE_TOTAL_SIZE
  }

  // The files before the first one that is not Markdown have the listed hashes.
  ghost predicate ExtensionsBeforeHashes(
    c: Crypto, files: map<string, Value>, keys: seq<string>, expected: map<string, string>)
  {
    forall m | 0 <= m < |keys| && FirstAt(keys, ExtensionStep, m) ::
      forall i | 0 <= i < m :: !Wrong(HashStep(c, files, expected), keys[i])
  }

  // Some file is no text, and the files before it are texts at valid paths and within the limit.
  ghost predicate NoTextFirst(files: map<string, Value>, keys: seq<string>)
    requires forall j | 0 <= j < |keys| :: keys[j] in files
  {
    exists m :: 0 <= m < |keys| && !files[keys[m]].Str? && RunFits(files, keys, 0, m, 0)
  }

  ghost predicate FirstAt(keys: seq<string>, s: Step, m: nat)
    requires m < |keys|
  {
    Wrong(s, keys[m]) && forall j | 0 <= j < m :: !Wrong(s, keys[j])
  }

  ghost predicate ContentInOrder(c: Crypto, files: map<string, Value>, expected: map<string, string>)
  {
    var keys := SortedKeys(files.Keys);
    && PathsBeforeSize(files, keys)
    && (FilesOk(files) && expected.Keys == files.Keys ==> ExtensionsBeforeHashes(c, files, keys, expected))
  }

  // What keeps a response in the documented order. With a fault of shape below the surface nothing that the
  // program checks earlier may be wrong as well; without one only paths and sizes, and then extensions and
  // hashes, can be out of order, if it comes to them.
  ghost predicate InOrder(c: Crypto, b: Value, e: Expectation)
  {
    if !Shape(b) then true
    else if WholeShape(b) then
      HeadOk(c, b, e) && CountOk(b) ==> ContentInOrder(c, FileMap(b), EntriesOf(b))
    else
      && HeadOk(c, b, e)
      && (DeclaredCount(Manifest(b), |FileMap(b)|).None? ||
          (CountOk(b) && (FilesOk(FileMap(b)) || NoTextFirst(FileMap(b), SortedKeys(FileMap(b).Keys)))))
  }

  lemma {:induction false} FirstMeans(keys: seq<string>, s: Step) returns (m: nat)
    ensures m <= |keys| && forall j | 0 <= j < m :: !Wrong(s, keys[j])
    ensures First(keys, s) == if m < |keys| then Some(keys[m]) else None
    ensures m < |keys| ==> FirstAt(keys, s, m)
  {
    if keys == [] || Wrong(s, keys[0]) {
      m := 0;
    } else {
      m := FirstMeans(keys[1..], s);
      m := m + 1;
      forall j | 0 <= j < m ensures !Wrong(s, keys[j]) {
        if j > 0 { assert keys[1..][j - 1] == keys[j]; }
      }
    }
  }

  lemma FirstIs(keys: seq<string>, s: Step, m: nat)
    requires m < |keys| && FirstAt(keys, s, m)
    ensures First(keys, s) == Some(keys[m])
    ensures forall j | 0 <= j < |keys| && FirstAt(keys, s, j) :: j == m
  {
    var n := FirstMeans(keys, s);
  }

  lemma NoneFirst(keys: seq<string>, s: Step)
    requires forall j | 0 <= j < |keys| :: !Wrong(s, keys[j])
    ensures First(keys, s) == None
  {
    var n := FirstMeans(keys, s);
  }

  // ---- Paths and sizes

  ghost predicate AllTexts(files: map<string, Value>, keys: seq<string>)
  {
    forall j | 0 <= j < |keys| :: keys[j] in files && files[keys[j]].Str?
  }

  lemma AllFit(files: map<string, Value>, keys: seq<string>)
    requires AllTexts(files, keys) && RunFits(files, keys, 0, |keys|, 0)
    ensures PathsThenSize(files, keys) == None && PathsBeforeSize(files, keys)
  {
    hide TotalSize;
    hide ValidPath;
    assert keys[..|keys|] == keys;
    NoneFirst(keys, PathStep);
  }

  lemma StopsAtPath(files: map<string, Value>, keys: seq<string>, n: nat)
    requires AllTexts(files, keys) && n < |keys| && RunFits(files, keys, 0, n, 0) && !ValidPath(keys[n])
    ensures PathsThenSize(files, keys) == Some(BadPath(keys[n])) && PathsBeforeSize(files, keys)
  {
    hide TotalSize;
    hide ValidPath;
    FirstIs(keys, PathStep, n);
  }

  lemma StopsAtSize(files: map<string, Value>, keys: seq<string>, n: nat)
    requires AllTexts(files, keys) && n < |keys| && RunFits(files, keys, 0, n, 0) && ValidPath(keys[n])
    requires TotalSize(files, keys[..n + 1], 0) > MAX_BUNDLE_TOTAL_SIZE
    ensures PathsThenSize(files, keys) == Some(TooLarge) <==> PathsBeforeSize(files, keys)
    ensures PathsThenSize(files, keys) != None
  {
    hide TotalSize;
    hide ValidPath;
    var m := FirstMeans(keys, PathStep);
    if m < |keys| {
      FirstIs(keys, PathStep, m);
      assert Wrong(PathStep, keys[m]);
      assert n < m;
      TotalSizeGrows(files, keys, 0, n + 1, m);
    } else {
      TotalSizePrefix(files, keys, 0, n + 1);
    }
  }

  // The first loop against the two documented steps.
  lemma PathsAndSizes(files: map<string, Value>, keys: seq<string>)
    requires AllTexts(files, keys)
    ensures var r := Scan(files, keys, 0, 0);
      && (r.Success? <==> PathsThenSize(files, keys).None?)
      && (ReasonOf(r) == PathsThenSize(files, keys) <==> PathsBeforeSize(files, keys))
  {
    hide Scan;
    hide TotalSize;
    hide ValidPath;
    hide RunFits;
    hide PathsThenSize;
    hide PathsBeforeSize;
    var n := ScanStops(files, keys, 0, 0);
    if n == |keys| {
      AllFit(files, keys);
    } else if !ValidPath(keys[n]) {
      StopsAtPath(files, keys, n);
    } else {
      StopsAtSize(files, keys, n);
    }
  }

  // ---- Extensions and hashes

  // Where the third loop stops.
  lemma {:induction false} HashCheckStops(
    c: Crypto, files: map<string, Value>, keys: seq<string>, expected: map<string, string>, accepted: Files, i: nat)
    returns (n: nat)
    requires AllTexts(files, keys) && Carries(files, keys, accepted) && i <= |keys|
    requires forall j | 0 <= j < |keys| :: keys[j] in expected
    ensures forall j | 0 <= j < |accepted| :: accepted[j].0 in expected
    ensures i <= n <= |keys|
    ensures forall j | i <= j < n :: !Wrong(ExtensionStep, keys[j]) && !Wrong(HashStep(c, files, expected), keys[j])
    ensures HashCheck(c, accepted, expected, i) ==
      if n == |keys| then None
      else if Wrong(ExtensionStep, keys[n]) then Some(NotMarkdown(keys[n]))
      else Some(Corrupted(keys[n]))
    ensures n < |keys| ==> Wrong(ExtensionStep, keys[n]) || Wrong(HashStep(c, files, expected), keys[n])
    decreases |keys| - i
  {
    hide Utf8;
    hide IsMarkdown;
    assert forall j | 0 <= j < |accepted| :: accepted[j].0 == keys[j];
    if i == |keys| || Wrong(ExtensionStep, keys[i]) || Wrong(HashStep(c, files, expected), keys[i]) {
      n := i;
    } else {
      n := HashCheckStops(c, files, keys, expected, accepted, i + 1);
    }
  }

  lemma ExtensionsAndHashes(
    c: Crypto, files: map<string, Value>, keys: seq<string>, expected: map<string, string>, accepted: Files)
    requires AllTexts(files, keys) && Carries(files, keys, accepted)
    requires forall j | 0 <= j < |keys| :: keys[j] in expected
    ensures forall j | 0 <= j < |accepted| :: accepted[j].0 in expected
    ensures HashCheck(c, accepted, expected, 0) == ExtensionsThenHashes(c, files, keys, expected) <==>
      ExtensionsBeforeHashes(c, files, keys, expected)
  {
    hide HashCheck;
    hide Wrong;
    hide Carries;
    var hash := HashStep(c, files, expected);
    var n := HashCheckStops(c, files, keys, expected, accepted, 0);
    var m := FirstMeans(keys, ExtensionStep);
    if m < |keys| { FirstIs(keys, ExtensionStep, m); }
    if n == |keys| {
      NoneFirst(keys, hash);
    } else if !Wrong(ExtensionStep, keys[n]) {
      FirstIs(keys, hash, n);
    }
  }

  // ---- The whole check

  lemma ContentInOrderExactly(c: Crypto, manifest: Value, files: map<string, Value>)
    requires Entries(manifest).Some? && forall p | p in files :: files[p].Str?
    ensures ReasonOf(ContentCheck(c, manifest, files)) == DocumentedContent(c, files, Entries(manifest).value) <==>
      ContentInOrder(c, files, Entries(manifest).value)
  {
    var keys := SortedKeys(files.Keys);
    assert forall k :: k in keys <==> k in files;
    assert forall j | 0 <= j < |keys| :: keys[j] in keys;
    assert AllTexts(files, keys);
    hide *;
    var expected := Entries(manifest).value;
    PathsAndSizes(files, keys);
    ScanIffFilesOk(files);
    ContentParts(c, manifest, files, keys);
    var r := Scan(files, keys, 0, 0);
    ReasonOfFailure(r);
    DocumentedParts(c, files, expected, keys);
    if r.Success? {
      ScanListsAll(files, r.value);
      ListingInOrder(c, manifest, files, keys, r.value);
    }
  }

  lemma DocumentedParts(c: Crypto, files: map<string, Value>, expected: map<string, string>, keys: seq<string>)
    requires keys == SortedKeys(files.Keys) && forall j | 0 <= j < |keys| :: keys[j] in files
    ensures DocumentedContent(c, files, expected) ==
      if PathsThenSize(files, keys).Some? then PathsThenSize(files, keys)
      else if expected.Keys != files.Keys then Some(FilesMismatch)
      else ExtensionsThenHashes(c, files, keys, expected)
    ensures ContentInOrder(c, files, expected) <==>
      && PathsBeforeSize(files, keys)
      && (FilesOk(files) && expected.Keys == files.Keys ==> ExtensionsBeforeHashes(c, files, keys, expected))
  {
    hide PathsThenSize;
    hide PathsBeforeSize;
    hide ExtensionsThenHashes;
    hide ExtensionsBeforeHashes;
    hide FilesOk;
    hide SortedKeys;
    hide Increasing;
  }

  // The content checks are the first loop and, if it comes through, the rest.
  lemma ContentParts(c: Crypto, manifest: Value, files: map<string, Value>, keys: seq<string>)
    requires keys == SortedKeys(files.Keys) && forall j | 0 <= j < |keys| :: keys[j] in files
    ensures var r := Scan(files, keys, 0, 0);
      if r.Failure? then ReasonOf(ContentCheck(c, manifest, files)) == Some(r.error)
      else
        && (forall j | 0 <= j < |r.value| :: r.value[j].0 in files)
        && ReasonOf(ContentCheck(c, manifest, files)) == ListingCheck(c, manifest, files, r.value)
  {
    hide *;
    var r := Scan(files, keys, 0, 0);
    if r.Success? {
      ScanListsAll(files, r.value);
      ListsFiles(files, keys, r.value);
      ContentGoesOn(c, manifest, files, keys, r.value);
    } else {
      ContentFails(c, manifest, files, keys, r.error);
      ReasonOfFailure(ContentCheck(c, manifest, files));
    }
  }

  lemma ReasonOfFailure(r: Result<Files, BundleReject>)
    ensures ReasonOf(r) == if r.Failure? then Some(r.error) else None
  {
  }

  lemma ContentGoesOn(c: Crypto, manifest: Value, files: map<string, Value>, keys: seq<string>, accepted: Files)
    requires SortedKeys(files.Keys) == keys && (forall j | 0 <= j < |keys| :: keys[j] in files)
    requires Scan(files, keys, 0, 0) == Success(accepted) && forall j | 0 <= j < |accepted| :: accepted[j].0 in files
    ensures ReasonOf(ContentCheck(c, manifest, files)) == ListingCheck(c, manifest, files, accepted)
  {
    hide Scan;
    hide ListingCheck;
    hide SortedKeys;
    hide Increasing;
  }

  lemma ListingInOrder(c: Crypto, manifest: Value, files: map<string, Value>, keys: seq<string>, accepted: Files)
    requires Entries(manifest).Some? && AllTexts(files, keys) && Carries(files, keys, accepted)
    requires forall k :: k in keys <==> k in files
    ensures forall j | 0 <= j < |accepted| :: accepted[j].0 in files
    ensures var expected := Entries(manifest).value;
      ListingCheck(c, manifest, files, accepted) ==
        (if expected.Keys != files.Keys then Some(FilesMismatch)
         else ExtensionsThenHashes(c, files, keys, expected)) <==>
      (expected.Keys == files.Keys ==> ExtensionsBeforeHashes(c, files, keys, expected))
  {
    hide HashCheck;
    hide Carries;
    hide Entries;
    hide ExtensionsThenHashes;
    hide ExtensionsBeforeHashes;
    ListsFiles(files, keys, accepted);
    var expected := Entries(manifest).value;
    SameListedKeys(expected, files);
    if expected.Keys == files.Keys {
      assert forall j | 0 <= j < |keys| :: keys[j] in keys && keys[j] in expected.Keys;
      ExtensionsAndHashes(c, files, keys, expected, accepted);
    }
  }

  // A fault of shape below the surface: the content checks report it exactly when it is what they meet first.
  lemma HiddenFault(c: Crypto, manifest: Value, files: map<string, Value>)
    requires Entries(manifest).None? || exists p :: p in files && !files[p].Str?
    ensures ContentCheck(c, manifest, files) == Failure(Malformed) <==>
      FilesOk(files) || NoTextFirst(files, SortedKeys(files.Keys))
  {
    hide Scan;
    hide ListingCheck;
    hide FilesOk;
    hide Carries;
    hide Entries;
    hide ValidPath;
    hide TotalSize;
    var keys := SortedKeys(files.Keys);
    ScanIffFilesOk(files);
    var r := Scan(files, keys, 0, 0);
    var n := ScanStops(files, keys, 0, 0);
    if r.Success? {
      FilesOkTexts(files);
      ScanListsAll(files, r.value);
      ListsFiles(files, keys, r.value);
      ListingMalformed(c, manifest, files, r.value);
    } else {
      StopsWithoutText(files, keys, n, r.error);
    }
  }

  lemma FilesOkTexts(files: map<string, Value>)
    requires FilesOk(files)
    ensures forall p | p in files :: files[p].Str?
  {
    hide TotalSize;
    hide ValidPath;
    forall p | p in files ensures files[p].Str? { assert FileOk(files, p); }
  }

  lemma ListingMalformed(c: Crypto, manifest: Value, files: map<string, Value>, accepted: Files)
    requires Entries(manifest).None? && forall j | 0 <= j < |accepted| :: accepted[j].0 in files
    ensures ListingCheck(c, manifest, files, accepted) == Some(Malformed)
  {
  }

  lemma StopsWithoutText(files: map<string, Value>, keys: seq<string>, n: nat, r: BundleReject)
    requires (forall j | 0 <= j < |keys| :: keys[j] in files) && n < |keys| && StopsAt(files, keys, 0, 0, n, r)
    ensures r == Malformed <==> NoTextFirst(files, keys)
  {
    hide TotalSize;
    hide ValidPath;
    if m :| 0 <= m < |keys| && !files[keys[m]].Str? && RunFits(files, keys, 0, m, 0) {
      if n < m {
        assert FileOk(files, keys[n]);
        TotalSizeGrows(files, keys, 0, n + 1, m);
      }
    }
  }

  lemma CheckBehindHead(c: Crypto, b: Value, e: Expectation)
    requires Shape(b)
    ensures HeadCheck(c, b, e).None? <==> HeadOk(c, b, e)
    ensures HeadCheck(c, b, e) != Some(Malformed)
    ensures CountCheck(b).None? <==> CountOk(b)
    ensures CountCheck(b) == Some(Malformed) <==> DeclaredCount(Manifest(b), |FileMap(b)|).None?
  {
    hide VerifyManifest;
    hide ManifestRef;
    hide IsManifestExpired;
  }

  // The reason given is the documented one exactly for responses in order.
  lemma DocumentedExactly(c: Crypto, b: Value, e: Expectation)
    ensures ReasonOf(Check(c, b, e)) == DocumentedCheck(c, b, e) <==> InOrder(c, b, e)
  {
    if Shape(b) {
      CheckBehindHead(c, b, e);
      hide HeadOk;
      hide CountOk;
      hide CountCheck;
      hide ContentCheck;
      hide DocumentedContent;
      hide ContentInOrder;
      hide Entries;
      hide DeclaredCount;
      hide FilesOk;
      hide NoTextFirst;
      if WholeShape(b) {
        ContentInOrderExactly(c, Manifest(b), FileMap(b));
      } else if CountCheck(b).None? {
        HiddenFault(c, Manifest(b), FileMap(b));
      }
    }
  }

  // Both accept the same responses.
  lemma DocumentedAcceptsTheSame(c: Crypto, b: Value, e: Expectation)
    ensures DocumentedCheck(c, b, e).None? <==> Check(c, b, e).Success?
  {
    DocumentedExactly(c, b, e);
    if DocumentedCheck(c, b, e).None? {
      NothingWrongIsInOrder(c, FileMap(b), Entries(Manifest(b)).value);
    } else if Check(c, b, e).Success? {
      AcceptedInOrder(c, b, e);
    }
  }

  lemma NothingWrongIsInOrder(c: Crypto, files: map<string, Value>, expected: map<string, string>)
    requires DocumentedContent(c, files, expected).None?
    ensures ContentInOrder(c, files, expected)
  {
    hide TotalSize;
    hide Wrong;
    var keys := SortedKeys(files.Keys);
    var m := FirstMeans(keys, PathStep);
    var n := FirstMeans(keys, ExtensionStep);
  }

  lemma AcceptedInOrder(c: Crypto, b: Value, e: Expectation)
    requires Check(c, b, e).Success?
    ensures InOrder(c, b, e)
  {
    AcceptedIffAcceptable(c, b, e);
    hide VerifyManifest;
    hide ManifestRef;
    hide IsManifestExpired;
    hide Check;
    hide Entries;
    hide TotalSize;
    hide IsMarkdown;
    hide ValidPath;
    var files := FileMap(b);
    FilesOkTexts(files);
    ScanIffFilesOk(files);
    SoundIsInOrder(c, files, Entries(Manifest(b)).value);
  }

  lemma SoundIsInOrder(c: Crypto, files: map<string, Value>, expected: map<string, string>)
    requires FilesOk(files) && forall p | p in files :: IsMarkdown(p)
    ensures ContentInOrder(c, files, expected)
  {
    hide TotalSize;
    hide IsMarkdown;
    hide ValidPath;
    var keys := SortedKeys(files.Keys);
    forall j | 0 <= j < |keys| ensures !Wrong(PathStep, keys[j]) && !Wrong(ExtensionStep, keys[j]) {
      assert keys[j] in keys && FileOk(files, keys[j]);
    }
  }

  // ---- Responses that are out of order

  lemma TwoKeys(a: string, b: string)
    requires a != [] && b != [] && a[0] as int < b[0] as int < 128
    ensures SortedKeys({a, b}) == [a, b]
  {
    assert Utf8(a)[0] == a[0] as int && Utf8(b)[0] == b[0] as int;
    assert ByteLess(a, b);
    hide ByteLess;
    assert Increasing([a, b]);
    hide Increasing;
    assert |{a, b}| == 2 && forall k :: k in [a, b] <==> k in {a, b};
    IncreasingUnique([a, b], SortedKeys({a, b}));
  }

  lemma SecondIsFirst(s: Step, a: string, b: string)
    requires !Wrong(s, a) && Wrong(s, b)
    ensures First([a, b], s) == Some(b)
  {
    hide Wrong;
    assert [a, b][1..] == [b];
  }

  // A response that is in order up to its count, with these files.
  ghost predicate Carrying(c: Crypto, b: Value, e: Expectation, files: map<string, Value>)
  {
    Shape(b) && HeadOk(c, b, e) && CountOk(b) && FileMap(b) == files
  }

  lemma ContentDecides(c: Crypto, b: Value, e: Expectation, files: map<string, Value>)
    requires Carrying(c, b, e, files)
    ensures Check(c, b, e) == ContentCheck(c, Manifest(b), files)
    ensures WholeShape(b) ==> DocumentedCheck(c, b, e) == DocumentedContent(c, files, EntriesOf(b))
  {
    CheckBehindHead(c, b, e);
    hide HeadOk;
    hide CountOk;
    hide CountCheck;
    hide ContentCheck;
    hide DocumentedContent;
    hide Entries;
    hide DeclaredCount;
  }

  lemma SamplePaths()
    ensures ValidPath("a.md") && ValidPath("b") && !ValidPath("b\\") && !ValidPath("a\\")
    ensures IsMarkdown("a.md") && !IsMarkdown("b")
  {
    PlainNameIsValid("a.md");
    PlainNameIsValid("b");
    assert "a.md"[1..] == ".md" && "a\\"[1] == '\\' && "b\\"[1] == '\\';
  }

  // A file that is too large before an invalid path is reported as too large.
  lemma SizeHidesBadPath(c: Crypto, b: Value, e: Expectation, big: string)
    requires Carrying(c, b, e, map["a.md" := Str(big), "b\\" := Str("")]) && WholeShape(b)
    requires |Utf8(big)| > MAX_BUNDLE_TOTAL_SIZE
    ensures Check(c, b, e) == Failure(TooLarge) && DocumentedCheck(c, b, e) == Some(BadPath("b\\"))
  {
    hide *;
    SamplePaths();
    SizeFirst(c, b, e, "a.md", "b\\", big);
  }

  lemma SizeFirst(c: Crypto, b: Value, e: Expectation, p: string, q: string, big: string)
    requires p != [] && q != [] && p[0] as int < q[0] as int < 128 && ValidPath(p) && !ValidPath(q)
    requires Carrying(c, b, e, map[p := Str(big), q := Str("")]) && WholeShape(b)
    requires |Utf8(big)| > MAX_BUNDLE_TOTAL_SIZE
    ensures Check(c, b, e) == Failure(TooLarge) && DocumentedCheck(c, b, e) == Some(BadPath(q))
  {
    assert Shape(b);
    hide *;
    var files := map[p := Str(big), q := Str("")];
    assert files.Keys == {p, q};
    ContentDecides(c, b, e, files);
    TwoKeys(p, q);
    SizeThenPath(c, Manifest(b), files, EntriesOf(b), p, q);
  }

  lemma SizeThenPath(
    c: Crypto, manifest: Value, files: map<string, Value>, expected: map<string, string>, p: string, q: string)
    requires files.Keys == {p, q} && SortedKeys(files.Keys) == [p, q] && ValidPath(p) && !ValidPath(q)
    requires files[p].Str? && |Utf8(files[p].s)| > MAX_BUNDLE_TOTAL_SIZE
    ensures ContentCheck(c, manifest, files) == Failure(TooLarge)
    ensures DocumentedContent(c, files, expected) == Some(BadPath(q))
  {
    assert Wrong(PathStep, q) && !Wrong(PathStep, p);
    hide *;
    SecondIsFirst(PathStep, p, q);
    FirstOverflows(files, [p, q]);
    PathReported(c, files, expected, [p, q], q);
    ContentFails(c, manifest, files, [p, q], TooLarge);
  }

  lemma FirstOverflows(files: map<string, Value>, keys: seq<string>)
    requires keys != [] && forall j | 0 <= j < |keys| :: keys[j] in files
    requires files[keys[0]].Str? && ValidPath(keys[0]) && |Utf8(files[keys[0]].s)| > MAX_BUNDLE_TOTAL_SIZE
    ensures Scan(files, keys, 0, 0) == Failure(TooLarge)
  {
    hide Utf8;
    hide ValidPath;
  }

  lemma ContentFails(c: Crypto, manifest: Value, files: map<string, Value>, keys: seq<string>, r: BundleReject)
    requires SortedKeys(files.Keys) == keys && (forall j | 0 <= j < |keys| :: keys[j] in files)
    requires Scan(files, keys, 0, 0) == Failure(r)
    ensures ContentCheck(c, manifest, files) == Failure(r)
  {
    hide Scan;
    hide ListingCheck;
  }

  lemma PathReported(c: Crypto, files: map<string, Value>, expected: map<string, string>, keys: seq<string>, p: string)
    requires SortedKeys(files.Keys) == keys && First(keys, PathStep) == Some(p)
    ensures DocumentedContent(c, files, expected) == Some(BadPath(p))
  {
    hide First;
    hide TotalSize;
  }

  // A wrong hash before a file that is not Markdown is reported as a wrong hash.
  lemma HashHidesExtension(c: Crypto, b: Value, e: Expectation)
    requires Carrying(c, b, e, map["a.md" := Str(""), "b" := Str("")]) && WholeShape(b)
    requires Entries(Manifest(b)).value.Keys == {"a.md", "b"} && c.sha256([]) != Entries(Manifest(b)).value["a.md"]
    ensures Check(c, b, e) == Failure(Corrupted("a.md")) && DocumentedCheck(c, b, e) == Some(NotMarkdown("b"))
  {
    hide *;
    SamplePaths();
    HashFirst(c, b, e, "a.md", "b");
  }

  lemma HashFirst(c: Crypto, b: Value, e: Expectation, p: string, q: string)
    requires p != [] && q != [] && p[0] as int < q[0] as int < 128
    requires ValidPath(p) && ValidPath(q) && IsMarkdown(p) && !IsMarkdown(q)
    requires Carrying(c, b, e, map[p := Str(""), q := Str("")]) && WholeShape(b)
    requires Entries(Manifest(b)).value.Keys == {p, q} && c.sha256([]) != Entries(Manifest(b)).value[p]
    ensures Check(c, b, e) == Failure(Corrupted(p)) && DocumentedCheck(c, b, e) == Some(NotMarkdown(q))
  {
    var files := map[p := Str(""), q := Str("")];
    ContentDecides(c, b, e, files);
    TwoKeys(p, q);
    hide Check;
    hide DocumentedCheck;
    hide WholeShape;
    hide Carrying;
    hide ValidPath;
    hide IsMarkdown;
    hide Entries;
    assert files.Keys == {p, q} && Utf8("") == [];
    TwoEmptyFiles(files, p, q);
    SecondIsFirst(ExtensionStep, p, q);
    HashOfFirst(c, Manifest(b), files, p, q);
  }

  lemma TwoEmptyFiles(files: map<string, Value>, p: string, q: string)
    requires files == map[p := Str(""), q := Str("")] && ValidPath(p) && ValidPath(q) && p != q
    ensures Scan(files, [p, q], 0, 0) == Success([(p, []), (q, [])])
    ensures PathsThenSize(files, [p, q]) == None
  {
    hide ValidPath;
    assert Utf8(files[p].s) == [] && Utf8(files[q].s) == [];
    hide Utf8;
    assert Scan(files, [p, q], 2, 0) == Success([]);
    var first: Files, second: Files := [(p, [])], [(q, [])];
    assert second + [] == second && first + second == [(p, []), (q, [])];
    assert Scan(files, [p, q], 1, 0) == Success(second + []);
    NoneFirst([p, q], PathStep);
    assert TotalSize(files, [p, q], 2) == 0 && TotalSize(files, [p, q], 1) == 0;
  }

  lemma HashOfFirst(c: Crypto, manifest: Value, files: map<string, Value>, p: string, q: string)
    requires files.Keys == {p, q} && IsMarkdown(p) && p != q
    requires Entries(manifest).Some?
    requires Entries(manifest).value.Keys == {p, q} && c.sha256([]) != Entries(manifest).value[p]
    ensures var accepted: Files := [(p, []), (q, [])];
      && (forall j | 0 <= j < |accepted| :: accepted[j].0 in files)
      && ListingCheck(c, manifest, files, accepted) == Some(Corrupted(p))
  {
    hide Entries;
    hide IsMarkdown;
    SameListedKeys(Entries(manifest).value, files);
  }

  // A content that is no text behind an invalid path is reported as an invalid path.
  lemma PathHidesShape(c: Crypto, b: Value, e: Expectation)
    requires Carrying(c, b, e, map["a\\" := Str(""), "b.md" := Null])
    ensures Check(c, b, e) == Failure(BadPath("a\\")) && DocumentedCheck(c, b, e) == Some(Malformed)
  {
    hide *;
    SamplePaths();
    PathFirst(c, b, e, "a\\", "b.md");
  }

  lemma PathFirst(c: Crypto, b: Value, e: Expectation, p: string, q: string)
    requires p != [] && q != [] && p[0] as int < q[0] as int < 128 && !ValidPath(p)
    requires Carrying(c, b, e, map[p := Str(""), q := Null])
    ensures Check(c, b, e) == Failure(BadPath(p)) && DocumentedCheck(c, b, e) == Some(Malformed)
  {
    var files := map[p := Str(""), q := Null];
    assert Shape(b) && FileMap(b) == files;
    NotWhole(c, b, e, q);
    hide *;
    assert files.Keys == {p, q};
    ContentDecides(c, b, e, files);
    TwoKeys(p, q);
    FirstIsBad(files, [p, q]);
    ContentFails(c, Manifest(b), files, [p, q], BadPath(p));
  }

  lemma NotWhole(c: Crypto, b: Value, e: Expectation, p: string)
    requires Shape(b) && p in FileMap(b) && !FileMap(b)[p].Str?
    ensures DocumentedCheck(c, b, e) == Some(Malformed)
  {
    hide HeadCheck;
    hide CountCheck;
    hide DocumentedContent;
  }

  lemma FirstIsBad(files: map<string, Value>, keys: seq<string>)
    requires keys != [] && (forall j | 0 <= j < |keys| :: keys[j] in files)
    requires files[keys[0]].Str? && !ValidPath(keys[0])
    ensures Scan(files, keys, 0, 0) == Failure(BadPath(keys[0]))
  {
    hide ValidPath;
  }

  // ---- There are such responses

  // The least a manifest has to say, and the files it lists.
  function PlainManifest(uri: string, key: string, entries: seq<Value>): Value
  {
    Object(map["uri" := Str(uri), "public_key" := Str(key), "files" := Array(entries)])
  }

  lemma PlainFields(uri: string, key: string, entries: seq<Value>)
    requires forall x | x in entries :: FloatFree(x)
    ensures var m := PlainManifest(uri, key, entries);
      && m.Object? && GetStr(m, "uri") == Some(uri) && GetStr(m, "public_key") == Some(key)
      && Get(m, "expires_at") == None && Get(m, "file_count") == None && Get(m, "files") == Some(Array(entries))
      && FloatFree(m)
  {
    assert "uri"[0] == 'u' && "public_key"[0] == 'p';
    assert "files"[2] == 'l' && "expires_at"[0] == 'e' && "file_count"[4] == '_';
    assert "files"[0] == 'f' && "files"[4] == 's' && FloatFree(Array(entries));
  }

  // Any files whatever, listed in any way, can come in a response that is sound up to its count: an author has only
  // to sign it.
  lemma AnyFilesCanBeCarried(
    c: Crypto, a: Author, uri: string, now: int, files: map<string, Value>, entries: seq<Value>)
    requires HonestAuthor(c, a) && |files| <= MAX_BUNDLE_FILES && forall x | x in entries :: FloatFree(x)
    ensures var m := PlainManifest(uri, a.key, entries);
      var b := BundleMessage(m, a.sign(Canonical(m)), files);
      && Carrying(c, b, Expectation(uri, a.key, c.sha256(Canonical(m)), now), files)
      && Entries(Manifest(b)) == Expected(entries)
      && (WholeShape(b) <==> (forall p | p in files :: files[p].Str?) && Expected(entries).Some?)
  {
    hide *;
    var m := PlainManifest(uri, a.key, entries);
    var signature := a.sign(Canonical(m));
    PlainFields(uri, a.key, entries);
    MessageFields(m, signature, files);
    PlainVerifies(c, a, m);
    PlainCarries(c, BundleMessage(m, signature, files), m, signature, files, entries,
                 Expectation(uri, a.key, c.sha256(Canonical(m)), now));
  }

  lemma PlainVerifies(c: Crypto, a: Author, m: Value)
    requires HonestAuthor(c, a) && m.Object? && FloatFree(m) && GetStr(m, "public_key") == Some(a.key)
    ensures VerifyManifest(c, m, a.sign(Canonical(m)), a.key) && ManifestRef(c, m) == Some(c.sha256(Canonical(m)))
  {
    hide Canonical;
    hide FloatFree;
    hide Get;
    hide GetStr;
  }

  lemma PlainCarries(c: Crypto, b: Value, m: Value, signature: string, files: map<string, Value>, entries: seq<Value>,
                     e: Expectation)
    requires Shape(b) && Manifest(b) == m && Signature(b) == signature && FileMap(b) == files
    requires |files| <= MAX_BUNDLE_FILES && VerifyManifest(c, m, signature, e.key) && ManifestRef(c, m) == Some(e.ref)
    requires GetStr(m, "uri") == Some(e.uri) && Get(m, "expires_at") == None
    requires Get(m, "file_count") == None && Get(m, "files") == Some(Array(entries))
    ensures Carrying(c, b, e, files)
    ensures Entries(Manifest(b)) == Expected(entries)
    ensures WholeShape(b) <==> (forall p | p in files :: files[p].Str?) && Expected(entries).Some?
  {
    hide VerifyManifest;
    hide ManifestRef;
    hide Expected;
    hide Get;
    hide GetStr;
    hide Shape;
    hide Manifest;
    hide Signature;
    hide FileMap;
  }
}
