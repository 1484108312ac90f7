/**
 The Python reference's acceptance of a seeder's response (peer/peer.py:648-683 and
 bundle/serialization.py:55-98), and how it compares with the Rust one. Python compares what it finds:
 a boolean or a float where an integer belongs is compared as a number, anything else raises. Every
 exception refuses the response, so the model says when the check comes to its end.
 */
module BundlePython {
  import opened Bundle
  import opened Json
  import opened Paths
  import opened Printer
  import opened Records
  import opened Text
  import opened Wrappers

  // `json.dumps` also prints floats; `reencode` is public_key_to_b64(b64_to_public_key(key)); `verify`
  // is the lenient Ed25519 check.
  datatype PyLibrary = PyLibrary(
    dumps: Value -> bytes,
    sha256: bytes -> string,
    reencode: string -> string,
    verify: (string, string, bytes) -> bool)

  // What is assumed of the two sets of libraries: the same hash, the same canonical bytes where Rust has
  // any, and a strict signature check that accepts only well-formed keys and nothing the lenient one refuses.
  ghost predicate Agree(py: PyLibrary, c: Crypto)
  {
    && (forall m :: py.sha256(m) == c.sha256(m))
    && (forall v | FloatFree(v) :: py.dumps(v) == Canonical(v))
    && (forall k, s, m | c.verify(k, s, m) :: py.verify(k, s, m) && py.reencode(k) == k)
  }

  // A number as Python compares it; None where the comparison raises TypeError.
  function AsNumber(v: Value): Option<real>
  {
    match v
    case Integer(i) => Some(i as real)
    case Bool(b) => Some(if b then 1.0 else 0.0)
    case Float(r) => Some(r)
    case _ => None
  }

  predicate PyVerifyManifest(py: PyLibrary, manifest: Value, signature: string, key: string)
  {
    GetStr(manifest, "public_key") == Some(py.reencode(key)) && py.verify(key, signature, py.dumps(manifest))
  }

  predicate PyNotExpired(manifest: Value, now: int)
  {
    var field := Get(manifest, "expires_at");
    field == None || field == Some(Null) ||
    (AsNumber(field.value).Some? && now as real <= AsNumber(field.value).value)
  }

  predicate PyCountOk(manifest: Value, actual: nat)
  {
    var field := Get(manifest, "file_count");
    var declared := if field.None? then Some(actual as real) else AsNumber(field.value);
    declared.Some? && declared.value <= MAX_BUNDLE_FILES as real && actual <= MAX_BUNDLE_FILES
  }

  // `{entry["path"]: entry["hash"] for entry in ...}`; None where it raises or holds a path that is no string.
  function PyExpected(entries: seq<Value>): Option<map<string, Value>>
  {
    if entries == [] then Some(map[])
    else
      var before := PyExpected(entries[..|entries| - 1]);
      var entry := entries[|entries| - 1];
      if before.None? || GetStr(entry, "path").None? || Get(entry, "hash").None? then None
      else Some(before.value[GetStr(entry, "path").value := Get(entry, "hash").value])
  }

  // An empty object or an empty string iterates like an empty list.
  function PyEntries(manifest: Value): Option<map<string, Value>>
  {
    var field := Get(manifest, "files");
    if field.None? then None
    else
      match field.value
      case Array(items) => PyExpected(items)
      case Object(members) => if |members| == 0 then Some(map[]) else None
      case Str(s) => if s == "" then Some(map[]) else None
      case _ => None
  }

  // The files' sizes added up in the order the dictionary yields them.
  ghost predicate PyPayloadOk(
    py: PyLibrary, manifest: Value, files: map<string, Value>, order: seq<string>, site: seq<string>)
    requires Enumerates(order, files.Keys)
  {
    var expected := PyEntries(manifest);
    && PyCountOk(manifest, |files|)
    && PyFilesOk(files, site)
    && TotalSize(files, order, 0) <= MAX_BUNDLE_TOTAL_SIZE
    && expected.Some?
    && expected.value.Keys == files.Keys
    && PyHashesOk(py, files, expected.value)
  }

  ghost predicate PyFilesOk(files: map<string, Value>, site: seq<string>)
  {
    forall p | p in files :: files[p].Str? && PyValidPath(site, p)
  }

  ghost predicate HashOk(py: PyLibrary, files: map<string, Value>, expected: map<string, Value>, p: string)
    requires p in files && p in expected
  {
    files[p].Str? && IsMarkdown(p) && Str(py.sha256(Utf8(files[p].s))) == expected[p]
  }

  ghost predicate PyHashesOk(py: PyLibrary, files: map<string, Value>, expected: map<string, Value>)
    requires files.Keys <= expected.Keys
  {
    forall p | p in files :: HashOk(py, files, expected, p)
  }

  ghost predicate Enumerates(order: seq<string>, keys: set<string>)
  {
    && (forall i, j | 0 <= i < j < |order| :: order[i] != order[j])
    && (forall i | 0 <= i < |order| :: order[i] in keys)
    && (forall k | k in keys :: k in order)
  }

  ghost predicate PyAccepts(py: PyLibrary, b: Value, e: Expectation, order: seq<string>, site: seq<string>)
    requires Shape(b) ==> Enumerates(order, FileMap(b).Keys)
  {
    && Shape(b)
    && PyVerifyManifest(py, Manifest(b), Signature(b), e.key)
    && GetStr(Manifest(b), "uri") == Some(e.uri)
    && py.sha256(py.dumps(Manifest(b))) == e.ref
    && PyNotExpired(Manifest(b), e.now)
    && PyPayloadOk(py, Manifest(b), FileMap(b), order, site)
  }

  // What Rust asks for beyond Python, all of it readable off the response before either check runs: no
  // float, a strict signature, and integers and strings of the specified types in the fields compared.
  ghost predicate WellTyped(c: Crypto, b: Value, e: Expectation)
    requires Shape(b)
  {
    var m := Manifest(b);
    && FloatFree(m)
    && c.verify(e.key, Signature(b), Canonical(m))
    && (Get(m, "expires_at").Some? ==> Get(m, "expires_at").value.Null? || AsI64(Get(m, "expires_at").value).Some?)
    && (Get(m, "file_count").Some? ==> AsU64(Get(m, "file_count").value).Some?)
    && Get(m, "files").Some? && Get(m, "files").value.Array?
    && forall x | x in Get(m, "files").value.items :: GetStr(x, "hash").Some?
  }

  // ---- The order of a dictionary does not change the total

  ghost function SetTotal(files: map<string, Value>, s: set<string>): nat
    requires s <= files.Keys
  {
    if s == {} then 0
    else
      var p :| p in s;
      SizeOf(files[p]) + SetTotal(files, s - {p})
  }

  lemma {:induction false} SetTotalRemove(files: map<string, Value>, s: set<string>, q: string)
    requires s <= files.Keys && q in s
    ensures SetTotal(files, s) == SizeOf(files[q]) + SetTotal(files, s - {q})
    decreases |s|
  {
    hide SizeOf;
    var p :| p in s && SetTotal(files, s) == SizeOf(files[p]) + SetTotal(files, s - {p});
    if p != q {
      SetTotalRemove(files, s - {p}, q);
      SetTotalRemove(files, s - {q}, p);
      assert s - {p} - {q} == s - {q} - {p};
    }
  }

  lemma {:induction false} ListedTotal(files: map<string, Value>, order: seq<string>, i: nat, s: set<string>)
    requires i <= |order| && (forall j | 0 <= j < |order| :: order[j] in files)
    requires forall j, k | i <= j < k < |order| :: order[j] != order[k]
    requires s <= files.Keys && forall p :: p in s <==> p in order[i..]
    ensures TotalSize(files, order, i) == SetTotal(files, s)
    decreases |order| - i
  {
    hide SizeOf;
    if i == |order| {
      assert s == {};
    } else {
      assert order[i..] == [order[i]] + order[i + 1..];
      assert order[i] in s;
      SetTotalRemove(files, s, order[i]);
      ListedTotal(files, order, i + 1, s - {order[i]});
    }
  }

  lemma TotalIgnoresOrder(files: map<string, Value>, order: seq<string>)
    requires Enumerates(order, files.Keys)
    ensures TotalSize(files, order, 0) == TotalSize(files, SortedKeys(files.Keys), 0)
  {
    var keys := SortedKeys(files.Keys);
    IncreasingDistinct(keys);
    assert order[0..] == order && keys[0..] == keys;
    ListedTotal(files, order, 0, files.Keys);
    ListedTotal(files, keys, 0, files.Keys);
  }

  // ---- The two listings

  lemma {:induction false} ListingsAgree(entries: seq<Value>)
    ensures Expected(entries).Some? <==>
      PyExpected(entries).Some? && forall x | x in entries :: GetStr(x, "hash").Some?
    ensures Expected(entries).Some? ==>
      && Expected(entries).value.Keys == PyExpected(entries).value.Keys
      && forall p | p in Expected(entries).value :: PyExpected(entries).value[p] == Str(Expected(entries).value[p])
  {
    if entries != [] {
      var init, last := entries[..|entries| - 1], entries[|entries| - 1];
      ListingsAgree(init);
      assert entries == init + [last];
    }
  }

  lemma EntriesAgree(manifest: Value)
    ensures Entries(manifest).Some? <==>
      && PyEntries(manifest).Some? && Get(manifest, "files").value.Array?
      && forall x | x in Get(manifest, "files").value.items :: GetStr(x, "hash").Some?
    ensures Entries(manifest).Some? ==>
      && Entries(manifest).value.Keys == PyEntries(manifest).value.Keys
      && forall p | p in Entries(manifest).value :: PyEntries(manifest).value[p] == Str(Entries(manifest).value[p])
  {
    hide Expected;
    hide PyExpected;
    var field := Get(manifest, "files");
    if field.Some? && field.value.Array? { ListingsAgree(field.value.items); }
  }

  // ---- The comparison

  lemma CountsAgree(b: Value)
    requires Shape(b)
    ensures CountOk(b) <==>
      PyCountOk(Manifest(b), |FileMap(b)|) &&
      (Get(Manifest(b), "file_count").Some? ==> AsU64(Get(Manifest(b), "file_count").value).Some?)
  {
  }

  lemma ExpiryAgrees(manifest: Value, now: int)
    ensures !IsManifestExpired(manifest, now) <==>
      && PyNotExpired(manifest, now)
      && (Get(manifest, "expires_at").Some? ==>
          Get(manifest, "expires_at").value.Null? || AsI64(Get(manifest, "expires_at").value).Some?)
  {
  }

  // Rust accepts exactly what Python accepts among the well-typed responses. So nothing Rust accepts is
  // refused by the reference, in whatever order it holds the files and wherever the site directory is.
  lemma RustIsPythonOnWellTyped(
    py: PyLibrary, c: Crypto, b: Value, e: Expectation, order: seq<string>, site: seq<string>)
    requires Agree(py, c)
    requires Shape(b) ==> Enumerates(order, FileMap(b).Keys)
    ensures Check(c, b, e).Success? <==> Shape(b) && WellTyped(c, b, e) && PyAccepts(py, b, e, order, site)
  {
    hide Check;
    hide HeadOk;
    hide CountOk;
    hide FilesOk;
    hide HashesOk;
    hide Canonical;
    hide FloatFree;
    hide IsManifestExpired;
    hide PyNotExpired;
    hide PyVerifyManifest;
    hide PyPayloadOk;
    AcceptedIffAcceptable(c, b, e);
    if Shape(b) {
      SameHead(py, c, b, e);
      ExpiryAgrees(Manifest(b), e.now);
      SamePayload(py, c, b, order, site);
    } else {
      NoShape(c, b, e);
    }
  }

  lemma NoShape(c: Crypto, b: Value, e: Expectation)
    requires !Shape(b)
    ensures !Acceptable(c, b, e)
  {
  }

  // Signature and reference, once the response is well typed.
  lemma SameHead(py: PyLibrary, c: Crypto, b: Value, e: Expectation)
    requires Agree(py, c) && Shape(b)
    ensures HeadOk(c, b, e) <==>
      && FloatFree(Manifest(b))
      && c.verify(e.key, Signature(b), Canonical(Manifest(b)))
      && PyVerifyManifest(py, Manifest(b), Signature(b), e.key)
      && GetStr(Manifest(b), "uri") == Some(e.uri)
      && py.sha256(py.dumps(Manifest(b))) == e.ref
      && !IsManifestExpired(Manifest(b), e.now)
  {
    hide Canonical;
    hide FloatFree;
    hide IsManifestExpired;
  }

  lemma SamePayload(py: PyLibrary, c: Crypto, b: Value, order: seq<string>, site: seq<string>)
    requires Agree(py, c) && Shape(b) && Enumerates(order, FileMap(b).Keys)
    ensures CountOk(b) && FilesOk(FileMap(b)) && HashesOk(c, Manifest(b), FileMap(b)) <==>
      && PyPayloadOk(py, Manifest(b), FileMap(b), order, site)
      && (Get(Manifest(b), "file_count").Some? ==> AsU64(Get(Manifest(b), "file_count").value).Some?)
      && Get(Manifest(b), "files").Some? && Get(Manifest(b), "files").value.Array?
      && forall x | x in Get(Manifest(b), "files").value.items :: GetStr(x, "hash").Some?
  {
    hide Utf8;
    hide TotalSize;
    var m, files := Manifest(b), FileMap(b);
    EntriesAgree(m);
    CountsAgree(b);
    TotalIgnoresOrder(files, order);
    forall p | p in files ensures ValidPath(p) <==> PyValidPath(site, p) {
      PathRulesAgree(site, p);
    }
  }

  // ---- The program's own form of the content checks

  // `validate_bundle_payload`: the list it returns, None where it raises.
  method ValidateBundlePayload(
    py: PyLibrary, manifest: Value, files: map<string, Value>, order: seq<string>, site: seq<string>)
    returns (r: Option<Files>)
    requires Enumerates(order, files.Keys)
    ensures r.Some? <==> PyPayloadOk(py, manifest, files, order, site)
    ensures r.Some? ==> Carries(files, order, r.value)
  {
    hide PyCountOk;
    hide PyEntries;
    hide PyFilesOk;
    hide TotalSize;
    hide Carries;
    hide PyHashesOk;
    if !PyCountOk(manifest, |files|) {
      return None;
    }
    var validated := CollectFiles(files, order, site);
    if validated.None? {
      return None;
    }
    var expected := PyEntries(manifest);
    if expected.None? || files.Keys != expected.value.Keys {
      return None;
    }
    var same := CheckListed(py, files, order, validated.value, expected.value);
    r := if same then validated else None;
  }

  // The loop over the files: texts at valid paths, within the limit added up so far.
  method CollectFiles(files: map<string, Value>, order: seq<string>, site: seq<string>) returns (r: Option<Files>)
    requires Enumerates(order, files.Keys)
    ensures r.Some? <==> PyFilesOk(files, site) && TotalSize(files, order, 0) <= MAX_BUNDLE_TOTAL_SIZE
    ensures r.Some? ==> Carries(files, order, r.value)
  {
    hide PyValidPath;
    hide Utf8;
    var validated: Files := [];
    var total: nat := 0;
    for i := 0 to |order|
      invariant |validated| == i
      invariant forall j | 0 <= j < i :: files[order[j]].Str? && PyValidPath(site, order[j])
      invariant forall j | 0 <= j < i :: validated[j] == (order[j], Utf8(files[order[j]].s))
      invariant total + TotalSize(files, order, i) == TotalSize(files, order, 0) && total <= MAX_BUNDLE_TOTAL_SIZE
    {
      var path, content := order[i], files[order[i]];
      if !content.Str? || !PyValidPath(site, path) {
        return None;
      }
      var raw := Utf8(content.s);
      total := total + |raw|;
      if total > MAX_BUNDLE_TOTAL_SIZE {
        return None;
      }
      validated := validated + [(path, raw)];
    }
    r := Some(validated);
  }

  // The loop over what was collected: Markdown, with the hash the manifest lists.
  method CheckListed(
    py: PyLibrary, files: map<string, Value>, order: seq<string>, validated: Files, expected: map<string, Value>)
    returns (ok: bool)
    requires Enumerates(order, files.Keys) && Carries(files, order, validated) && expected.Keys == files.Keys
    ensures ok <==> PyHashesOk(py, files, expected)
  {
    hide IsMarkdown;
    hide Utf8;
    AllTexts(files, order, validated);
    for i := 0 to |order|
      invariant forall j | 0 <= j < i :: HashOk(py, files, expected, order[j])
    {
      var (path, raw) := validated[i];
      assert order[i] in expected && path == order[i];
      if !IsMarkdown(path) || Str(py.sha256(raw)) != expected[path] {
        assert !HashOk(py, files, expected, order[i]);
        return false;
      }
    }
    ok := true;
  }

  lemma AllTexts(files: map<string, Value>, order: seq<string>, validated: Files)
    requires Enumerates(order, files.Keys) && Carries(files, order, validated)
    ensures forall p | p in files :: files[p].Str?
  {
    hide Utf8;
  }
}
