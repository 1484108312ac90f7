/**
 Every visitor seeds: what a node writes after accepting a bundle, it later serves to others
 (rust/mdp2p-node/src/store.rs:79-184), and they accept it under the same expectation.
 */
module Seeding {
  import opened Bundle
  import opened Disk
  import opened Json
  import opened Paths
  import opened Printer
  import opened Records
  import opened Storage
  import opened Text
  import opened Wrappers

  // ---- The written files can be read back

  ghost predicate DistinctPaths(files: Files)
  {
    forall i, j | 0 <= i < j < |files| :: files[i].0 != files[j].0
  }

  lemma SplitInjective(p: string, q: string)
    requires Split(p) == Split(q)
    ensures p == q
  {
    JoinSplit(p);
    JoinSplit(q);
  }

  lemma {:induction false} FilesTreeHolds(files: Files, j: nat)
    requires DistinctPaths(files) && j < |files|
    ensures Split(files[j].0) in FilesTree(files) && FilesTree(files)[Split(files[j].0)] == files[j].1
    decreases |files|
  {
    var init := files[..|files| - 1];
    if j < |files| - 1 {
      FilesTreeHolds(init, j);
      if Split(files[|files| - 1].0) == Split(files[j].0) {
        SplitInjective(files[|files| - 1].0, files[j].0);
      }
    }
  }

  // No Markdown file is one of the two files the store adds.
  lemma MarkdownIsNotManifest(p: string)
    requires IsMarkdown(p)
    ensures Split(p) != [MANIFEST_FILE] && Split(p) != [SIGNATURE_FILE]
  {
    JoinSplit(p);
    assert MANIFEST_FILE[|MANIFEST_FILE| - 3] == 's' && SIGNATURE_FILE[|SIGNATURE_FILE| - 3] == 's';
    assert p[|p| - 3] == p[|p| - 3..][0] == '.';
  }

  lemma WrittenFileReadsBack(codec: FileCodec, manifest: Value, signature: string, files: Files, j: nat, text: string)
    requires DistinctPaths(files) && j < |files| && IsMarkdown(files[j].0) && files[j].1 == Utf8(text)
    ensures ReadText(SiteTree(codec, manifest, signature, files), files[j].0) == Some(text)
  {
    hide Utf8;
    hide FromUtf8;
    hide FilesTree;
    FilesTreeHolds(files, j);
    MarkdownIsNotManifest(files[j].0);
    Utf8RoundTrip(text);
  }

  lemma ManifestReadsBack(codec: FileCodec, manifest: Value, signature: string, files: Files)
    requires codec.parse(codec.pretty(manifest)) == Some(manifest)
    ensures LoadManifest(codec, SiteTree(codec, manifest, signature, files)) == Some((manifest, codec.trim(signature)))
  {
    hide Utf8;
    hide FromUtf8;
    hide FilesTree;
    Utf8RoundTrip(signature);
    assert MANIFEST_FILE[9] == 'j' && SIGNATURE_FILE[9] == 's';
  }

  lemma DeliveredFiles(files: map<string, Value>, accepted: Files)
    requires Carries(files, SortedKeys(files.Keys), accepted)
    ensures DistinctPaths(accepted)
    ensures forall p | p in files :: files[p].Str? && exists j ::
      0 <= j < |accepted| && accepted[j] == (p, Utf8(files[p].s))
  {
    hide Utf8;
    var keys := SortedKeys(files.Keys);
    IncreasingDistinct(keys);
    assert forall j | 0 <= j < |keys| :: accepted[j] == (keys[j], Utf8(files[keys[j]].s));
    forall p | p in files
      ensures files[p].Str? && exists j :: 0 <= j < |accepted| && accepted[j] == (p, Utf8(files[p].s))
    {
      assert p in keys;
      var j :| 0 <= j < |keys| && keys[j] == p;
      assert accepted[j] == (p, Utf8(files[p].s));
    }
  }

  lemma AcceptedReadsBack(
    codec: FileCodec, manifest: Value, signature: string, files: map<string, Value>, accepted: Files, p: string)
    requires Carries(files, SortedKeys(files.Keys), accepted) && p in files && IsMarkdown(p)
    ensures files[p].Str? && ReadText(SiteTree(codec, manifest, signature, accepted), p) == Some(files[p].s)
  {
    hide Utf8;
    hide SiteTree;
    DeliveredFiles(files, accepted);
    var j :| 0 <= j < |accepted| && accepted[j] == (p, Utf8(files[p].s));
    WrittenFileReadsBack(codec, manifest, signature, accepted, j, files[p].s);
  }

  // ---- Serving gives back the files the manifest lists

  // Every listed path is one of the files, and reading it gives its text.
  ghost predicate Readable(t: Tree, files: map<string, Value>, entries: seq<Value>)
  {
    forall x | x in entries ::
      && GetStr(x, "path").Some?
      && var p := GetStr(x, "path").value;
      && p in files && files[p].Str? && ValidPath(p) && ReadText(t, p) == Some(files[p].s)
  }

  lemma {:induction false} ServesListed(t: Tree, files: map<string, Value>, entries: seq<Value>)
    requires Readable(t, files, entries) && Expected(entries).Some?
    ensures ServedFiles(t, entries).Some?
    ensures ServedFiles(t, entries).value.Keys == Expected(entries).value.Keys
    ensures forall p | p in ServedFiles(t, entries).value :: p in files && ServedFiles(t, entries).value[p] == files[p]
  {
    hide ReadText;
    hide ValidPath;
    if entries != [] {
      var init, last := entries[..|entries| - 1], entries[|entries| - 1];
      assert entries == init + [last] && last in entries;
      ServesListed(t, files, init);
    }
  }

  lemma {:induction false} ListedPathsExpected(entries: seq<Value>, x: Value)
    requires Expected(entries).Some? && x in entries
    ensures GetStr(x, "path").Some? && GetStr(x, "path").value in Expected(entries).value
  {
    var init, last := entries[..|entries| - 1], entries[|entries| - 1];
    assert entries == init + [last];
    if x != last {
      ListedPathsExpected(init, x);
    }
  }

  lemma ServesAccepted(
    c: Crypto, codec: FileCodec, manifest: Value, signature: string, files: map<string, Value>, accepted: Files)
    requires FilesOk(files) && HashesOk(c, manifest, files) && Carries(files, SortedKeys(files.Keys), accepted)
    requires codec.parse(codec.pretty(manifest)) == Some(manifest)
    ensures Serve(codec, SiteTree(codec, manifest, signature, accepted)) ==
      Some(BundleMessage(manifest, codec.trim(signature), files))
  {
    hide Utf8;
    hide ReadText;
    hide ValidPath;
    hide IsMarkdown;
    hide LoadManifest;
    hide SiteTree;
    hide TotalSize;
    hide Expected;
    hide ServedFiles;
    hide Carries;
    var t := SiteTree(codec, manifest, signature, accepted);
    var entries := Get(manifest, "files").value.items;
    ManifestReadsBack(codec, manifest, signature, accepted);
    forall x | x in entries
      ensures && GetStr(x, "path").Some?
              && var p := GetStr(x, "path").value;
              && p in files && files[p].Str? && ValidPath(p) && ReadText(t, p) == Some(files[p].s)
    {
      ListedPathsExpected(entries, x);
      var p := GetStr(x, "path").value;
      assert p in files.Keys;
      AcceptedReadsBack(codec, manifest, signature, files, accepted, p);
    }
    ServesListed(t, files, entries);
    assert ServedFiles(t, entries).value == files;
  }

  // ---- The served response is accepted again

  lemma MessageFields(manifest: Value, signature: string, files: map<string, Value>)
    requires manifest.Object?
    ensures var m := BundleMessage(manifest, signature, files);
      Shape(m) && Manifest(m) == manifest && Signature(m) == signature && FileMap(m) == files
  {
    assert "type"[0] == 't' && "manifest"[0] == 'm' && "signature"[0] == 's' && "files"[0] == 'f';
  }

  // At any later time, the response served from what was written passes the check again and delivers the
  // same files, unless the manifest has expired by then, which is the one reason it can be refused for.
  // The parser has to read back the manifest the printer wrote, and a signature has to verify also
  // without the blanks around it, because the store trims the file it reads it from.
  lemma SeedingPreservesAcceptance(c: Crypto, codec: FileCodec, b: Value, e: Expectation, later: int)
    requires Check(c, b, e).Success?
    requires codec.parse(codec.pretty(Manifest(b))) == Some(Manifest(b))
    requires forall k, s, m | c.verify(k, s, m) :: c.verify(k, codec.trim(s), m)
    ensures var files := Check(c, b, e).value;
      var served := Serve(codec, SiteTree(codec, Manifest(b), Signature(b), files));
      && served.Some?
      && Check(c, served.value, e.(now := later)) ==
           if IsManifestExpired(Manifest(b), later) then Failure(Expired) else Success(files)
  {
    hide Utf8;
    hide Canonical;
    hide FloatFree;
    hide SiteTree;
    hide Serve;
    hide ContentCheck;
    hide FilesOk;
    hide HashesOk;
    hide IsManifestExpired;
    hide BundleMessage;
    hide Carries;
    AcceptedIffAcceptable(c, b, e);
    var m, f, files := Manifest(b), FileMap(b), Check(c, b, e).value;
    ServesAccepted(c, codec, m, Signature(b), f, files);
    MessageFields(m, codec.trim(Signature(b)), f);
  }

  // Writing one site leaves every other site, and what is served for it, as it was.
  lemma OtherSitesUnaffected(s: Dirs, store: SiteStore, d0: Dirs, uri: string, site: Tree, other: string)
    requires OthersKept(s, store.SwapOf(d0, uri, site))
    requires ValidUri(other) && other != uri
    ensures (other in s <==> other in d0) && (other in s ==> s[other] == d0[other])
  {
    HiddenNames(uri, store.pid);
  }

  // ---- What is written where

  lemma WrittenWhere(codec: FileCodec, manifest: Value, signature: string, files: Files)
    ensures var t := SiteTree(codec, manifest, signature, files);
      && ["manifest.json"] in t && t[["manifest.json"]] == codec.pretty(manifest)
      && ["manifest.sig"] in t && t[["manifest.sig"]] == Utf8(signature)
  {
    assert "manifest.json"[9] == 'j' && "manifest.sig"[9] == 's';
    hide FilesTree;
    hide Utf8;
  }
}
