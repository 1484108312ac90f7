/**
 Accepted and yet not storable: acceptance looks at each path on its own, but a directory cannot hold a file and
 something inside it. Which bundles a fetch can store, and one that it accepts and never can.
 */
module Clashes {
  import opened Bundle
  import opened Paths
  import opened Publishing
  import opened Records
  import opened Storage

  // No file is inside another, or inside one of the two the store adds. Files found in one directory, beside
  // which manifest and signature could be saved, are always apart.
  ghost predicate FilesApart(files: Files)
  {
    && (forall i, j | 0 <= i < |files| && 0 <= j < |files| :: !(Split(files[i].0) < Split(files[j].0)))
    && NothingInside(files, MANIFEST_FILE) && NothingInside(files, SIGNATURE_FILE)
  }

  lemma StorableMeans(files: Files)
    requires forall i | 0 <= i < |files| :: ValidPath(files[i].0)
    ensures Storable(files) <==> FilesApart(files)
  {
    hide ValidPath;
    hide NothingInside;
    if Storable(files) {
      forall i, j | 0 <= i < |files| && 0 <= j < |files| ensures !(Split(files[i].0) < Split(files[j].0)) {
        if i < j {
          assert !Clash(Split(files[i].0), Split(files[j].0));
        } else if j < i {
          assert !Clash(Split(files[j].0), Split(files[i].0));
        }
      }
    }
  }

  // Only which files there are counts, not their order.
  lemma ApartIgnoresOrder(a: Files, b: Files)
    requires forall f :: f in a <==> f in b
    ensures FilesApart(a) ==> FilesApart(b)
  {
    forall j | 0 <= j < |b| ensures b[j] in a {
      assert b[j] in b;
    }
    if FilesApart(a) {
      forall i, j | 0 <= i < |b| && 0 <= j < |b| ensures !(Split(b[i].0) < Split(b[j].0)) {
        assert b[i] in a && b[j] in a;
        var k :| 0 <= k < |a| && a[k] == b[i];
        var l :| 0 <= l < |a| && a[l] == b[j];
      }
      forall i | 0 <= i < |b|
        ensures !([MANIFEST_FILE] < Split(b[i].0)) && !([SIGNATURE_FILE] < Split(b[i].0))
      {
        assert b[i] in a;
        var k :| 0 <= k < |a| && a[k] == b[i];
      }
    }
  }

  // What an author publishes from a directory can be stored by everybody who accepts it.
  lemma PublishedIsStored(c: Crypto, codec: FileCodec, d: Draft, a: Author, files: Files, now: int)
    requires Walk(files) && Publishable(files) && Servable(files) && HonestAuthor(c, a) && now <= d.expiresAt
    requires forall k, s, m | c.verify(k, s, m) :: c.verify(k, codec.trim(s), m)
    ensures var e := Expectation(d.uri, a.key, RefOf(c, d, a, files), now);
      var r := Check(c, Offered(c, codec, d, a, files), e);
      r.Success? && (Storable(r.value) <==> FilesApart(files))
  {
    ServableIsValid(files);
    hide *;
    PublishedIsAccepted(c, codec, d, a, files, now);
    var e := Expectation(d.uri, a.key, RefOf(c, d, a, files), now);
    var accepted := Check(c, Offered(c, codec, d, a, files), e).value;
    ApartIgnoresOrder(files, accepted);
    ApartIgnoresOrder(accepted, files);
    forall i | 0 <= i < |accepted| ensures ValidPath(accepted[i].0) {
      assert accepted[i] in files;
    }
    StorableMeans(accepted);
  }

  lemma ServableIsValid(files: Files)
    requires Servable(files)
    ensures forall f | f in files :: ValidPath(f.0)
  {
    hide ValidPath;
  }

  // ---- Accepted and never stored

  lemma NestedIsValid(a: string, b: string)
    requires '/' !in a && '\\' !in a && '\0' !in a && NormalSegment(a)
    requires '/' !in b && '\\' !in b && '\0' !in b && NormalSegment(b)
    ensures ValidPath(a + "/" + b) && Split(a + "/" + b) == [a, b] && Split(a) == [a]
  {
    SplitJoined(a, b);
    SplitPlain(a);
    SplitPlain(b);
  }

  // Any author can have any two valid Markdown paths accepted; everybody who accepts them can store them exactly
  // when they are apart.
  lemma PairIsAccepted(c: Crypto, codec: FileCodec, d: Draft, a: Author, now: int, p: string, q: string)
    requires p != q && ValidPath(p) && ValidPath(q) && IsMarkdown(p) && IsMarkdown(q)
    requires HonestAuthor(c, a) && now <= d.expiresAt
    requires forall k, s, m | c.verify(k, s, m) :: c.verify(k, codec.trim(s), m)
    ensures var files: Files := [(p, []), (q, [])];
      && Walk(files) && Publishable(files) && Servable(files)
      && var r := Check(c, Offered(c, codec, d, a, files), Expectation(d.uri, a.key, RefOf(c, d, a, files), now));
        r.Success? && (forall f :: f in r.value <==> f in files) && (Storable(r.value) <==> FilesApart(files))
  {
    PairIsPublishable(p, q);
    hide *;
    PublishedIsAccepted(c, codec, d, a, [(p, []), (q, [])], now);
    PublishedIsStored(c, codec, d, a, [(p, []), (q, [])], now);
  }

  lemma PairIsPublishable(p: string, q: string)
    requires p != q && ValidPath(p) && ValidPath(q) && IsMarkdown(p) && IsMarkdown(q)
    ensures var files: Files := [(p, []), (q, [])]; Walk(files) && Publishable(files) && Servable(files)
  {
    var files: Files := [(p, []), (q, [])];
    var first: Files := [(p, [])];
    assert files[..1] == first && first[..0] == [];
    assert BytesIn(first) == 0;
  }

  // A file and something inside it: accepted from any author, and no node can ever write it.
  lemma NestedIsNeverStored(c: Crypto, codec: FileCodec, d: Draft, a: Author, now: int)
    requires HonestAuthor(c, a) && now <= d.expiresAt
    requires forall k, s, m | c.verify(k, s, m) :: c.verify(k, codec.trim(s), m)
    ensures var files: Files := [("a.md", []), ("a.md/b.md", [])];
      && Walk(files) && Publishable(files) && Servable(files)
      && var r := Check(c, Offered(c, codec, d, a, files), Expectation(d.uri, a.key, RefOf(c, d, a, files), now));
        r.Success? && !Storable(r.value)
  {
    NestedPaths();
    assert "a.md" != "a.md/b.md";
    hide *;
    PairIsAccepted(c, codec, d, a, now, "a.md", "a.md/b.md");
    NestedAreNotApart([("a.md", []), ("a.md/b.md", [])], 0, 1);
  }

  lemma NestedPaths()
    ensures ValidPath("a.md") && ValidPath("a.md/b.md") && IsMarkdown("a.md") && IsMarkdown("a.md/b.md")
    ensures Split("a.md") < Split("a.md/b.md")
  {
    NestedIsValid("a.md", "b.md");
    PlainNameIsValid("a.md");
    assert "a.md" + "/" + "b.md" == "a.md/b.md";
    assert "a.md"[1..] == ".md" && "a.md/b.md"[6..] == ".md";
  }

  // Something inside the manifest's own file, likewise.
  lemma InsideManifestIsNeverStored(c: Crypto, codec: FileCodec, d: Draft, a: Author, now: int)
    requires HonestAuthor(c, a) && now <= d.expiresAt
    requires forall k, s, m | c.verify(k, s, m) :: c.verify(k, codec.trim(s), m)
    ensures var files: Files := [("a.md", []), ("manifest.json/x.md", [])];
      && Walk(files) && Publishable(files) && Servable(files)
      && var r := Check(c, Offered(c, codec, d, a, files), Expectation(d.uri, a.key, RefOf(c, d, a, files), now));
        r.Success? && !Storable(r.value)
  {
    InsidePaths();
    assert "a.md" != "manifest.json/x.md";
    hide *;
    PairIsAccepted(c, codec, d, a, now, "a.md", "manifest.json/x.md");
    InsideIsNotApart([("a.md", []), ("manifest.json/x.md", [])], 1);
  }

  lemma InsidePaths()
    ensures ValidPath("a.md") && ValidPath("manifest.json/x.md")
    ensures IsMarkdown("a.md") && IsMarkdown("manifest.json/x.md")
    ensures [MANIFEST_FILE] < Split("manifest.json/x.md")
  {
    hide ValidPath;
    hide Split;
    hide IsMarkdown;
    NestedPaths();
    InsideIsNested("manifest.json", "x.md");
    assert "manifest.json" + "/" + "x.md" == "manifest.json/x.md";
    EndsInMarkdown("manifest.json/x");
    assert "manifest.json/x" + ".md" == "manifest.json/x.md";
  }

  lemma InsideIsNested(a: string, b: string)
    requires a == "manifest.json" && b == "x.md"
    ensures ValidPath(a + "/" + b) && [a] < Split(a + "/" + b)
  {
    NestedIsValid(a, b);
  }

  lemma EndsInMarkdown(s: string)
    ensures IsMarkdown(s + ".md")
  {
  }

  lemma InsideIsNotApart(files: Files, j: nat)
    requires j < |files| && [MANIFEST_FILE] < Split(files[j].0)
    ensures !FilesApart(files)
  {
  }

  lemma NestedAreNotApart(files: Files, i: nat, j: nat)
    requires i < |files| && j < |files| && Split(files[i].0) < Split(files[j].0)
    ensures !FilesApart(files)
  {
  }
}
