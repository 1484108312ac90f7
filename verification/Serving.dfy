/**
 What a node answers to whom (rust/mdp2p-node/src/store.rs:79-95), member by member: bundles and manifests of the sites
 it has written, as they were accepted, and errors for everything else.
 */
module Serving {
  import opened Bundle
  import opened Disk
  import opened Json
  import opened Paths
  import opened Records
  import opened Seeding
  import opened Storage
  import opened Terms
  import opened Wrappers

  ghost predicate Asks(request: Value, kind: string, uri: string)
  {
    IsText(request, "type", kind) && IsText(request, "uri", uri)
  }

  // The node has this site under the name, as it was written once the response was accepted.
  ghost predicate Wrote(
    c: Crypto, codec: FileCodec, sites: map<string, string>, dirs: Dirs, b: Value, e: Expectation)
  {
    && Check(c, b, e).Success?
    && e.uri in sites && sites[e.uri] in dirs
    && dirs[sites[e.uri]] == SiteTree(codec, Manifest(b), Signature(b), Check(c, b, e).value)
  }

  // What is assumed of the libraries a site goes through on disk: the parser reads back this manifest, and a
  // signature verifies without the blanks around it.
  ghost predicate Faithful(c: Crypto, codec: FileCodec, manifest: Value)
  {
    && codec.parse(codec.pretty(manifest)) == Some(manifest)
    && forall k, s, m | c.verify(k, s, m) :: c.verify(k, codec.trim(s), m)
  }

  // Whoever asks for the manifest of a written site gets the accepted manifest and a signature that verifies with it
  // under the author's key: what it takes to learn of an update.
  lemma ManifestIsAnswered(
    c: Crypto, codec: FileCodec, sites: map<string, string>, dirs: Dirs, b: Value, e: Expectation, request: Value)
    requires Wrote(c, codec, sites, dirs, b, e) && Shape(b) && Faithful(c, codec, Manifest(b))
    requires Asks(request, "get_manifest", e.uri)
    ensures var answer := Answer(codec, sites, dirs, request);
      && IsText(answer, "type", "manifest")
      && {"manifest", "signature"} <= answer.members.Keys
      && answer.members["manifest"] == b.members["manifest"]
      && answer.members["signature"].Str?
      && VerifyManifest(c, answer.members["manifest"], answer.members["signature"].s, e.key)
  {
    AcceptedIffAcceptable(c, b, e);
    AskedFor(request, "get_manifest", e.uri);
    hide Check;
    hide SiteTree;
    hide LoadManifest;
    ManifestReadsBack(codec, Manifest(b), Signature(b), Check(c, b, e).value);
    ShapeInTerms(b);
    hide Shape;
    ManifestMessage(codec, sites, dirs, request, e.uri, Manifest(b), codec.trim(Signature(b)));
  }

  lemma AskedFor(request: Value, kind: string, uri: string)
    requires Asks(request, kind, uri)
    ensures GetStr(request, "type") == Some(kind) && GetStr(request, "uri") == Some(uri)
  {
  }

  lemma ManifestMessage(codec: FileCodec, sites: map<string, string>, dirs: Dirs, request: Value, uri: string,
                        manifest: Value, signature: string)
    requires GetStr(request, "type") == Some("get_manifest") && GetStr(request, "uri") == Some(uri)
    requires uri in sites && sites[uri] in dirs && LoadManifest(codec, dirs[sites[uri]]) == Some((manifest, signature))
    ensures var answer := Answer(codec, sites, dirs, request);
      && IsText(answer, "type", "manifest") && IsText(answer, "signature", signature)
      && "manifest" in answer.members && answer.members["manifest"] == manifest
  {
    assert "get_manifest"[4] == 'm' && "get_bundle"[4] == 'b';
    assert "type"[0] == 't' && "manifest"[0] == 'm' && "signature"[0] == 's';
    hide LoadManifest;
  }

  // Whoever asks for its bundle gets, until it expires, a message of that kind that passes the check and delivers the
  // same files.
  lemma BundleIsAnswered(
    c: Crypto, codec: FileCodec, sites: map<string, string>, dirs: Dirs, b: Value, e: Expectation, request: Value,
    later: int)
    requires Wrote(c, codec, sites, dirs, b, e) && Shape(b) && Faithful(c, codec, Manifest(b))
    requires Asks(request, "get_bundle", e.uri) && !IsManifestExpired(Manifest(b), later)
    ensures var answer := Answer(codec, sites, dirs, request);
      IsText(answer, "type", "bundle") && Check(c, answer, e.(now := later)) == Check(c, b, e)
  {
    AskedFor(request, "get_bundle", e.uri);
    hide Check;
    hide SiteTree;
    hide Serve;
    SeedingPreservesAcceptance(c, codec, b, e, later);
    ServedIsBundle(codec, dirs[sites[e.uri]]);
  }

  lemma ServedIsBundle(codec: FileCodec, t: Tree)
    ensures Serve(codec, t).Some? ==> IsText(Serve(codec, t).value, "type", "bundle")
  {
    assert "type"[0] == 't' && "manifest"[0] == 'm' && "signature"[0] == 's' && "files"[0] == 'f';
    hide LoadManifest;
    hide ServedFiles;
  }

  ghost predicate IsError(v: Value, msg: string) { IsText(v, "type", "error") && IsText(v, "msg", msg) }

  // Everything else is an error: a site the node does not have, a kind of request it does not know, and a site whose
  // files cannot be read.
  lemma OthersAreErrors(
    codec: FileCodec, sites: map<string, string>, dirs: Dirs, request: Value, kind: string, uri: string)
    requires Asks(request, kind, uri)
    ensures var answer := Answer(codec, sites, dirs, request);
      var t := if uri in sites && sites[uri] in dirs then dirs[sites[uri]] else map[];
      && (uri !in sites ==> IsError(answer, "site '" + uri + "' not found"))
      && (uri in sites && kind != "get_bundle" && kind != "get_manifest" ==> IsError(answer, "unknown type: " + kind))
      && (uri in sites && kind == "get_manifest" && LoadManifest(codec, t).None? ==> IsError(answer, "internal error"))
      && (uri in sites && kind == "get_bundle" && Serve(codec, t).None? ==> IsError(answer, "internal error"))
  {
    AskedFor(request, kind, uri);
    assert "type"[0] == 't' && "msg"[0] == 'm';
    hide LoadManifest;
    hide Serve;
  }

  // ---- After a restart

  // Every site the node has written is indexed again under its own name, and no directory on its way in or out is.
  lemma WrittenIsIndexed(
    c: Crypto, codec: FileCodec, dirs: Dirs, b: Value, e: Expectation, pid: string, other: string)
    requires Check(c, b, e).Success? && Shape(b) && Faithful(c, codec, Manifest(b)) && ValidUri(e.uri)
    requires e.uri in dirs && dirs[e.uri] == SiteTree(codec, Manifest(b), Signature(b), Check(c, b, e).value)
    ensures Indexable(codec, dirs, e.uri, e.uri)
    ensures !Indexable(codec, dirs, StagingName(e.uri, pid), other)
    ensures !Indexable(codec, dirs, BackupName(e.uri, pid), other)
  {
    AcceptedIffAcceptable(c, b, e);
    hide Check;
    hide SiteTree;
    hide LoadManifest;
    ManifestReadsBack(codec, Manifest(b), Signature(b), Check(c, b, e).value);
    HiddenNames(e.uri, pid);
  }
}
