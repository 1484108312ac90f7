/** Site names and bundle file paths: rust/mdp2p-core/src/paths.rs and the lexical part of bundle/paths.py. */
module Paths {

  const MAX_URI_LENGTH := 255
  const MAX_PATH_DEPTH := 10

  predicate IsAlphanumeric(c: char)
  {
    '0' <= c <= '9' || 'A' <= c <= 'Z' || 'a' <= c <= 'z'
  }

  predicate IsUriChar(c: char)
  {
    IsAlphanumeric(c) || c == '.' || c == '_' || c == '-'
  }

  predicate HasDoubleDot(s: string)
  {
    exists i | 0 <= i < |s| - 1 :: s[i] == '.' && s[i + 1] == '.'
  }

  predicate ValidUri(uri: string)
  {
    && uri != []
    && |uri| <= MAX_URI_LENGTH
    && IsAlphanumeric(uri[0])
    && (forall c | c in uri[1..] :: IsUriChar(c))
    && !HasDoubleDot(uri)
  }

  // `path.split('/')`
  function Split(path: string): (segments: seq<string>)
    ensures |segments| >= 1
  {
    if path == [] then [[]]
    else
      var rest := Split(path[1..]);
      if path[0] == '/' then [[]] + rest else [[path[0]] + rest[0]] + rest[1..]
  }

  function Join(segments: seq<string>): string
    requires |segments| >= 1
  {
    if |segments| == 1 then segments[0] else segments[0] + ['/'] + Join(segments[1..])
  }

  predicate NormalSegment(s: string)
  {
    s != [] && s != ['.'] && s != ['.', '.']
  }

  predicate ValidPath(path: string)
  {
    && '\\' !in path
    && '\0' !in path
    && |Split(path)| <= MAX_PATH_DEPTH
    && forall s | s in Split(path) :: NormalSegment(s)
  }

  // Where a sequence of segments leads from `base`, once "", "." and ".." have been resolved.
  function Resolve(base: seq<string>, segments: seq<string>): seq<string>
    decreases |segments|
  {
    if segments == [] then base
    else
      var s := segments[0];
      var here :=
        if s == [] || s == ['.'] then base
        else if s == ['.', '.'] then (if base == [] then [] else base[..|base| - 1])
        else base + [s];
      Resolve(here, segments[1..])
  }

  // `PurePosixPath(relative).parts` of a relative path: empty and "." components are dropped.
  function Parts(segments: seq<string>): seq<string>
  {
    if segments == [] then []
    else (if segments[0] == [] || segments[0] == ['.'] then [] else [segments[0]]) + Parts(segments[1..])
  }

  // bundle/paths.py, without following symbolic links.
  predicate PyValidPath(base: seq<string>, relative: string)
  {
    && '\\' !in relative
    && '\0' !in relative
    && (forall s | s in Split(relative) :: s != [] && s != ['.'] && s != ['.', '.'])
    && base <= Resolve(base, Split(relative))
    && Resolve(base, Split(relative)) != base
    && |Parts(Split(relative))| <= MAX_PATH_DEPTH
  }

  predicate PyValidUri(uri: string)
  {
    && uri != []
    && |uri| <= MAX_URI_LENGTH
    && !('/' in uri || '\\' in uri || '\0' in uri)
    && !(uri == ['.'] || uri == ['.', '.'] || HasDoubleDot(uri))
    && IsAlphanumeric(uri[0])
    && (forall c | c in uri[1..] :: IsUriChar(c))
  }

  lemma {:induction false} JoinSplit(path: string)
    ensures Join(Split(path)) == path
  {
    if path != [] {
      JoinSplit(path[1..]);
      var rest := Split(path[1..]);
      if path[0] == '/' {
        assert Split(path)[1..] == rest;
        assert path == [] + ['/'] + path[1..];
      } else {
        assert Split(path)[1..] == rest[1..];
        assert path == [path[0]] + path[1..];
      }
    }
  }

  lemma {:induction false} SplitPlain(name: string)
    requires '/' !in name
    ensures Split(name) == [name]
  {
    if name != [] {
      SplitPlain(name[1..]);
      assert name == [name[0]] + name[1..];
    }
  }

  lemma {:induction false} SplitJoined(a: string, b: string)
    requires '/' !in a
    ensures Split(a + "/" + b) == [a] + Split(b)
  {
    var s := a + "/" + b;
    if a == "" {
      assert s == "/" + b && s[1..] == b;
    } else {
      assert s[1..] == a[1..] + "/" + b;
      SplitJoined(a[1..], b);
      assert a == [a[0]] + a[1..];
    }
  }

  lemma {:induction false} ResolveNormal(base: seq<string>, segments: seq<string>)
    requires forall s | s in segments :: NormalSegment(s)
    ensures Resolve(base, segments) == base + segments
    decreases |segments|
  {
    if segments != [] {
      assert NormalSegment(segments[0]);
      ResolveNormal(base + [segments[0]], segments[1..]);
      assert base + [segments[0]] + segments[1..] == base + segments;
    }
  }

  lemma {:induction false} PartsNormal(segments: seq<string>)
    requires forall s | s in segments :: NormalSegment(s)
    ensures Parts(segments) == segments
  {
    if segments != [] {
      assert NormalSegment(segments[0]);
      PartsNormal(segments[1..]);
    }
  }

  // A valid path leads strictly below the directory it is joined to.
  lemma ValidPathStaysInside(base: seq<string>, path: string)
    requires ValidPath(path)
    ensures base < Resolve(base, Split(path))
    ensures |Resolve(base, Split(path))| <= |base| + MAX_PATH_DEPTH
  {
    ResolveNormal(base, Split(path));
  }

  // Two valid paths name one location only if they are the same path.
  lemma ValidPathsDoNotCollide(base: seq<string>, p: string, q: string)
    requires ValidPath(p) && ValidPath(q)
    requires Resolve(base, Split(p)) == Resolve(base, Split(q))
    ensures p == q
  {
    ResolveNormal(base, Split(p));
    ResolveNormal(base, Split(q));
    assert Split(p) == (base + Split(p))[|base|..] && Split(q) == (base + Split(q))[|base|..];
    JoinSplit(p);
    JoinSplit(q);
  }

  // The two implementations accept the same paths, under any base directory, and the same names.
  lemma PathRulesAgree(base: seq<string>, path: string)
    ensures ValidPath(path) <==> PyValidPath(base, path)
  {
    if forall s | s in Split(path) :: NormalSegment(s) {
      ResolveNormal(base, Split(path));
      PartsNormal(Split(path));
    }
  }

  lemma UriRulesAgree(uri: string)
    ensures ValidUri(uri) <==> PyValidUri(uri)
  {
    if ValidUri(uri) {
      forall c | c in uri ensures IsUriChar(c) {
        assert uri == [uri[0]] + uri[1..];
      }
    }
  }
}
