/**
 Writing and serving sites: rust/mdp2p-node/src/store.rs, whose swap is the same algorithm as
 bundle/serialization.py:101-146.
 */
module Storage {
  import opened Bundle
  import opened Disk
  import opened Json
  import opened Paths
  import opened Text
  import opened Wrappers

  // serde_json's pretty printer and parser, and `str::trim`.
  datatype FileCodec = FileCodec(pretty: Value -> bytes, parse: bytes -> Option<Value>, trim: string -> string)

  datatype StoreError = InvalidUri | InvalidPath(path: string) | IoError | RestoreFailed

  function StagingName(uri: string, pid: string): string { "." + uri + ".staging-" + pid }

  function BackupName(uri: string, pid: string): string { "." + uri + ".old-" + pid }

  // Staging and backup directories never look like a site, so they are never indexed or served.
  lemma HiddenNames(uri: string, pid: string)
    ensures StagingName(uri, pid)[0] == '.' && BackupName(uri, pid)[0] == '.'
    ensures !ValidUri(StagingName(uri, pid)) && !ValidUri(BackupName(uri, pid))
    ensures StagingName(uri, pid) != BackupName(uri, pid)
  {
    var s, b := StagingName(uri, pid), BackupName(uri, pid);
    assert s[|uri| + 2] == 's' && b[|uri| + 2] == 'o';
  }

  // ---- The swap

  // One replacement: what the disk held, the three names it works with, and the site to put in place.
  datatype Swap = Swap(d0: Dirs, staging: string, target: string, backup: string, site: Tree) {
    predicate Apart() { staging != target && target != backup && staging != backup }
  }

  // The names a replacement may change: a backup that no target stands beside is the only copy, and stays.
  ghost predicate Touchable(n: string, w: Swap)
  {
    n == w.staging || n == w.target || (n == w.backup && w.target in w.d0)
  }

  ghost predicate OthersKept(s: Dirs, w: Swap)
  {
    forall n | !Touchable(n, w) :: (n in s <==> n in w.d0) && (n in s ==> s[n] == w.d0[n])
  }

  // The target is as it was.
  ghost predicate Untouched(s: Dirs, w: Swap)
  {
    OthersKept(s, w) && (w.target in s <==> w.target in w.d0) && (w.target in s ==> s[w.target] == w.d0[w.target])
  }

  // Between the two renames: no target, the old copy complete under the backup name.
  ghost predicate Parked(s: Dirs, w: Swap)
  {
    OthersKept(s, w) && w.target !in s && w.target in w.d0 && w.backup in s && s[w.backup] == w.d0[w.target]
  }

  ghost predicate Replaced(s: Dirs, w: Swap)
  {
    OthersKept(s, w) && w.target in s && s[w.target] == w.site
  }

  // What a crash may leave behind: nothing else is touched, the target is absent, entirely old or
  // entirely new, and if there was a copy before, a complete old or new one still exists.
  ghost predicate CrashSafe(s: Dirs, w: Swap)
  {
    && OthersKept(s, w)
    && (w.target in s ==> s[w.target] == w.site || (w.target in w.d0 && s[w.target] == w.d0[w.target]))
    && (w.target in w.d0 ==> w.target in s || (w.backup in s && s[w.backup] == w.d0[w.target]))
  }

  ghost predicate AllSafe(trace: seq<Dirs>, since: nat, w: Swap)
  {
    forall i | since <= i < |trace| :: CrashSafe(trace[i], w)
  }

  lemma PhasesAreSafe(s: Dirs, w: Swap)
    ensures Untouched(s, w) || Parked(s, w) || Replaced(s, w) ==> CrashSafe(s, w)
  {
  }

  lemma TouchingOnly(name: string, s: Dirs, t: Dirs, w: Swap)
    requires w.Apart() && OnlyDiffersIn(name, t, s) && name != w.target && Touchable(name, w)
    ensures Untouched(s, w) ==> Untouched(t, w)
    ensures Parked(s, w) && name == w.staging ==> Parked(t, w)
    ensures Replaced(s, w) ==> Replaced(t, w)
  {
  }

  // Any stretch of an operation on the staging or the backup directory alone is safe.
  lemma StretchIsSafe(name: string, s: Dirs, trace: seq<Dirs>, since: nat, w: Swap)
    requires w.Apart() && name != w.target && Touchable(name, w)
    requires Untouched(s, w) || Replaced(s, w) || (Parked(s, w) && name == w.staging)
    requires forall i | since <= i < |trace| :: OnlyDiffersIn(name, trace[i], s)
    ensures AllSafe(trace, since, w)
  {
    forall i | since <= i < |trace| ensures CrashSafe(trace[i], w) {
      TouchingOnly(name, s, trace[i], w);
      PhasesAreSafe(trace[i], w);
    }
  }

  lemma SafeTogether(a: seq<Dirs>, b: seq<Dirs>, since: nat, w: Swap)
    requires a <= b && AllSafe(a, since, w) && AllSafe(b, |a|, w)
    ensures AllSafe(b, since, w)
  {
    forall i | since <= i < |b| ensures CrashSafe(b[i], w) {
      if i < |a| { assert b[i] == a[i]; }
    }
  }

  // Clearing a directory that only this swap uses.
  method Clear(disk: Volume, name: string, ghost w: Swap, ghost since: nat) returns (ok: bool)
    requires w.Apart() && name != w.target && Touchable(name, w)
    requires Untouched(disk.dirs, w) || Replaced(disk.dirs, w) || (Parked(disk.dirs, w) && name == w.staging)
    requires since <= |disk.trace| && AllSafe(disk.trace, since, w)
    modifies disk
    ensures ok ==> disk.dirs == old(disk.dirs) - {name}
    ensures name !in old(disk.dirs) ==> disk.dirs == old(disk.dirs)
    ensures OnlyDiffersIn(name, disk.dirs, old(disk.dirs))
    ensures old(Untouched(disk.dirs, w)) ==> Untouched(disk.dirs, w)
    ensures old(Parked(disk.dirs, w)) && name == w.staging ==> Parked(disk.dirs, w)
    ensures old(Replaced(disk.dirs, w)) ==> Replaced(disk.dirs, w)
    ensures old(disk.trace) <= disk.trace && AllSafe(disk.trace, since, w)
    ensures disk.faults >= old(disk.faults) && (disk.faults == old(disk.faults) ==> (ok <==> name in old(disk.dirs)))
  {
    ghost var s, a := disk.dirs, disk.trace;
    ok := disk.RemoveDirAll(name);
    TouchingOnly(name, s, disk.dirs, w);
    StretchIsSafe(name, s, disk.trace, |a|, w);
    SafeTogether(a, disk.trace, since, w);
  }

  lemma ParkTarget(s: Dirs, t: Dirs, w: Swap)
    requires w.Apart() && Untouched(s, w) && w.target in s && w.backup !in s
    requires t == (s - {w.target})[w.backup := s[w.target]]
    ensures Parked(t, w)
    ensures w.staging in s ==> w.staging in t && t[w.staging] == s[w.staging]
  {
  }

  lemma InstallSite(s: Dirs, t: Dirs, w: Swap)
    requires w.Apart() && OthersKept(s, w) && w.staging in s && s[w.staging] == w.site
    requires t == (s - {w.staging})[w.target := s[w.staging]]
    ensures Replaced(t, w)
  {
  }

  lemma RestoreTarget(s: Dirs, t: Dirs, w: Swap)
    requires w.Apart() && Parked(s, w)
    requires t == (s - {w.backup})[w.target := s[w.backup]]
    ensures Untouched(t, w)
  {
  }

  lemma OneMoreSafe(a: seq<Dirs>, s: Dirs, since: nat, w: Swap)
    requires AllSafe(a, since, w)
    requires Untouched(s, w) || Parked(s, w) || Replaced(s, w)
    ensures AllSafe(a + [s], since, w)
  {
    PhasesAreSafe(s, w);
  }

  // On success the new site is in place; on failure the old state is back, unless the rename that was to
  // bring the old copy back failed as well. At every moment in between a crash is safe.
  method SwapIntoPlace(disk: Volume, ghost w: Swap, staging: string, target: string, backup: string, ghost since: nat)
    returns (r: Result<(), StoreError>)
    requires staging == w.staging && target == w.target && backup == w.backup && w.Apart()
    requires Untouched(disk.dirs, w) && staging in disk.dirs && disk.dirs[staging] == w.site
    requires since <= |disk.trace| && AllSafe(disk.trace, since, w)
    modifies disk
    ensures r.Success? ==> Replaced(disk.dirs, w)
    ensures r.Failure? ==> r.error == IoError || r.error == RestoreFailed
    ensures r == Failure(IoError) ==> Untouched(disk.dirs, w)
    ensures r == Failure(RestoreFailed) ==> Parked(disk.dirs, w) && disk.faults >= old(disk.faults) + 2
    ensures old(disk.trace) <= disk.trace && AllSafe(disk.trace, since, w)
    ensures disk.faults >= old(disk.faults) && (disk.faults == old(disk.faults) ==> r.Success?)
    ensures r.Success? ==> staging !in disk.dirs
    ensures disk.faults == old(disk.faults) && target in old(disk.dirs) ==> backup !in disk.dirs
  {
    hide Untouched;
    hide Parked;
    hide Replaced;
    hide AllSafe;
    TargetKnown(disk.dirs, w);
    ghost var s := disk.dirs;
    if target !in disk.dirs {
      InstallSite(s, (s - {staging})[target := s[staging]], w);
      OneMoreSafe(disk.trace, (s - {staging})[target := s[staging]], since, w);
      var renamed := disk.Rename(staging, target);
      return if renamed then Success(()) else Failure(IoError);
    }
    if backup in disk.dirs {
      var cleared := Clear(disk, backup, w, since);
      if !cleared {
        return Failure(IoError);
      }
    }
    s := disk.dirs;
    r := SwapExisting(disk, w, staging, target, backup, since);
  }

  lemma TargetKnown(s: Dirs, w: Swap)
    requires Untouched(s, w)
    ensures OthersKept(s, w) && (w.target in s <==> w.target in w.d0)
  {
  }

  method SwapExisting(disk: Volume, ghost w: Swap, staging: string, target: string, backup: string, ghost since: nat)
    returns (r: Result<(), StoreError>)
    requires staging == w.staging && target == w.target && backup == w.backup && w.Apart()
    requires Untouched(disk.dirs, w) && staging in disk.dirs && disk.dirs[staging] == w.site
    requires target in disk.dirs && backup !in disk.dirs
    requires since <= |disk.trace| && AllSafe(disk.trace, since, w)
    modifies disk
    ensures r.Success? ==> Replaced(disk.dirs, w)
    ensures r.Failure? ==> r.error == IoError || r.error == RestoreFailed
    ensures r == Failure(IoError) ==> Untouched(disk.dirs, w)
    ensures r == Failure(RestoreFailed) ==> Parked(disk.dirs, w) && disk.faults >= old(disk.faults) + 2
    ensures old(disk.trace) <= disk.trace && AllSafe(disk.trace, since, w)
    ensures disk.faults >= old(disk.faults) && (disk.faults == old(disk.faults) ==> r.Success?)
    ensures r.Success? ==> staging !in disk.dirs
    ensures disk.faults == old(disk.faults) ==> backup !in disk.dirs
  {
    hide Untouched;
    hide Parked;
    hide Replaced;
    hide AllSafe;
    ghost var s, a := disk.dirs, disk.trace;
    var ok := disk.Rename(target, backup);
    if !ok {
      return Failure(IoError);
    }
    ParkTarget(s, disk.dirs, w);
    OneMoreSafe(a, disk.dirs, since, w);
    s, a := disk.dirs, disk.trace;
    ok := disk.Rename(staging, target);
    if !ok {
      var restored := disk.Rename(backup, target);
      if !restored {
        return Failure(RestoreFailed);
      }
      RestoreTarget(s, disk.dirs, w);
      OneMoreSafe(a, disk.dirs, since, w);
      return Failure(IoError);
    }
    ParkedOthers(s, w);
    InstallSite(s, disk.dirs, w);
    OneMoreSafe(a, disk.dirs, since, w);
    var _ := Clear(disk, backup, w, since);
    r := Success(());
  }

  lemma ParkedOthers(s: Dirs, w: Swap)
    requires Parked(s, w)
    ensures OthersKept(s, w)
  {
  }

  // ---- Writing a site

  const MANIFEST_FILE := "manifest.json"
  const SIGNATURE_FILE := "manifest.sig"

  function FilesTree(files: Files): Tree
  {
    if files == [] then map[]
    else
      var last := files[|files| - 1];
      FilesTree(files[..|files| - 1])[Split(last.0) := last.1]
  }

  // What a written site directory holds.
  function SiteTree(codec: FileCodec, manifest: Value, signature: string, files: Files): Tree
  {
    FilesTree(files)[[MANIFEST_FILE] := codec.pretty(manifest)][[SIGNATURE_FILE] := Utf8(signature)]
  }

  // ---- Which sites a directory can hold

  // A file would have to stand where the other needs a directory.
  predicate Clash(a: seq<string>, b: seq<string>) { a < b || b < a }

  // The files can be written one after the other.
  ghost predicate Writable(files: Files)
  {
    && (forall i | 0 <= i < |files| :: ValidPath(files[i].0))
    && forall i, j | 0 <= i < j < |files| :: !Clash(Split(files[i].0), Split(files[j].0))
  }

  // And nothing is inside the two files the store adds.
  ghost predicate Storable(files: Files)
  {
    Writable(files) && NothingInside(files, MANIFEST_FILE) && NothingInside(files, SIGNATURE_FILE)
  }

  // The path is invalid, and the files before it can be written.
  ghost predicate StopsAtPath(files: Files, path: string)
  {
    !ValidPath(path) && exists n :: 0 <= n < |files| && files[n].0 == path && Writable(files[..n])
  }

  lemma {:induction false} FilesTreePaths(files: Files)
    ensures forall q :: q in FilesTree(files) <==> exists j :: 0 <= j < |files| && q == Split(files[j].0)
  {
    if files != [] {
      var n := |files| - 1;
      FilesTreePaths(files[..n]);
      forall q ensures q in FilesTree(files) <==> exists j :: 0 <= j < |files| && q == Split(files[j].0) {
        if j :| 0 <= j < n && q == Split(files[j].0) { assert files[..n][j] == files[j]; }
      }
    }
  }

  lemma NextFits(files: Files, n: nat)
    requires n < |files|
    ensures Fits(FilesTree(files[..n]), Split(files[n].0)) <==>
      forall j | 0 <= j < n :: !Clash(Split(files[j].0), Split(files[n].0))
  {
    FilesTreePaths(files[..n]);
    forall j | 0 <= j < n ensures Split(files[j].0) in FilesTree(files[..n]) {
      assert files[..n][j] == files[j];
    }
  }

  // A file at the top fits unless something is to be inside it.
  lemma TopFits(t: Tree, name: string)
    requires [] !in t
    ensures Fits(t, [name]) <==> forall q | q in t :: !([name] < q)
  {
    forall q | q in t ensures !ProperPrefix(q, [name]) {}
    assert forall q | q in t :: ProperPrefix([name], q) <==> [name] < q;
  }

  ghost predicate NothingInside(files: Files, name: string)
  {
    forall i | 0 <= i < |files| :: !([name] < Split(files[i].0))
  }

  lemma TopFitsFiles(files: Files, name: string)
    ensures [] !in FilesTree(files) && (Fits(FilesTree(files), [name]) <==> NothingInside(files, name))
  {
    FilesTreePaths(files);
    TopFits(FilesTree(files), name);
    forall i | 0 <= i < |files| ensures Split(files[i].0) in FilesTree(files) {}
  }

  lemma SecondTopFits(files: Files, first: string, content: bytes, name: string)
    requires first != name
    ensures Fits(FilesTree(files)[[first] := content], [name]) <==> NothingInside(files, name)
  {
    TopFitsFiles(files, name);
    TopFits(FilesTree(files), name);
    TopFits(FilesTree(files)[[first] := content], name);
    assert !([name] < [first]);
  }

  method WriteInto(disk: Volume, name: string, path: seq<string>, content: bytes, ghost w: Swap, ghost since: nat)
    returns (ok: bool)
    requires w.Apart() && name == w.staging && Untouched(disk.dirs, w)
    requires since <= |disk.trace| && AllSafe(disk.trace, since, w)
    modifies disk
    ensures ok ==> name in old(disk.dirs) && disk.dirs == old(disk.dirs)[name := old(disk.dirs)[name][path := content]]
    ensures Untouched(disk.dirs, w)
    ensures old(disk.trace) <= disk.trace && AllSafe(disk.trace, since, w)
    ensures ok ==> name in old(disk.dirs) && Fits(old(disk.dirs)[name], path)
    ensures disk.faults >= old(disk.faults)
    ensures disk.faults == old(disk.faults) ==> (ok <==> name in old(disk.dirs) && Fits(old(disk.dirs)[name], path))
  {
    ghost var s, a := disk.dirs, disk.trace;
    ok := disk.WriteFile(name, path, content);
    TouchingOnly(name, s, disk.dirs, w);
    StretchIsSafe(name, s, disk.trace, |a|, w);
    SafeTogether(a, disk.trace, since, w);
  }

  method WriteFiles(disk: Volume, staging: string, files: Files, ghost w: Swap, ghost since: nat)
    returns (r: Result<(), StoreError>)
    requires w.Apart() && staging == w.staging && Untouched(disk.dirs, w)
    requires staging in disk.dirs && disk.dirs[staging] == map[]
    requires since <= |disk.trace| && AllSafe(disk.trace, since, w)
    modifies disk
    ensures r.Success? ==> staging in disk.dirs && disk.dirs[staging] == FilesTree(files) && Writable(files)
    ensures r.Failure? ==> r.error != RestoreFailed && r.error != InvalidUri
    ensures r.Failure? && r.error.InvalidPath? ==> StopsAtPath(files, r.error.path)
    ensures forall p | disk.faults == old(disk.faults) && StopsAtPath(files, p) :: r == Failure(InvalidPath(p))
    ensures disk.faults >= old(disk.faults) && (disk.faults == old(disk.faults) && Writable(files) ==> r.Success?)
    ensures Untouched(disk.dirs, w)
    ensures old(disk.trace) <= disk.trace && AllSafe(disk.trace, since, w)
  {
    hide Untouched;
    hide AllSafe;
    hide Fits;
    hide FilesTree;
    hide ValidPath;
    hide Clash;
    assert Untouched(disk.dirs, w) && disk.dirs[staging] == FilesTree(files[..0]) by { EmptyTree(files); }
    for i := 0 to |files|
      invariant disk.faults >= old(disk.faults)
      invariant forall j | 0 <= j < i :: ValidPath(files[j].0)
      invariant forall j, k | 0 <= j < k < i :: !Clash(Split(files[j].0), Split(files[k].0))
      invariant Untouched(disk.dirs, w)
      invariant staging in disk.dirs && disk.dirs[staging] == FilesTree(files[..i])
      invariant since <= |disk.trace| && old(disk.trace) <= disk.trace && AllSafe(disk.trace, since, w)
    {
      var (path, raw) := files[i];
      if !ValidPath(path) {
        FirstInvalid(files, i);
        return Failure(InvalidPath(path));
      }
      NextFits(files, i);
      NextTree(files, i);
      var ok := WriteInto(disk, staging, Split(path), raw, w, since);
      if !ok {
        return Failure(IoError);
      }
    }
    assert files[..|files|] == files;
    r := Success(());
  }

  lemma WritablePrefix(files: Files, m: nat)
    requires m <= |files| && Writable(files[..m])
    ensures forall k | 0 <= k < m :: ValidPath(files[k].0)
    ensures forall j, k | 0 <= j < k < m :: !Clash(Split(files[j].0), Split(files[k].0))
  {
    hide ValidPath;
    hide Clash;
    forall k | 0 <= k < m ensures files[..m][k] == files[k] {}
  }

  lemma FirstInvalid(files: Files, n: nat)
    requires n < |files| && !ValidPath(files[n].0) && forall j | 0 <= j < n :: ValidPath(files[j].0)
    requires forall j, k | 0 <= j < k < n :: !Clash(Split(files[j].0), Split(files[k].0))
    ensures StopsAtPath(files, files[n].0)
    ensures forall p | StopsAtPath(files, p) :: p == files[n].0
  {
    hide ValidPath;
    hide Clash;
    assert Writable(files[..n]);
    forall p | StopsAtPath(files, p) ensures p == files[n].0 {
      var m :| 0 <= m < |files| && files[m].0 == p && Writable(files[..m]);
      WritablePrefix(files, m);
    }
  }

  // Two files that cannot stand side by side stop the write before any invalid path that comes later.
  lemma ClashStops(files: Files, j: nat, n: nat)
    requires j < n < |files| && Clash(Split(files[j].0), Split(files[n].0)) && ValidPath(files[n].0)
    requires forall k | 0 <= k < n :: ValidPath(files[k].0)
    ensures forall p :: !StopsAtPath(files, p)
  {
    hide ValidPath;
    hide Clash;
    forall p ensures !StopsAtPath(files, p) {
      if StopsAtPath(files, p) {
        var m :| 0 <= m < |files| && files[m].0 == p && Writable(files[..m]);
        WritablePrefix(files, m);
      }
    }
  }

  lemma WritableStopsNowhere(files: Files)
    requires Writable(files)
    ensures forall p :: !StopsAtPath(files, p)
  {
    hide ValidPath;
  }

  lemma EmptyTree(files: Files)
    ensures FilesTree(files[..0]) == map[]
  {
  }

  lemma NextTree(files: Files, n: nat)
    requires n < |files|
    ensures FilesTree(files[..n + 1]) == FilesTree(files[..n])[Split(files[n].0) := files[n].1]
  {
    assert files[..n + 1][..n] == files[..n];
  }

  method FillStaging(disk: Volume, codec: FileCodec, staging: string, manifest: Value, signature: string, files: Files,
                     ghost w: Swap, ghost since: nat)
    returns (r: Result<(), StoreError>)
    requires w.Apart() && staging == w.staging && Untouched(disk.dirs, w)
    requires staging in disk.dirs && disk.dirs[staging] == map[]
    requires since <= |disk.trace| && AllSafe(disk.trace, since, w)
    modifies disk
    ensures r.Success? ==> staging in disk.dirs && disk.dirs[staging] == SiteTree(codec, manifest, signature, files)
    ensures r.Success? ==> Storable(files)
    ensures r.Failure? ==> r.error != RestoreFailed && r.error != InvalidUri
    ensures r.Failure? && r.error.InvalidPath? ==> StopsAtPath(files, r.error.path)
    ensures forall p | disk.faults == old(disk.faults) && StopsAtPath(files, p) :: r == Failure(InvalidPath(p))
    ensures disk.faults >= old(disk.faults) && (disk.faults == old(disk.faults) && Storable(files) ==> r.Success?)
    ensures Untouched(disk.dirs, w)
    ensures old(disk.trace) <= disk.trace && AllSafe(disk.trace, since, w)
  {
    hide Untouched;
    hide AllSafe;
    hide Utf8;
    hide Fits;
    hide Writable;
    hide NothingInside;
    assert MANIFEST_FILE[9] == 'j' && SIGNATURE_FILE[9] == 's';
    TopFitsFiles(files, MANIFEST_FILE);
    SecondTopFits(files, MANIFEST_FILE, codec.pretty(manifest), SIGNATURE_FILE);
    r := WriteFiles(disk, staging, files, w, since);
    if r.Failure? {
      return;
    }
    var ok := WriteInto(disk, staging, [MANIFEST_FILE], codec.pretty(manifest), w, since);
    if !ok {
      return Failure(IoError);
    }
    ok := WriteInto(disk, staging, [SIGNATURE_FILE], Utf8(signature), w, since);
    if !ok {
      return Failure(IoError);
    }
    r := Success(());
  }

  // The staging directory is created empty, filled, and swapped in; whatever fails, it is removed again.
  method StageAndSwap(disk: Volume, codec: FileCodec, ghost w: Swap, staging: string, target: string, backup: string,
                      manifest: Value, signature: string, files: Files, ghost since: nat)
    returns (r: Result<(), StoreError>)
    requires staging == w.staging && target == w.target && backup == w.backup && w.Apart()
    requires w.site == SiteTree(codec, manifest, signature, files)
    requires Untouched(disk.dirs, w) && staging !in disk.dirs
    requires since <= |disk.trace| && AllSafe(disk.trace, since, w)
    modifies disk
    ensures r.Success? ==> Replaced(disk.dirs, w) && Storable(files)
    ensures disk.faults >= old(disk.faults) && (disk.faults == old(disk.faults) ==> (r.Success? <==> Storable(files)))
    ensures r.Failure? ==> r.error != InvalidUri
    ensures r.Failure? && r.error.InvalidPath? ==> StopsAtPath(files, r.error.path)
    ensures forall p | disk.faults == old(disk.faults) && StopsAtPath(files, p) :: r == Failure(InvalidPath(p))
    ensures r.Success? || disk.faults == old(disk.faults) ==> staging !in disk.dirs
    ensures r.Success? && disk.faults == old(disk.faults) && target in w.d0 ==> backup !in disk.dirs
    ensures r.Failure? && r.error != RestoreFailed ==> Untouched(disk.dirs, w)
    ensures r == Failure(RestoreFailed) ==> Parked(disk.dirs, w) && disk.faults >= old(disk.faults) + 2
    ensures old(disk.trace) <= disk.trace && AllSafe(disk.trace, since, w)
  {
    hide Untouched;
    hide Parked;
    hide Replaced;
    hide AllSafe;
    hide Storable;
    hide SiteTree;
    ghost var s, a := disk.dirs, disk.trace;
    var ok := disk.CreateDir(staging);
    CreatedOnly(staging, s, disk.dirs);
    TouchingOnly(staging, s, disk.dirs, w);
    StretchIsSafe(staging, s, disk.trace, |a|, w);
    SafeTogether(a, disk.trace, since, w);
    if !ok {
      return Failure(IoError);
    }
    r := FillStaging(disk, codec, staging, manifest, signature, files, w, since);
    if r.Success? {
      TargetKnown(disk.dirs, w);
      r := SwapIntoPlace(disk, w, staging, target, backup, since);
    }
    if r.Failure? {
      var _ := Clear(disk, staging, w, since);
    }
  }

  lemma CreatedOnly(name: string, s: Dirs, t: Dirs)
    requires t == s || t == s[name := map[]]
    ensures OnlyDiffersIn(name, t, s)
  {
  }

  // ---- Serving a site

  function LoadManifest(codec: FileCodec, t: Tree): Option<(Value, string)>
  {
    if [MANIFEST_FILE] !in t || [SIGNATURE_FILE] !in t then None
    else
      var manifest := codec.parse(t[[MANIFEST_FILE]]);
      var signature := FromUtf8(t[[SIGNATURE_FILE]]);
      if manifest.None? || signature.None? then None else Some((manifest.value, codec.trim(signature.value)))
  }

  function ReadText(t: Tree, path: string): Option<string>
  {
    if Split(path) in t then FromUtf8(t[Split(path)]) else None
  }

  // The files named by the manifest's entries; None where serving fails.
  function ServedFiles(t: Tree, entries: seq<Value>): Option<map<string, Value>>
  {
    if entries == [] then Some(map[])
    else
      var before := ServedFiles(t, entries[..|entries| - 1]);
      var path := GetStr(entries[|entries| - 1], "path");
      if before.None? || path.None? || !ValidPath(path.value) || ReadText(t, path.value).None? then None
      else Some(before.value[path.value := Str(ReadText(t, path.value).value)])
  }

  function BundleMessage(manifest: Value, signature: string, files: map<string, Value>): Value
  {
    Object(map[
      "type" := Str("bundle"),
      "manifest" := manifest,
      "signature" := Str(signature),
      "files" := Object(files)])
  }

  function Serve(codec: FileCodec, t: Tree): Option<Value>
  {
    var loaded := LoadManifest(codec, t);
    if loaded.None? then None
    else
      var entries := Get(loaded.value.0, "files");
      if entries.None? || !entries.value.Array? then None
      else
        var files := ServedFiles(t, entries.value.items);
        if files.None? then None else Some(BundleMessage(loaded.value.0, loaded.value.1, files.value))
  }

  function ErrorMessage(msg: string): Value
  {
    Object(map["type" := Str("error"), "msg" := Str(msg)])
  }

  // The answer to a request, given the index and the disk.
  function Answer(codec: FileCodec, sites: map<string, string>, dirs: Dirs, request: Value): Value
  {
    var uri := if GetStr(request, "uri").Some? then GetStr(request, "uri").value else "";
    var kind := if GetStr(request, "type").Some? then GetStr(request, "type").value else "";
    if uri !in sites then ErrorMessage("site '" + uri + "' not found")
    else
      var t := if sites[uri] in dirs then dirs[sites[uri]] else map[];
      if kind == "get_bundle" then
        var response := Serve(codec, t);
        if response.None? then ErrorMessage("internal error") else response.value
      else if kind == "get_manifest" then
        var loaded := LoadManifest(codec, t);
        if loaded.None? then ErrorMessage("internal error")
        else Object(map["type" := Str("manifest"), "manifest" := loaded.value.0, "signature" := Str(loaded.value.1)])
      else ErrorMessage("unknown type: " + kind)
  }

  // A directory that `rescan` indexes, and the name it is indexed under.
  predicate Indexable(codec: FileCodec, dirs: Dirs, name: string, uri: string)
  {
    && name in dirs
    && (name == "" || name[0] != '.')
    && LoadManifest(codec, dirs[name]).Some?
    && GetStr(LoadManifest(codec, dirs[name]).value.0, "uri") == Some(uri)
    && ValidUri(uri)
  }

  class SiteStore {
    const disk: Volume
    const codec: FileCodec
    const pid: string
    var sites: map<string, string>

    constructor (disk: Volume, codec: FileCodec, pid: string)
      ensures this.disk == disk && this.codec == codec && this.pid == pid && sites == map[]
    {
      this.disk := disk;
      this.codec := codec;
      this.pid := pid;
      sites := map[];
    }

    // What this store's swap of `uri` works on.
    ghost function SwapOf(dirs: Dirs, uri: string, site: Tree): Swap
    {
      Swap(dirs, StagingName(uri, pid), uri, BackupName(uri, pid), site)
    }

    method WriteSite(
      uri: string, manifest: Value, signature: string, files: Files) returns (r: Result<string, StoreError>)
      modifies this, disk
      ensures r == Failure(InvalidUri) <==> !ValidUri(uri)
      ensures !ValidUri(uri) ==> disk.dirs == old(disk.dirs) && disk.trace == old(disk.trace)
      ensures r.Success? ==> r.value == uri && sites == old(sites)[uri := uri]
      ensures r.Failure? ==> sites == old(sites)
      // It succeeds only for a site that a directory can hold, and then whenever nothing goes wrong.
      ensures r.Success? ==> Storable(files)
      ensures disk.faults >= old(disk.faults)
      // The first invalid path is reported, if the files before it could be written.
      ensures r.Failure? && r.error.InvalidPath? ==> StopsAtPath(files, r.error.path)
      ensures forall p | ValidUri(uri) && disk.faults == old(disk.faults) && StopsAtPath(files, p) ::
        r == Failure(InvalidPath(p))
      // And nothing is left of the work unless something does go wrong.
      ensures ValidUri(uri) && (r.Success? || disk.faults == old(disk.faults)) ==>
        StagingName(uri, pid) !in disk.dirs
      ensures r.Success? && disk.faults == old(disk.faults) && uri in old(disk.dirs) ==>
        BackupName(uri, pid) !in disk.dirs
      ensures disk.faults == old(disk.faults) ==> (r.Success? <==> ValidUri(uri) && Storable(files))
      ensures var w := SwapOf(old(disk.dirs), uri, SiteTree(codec, manifest, signature, files));
        && (r.Success? ==> Replaced(disk.dirs, w))
        && (r.Failure? && r.error != RestoreFailed ==> Untouched(disk.dirs, w))
        && (r == Failure(RestoreFailed) ==> Parked(disk.dirs, w) && disk.faults >= old(disk.faults) + 2)
        && old(disk.trace) <= disk.trace
        && AllSafe(disk.trace, |old(disk.trace)|, w)
    {
      hide Untouched;
      hide Parked;
      hide Replaced;
      hide AllSafe;
      hide Storable;
      hide SiteTree;
      ghost var w := SwapOf(disk.dirs, uri, SiteTree(codec, manifest, signature, files));
      ghost var since := |disk.trace|;
      HiddenNames(uri, pid);
      NothingYet(disk.dirs, disk.trace, w);
      if !ValidUri(uri) {
        return Failure(InvalidUri);
      }
      var target, staging := uri, StagingName(uri, pid);
      if staging in disk.dirs {
        var cleared := Clear(disk, staging, w, since);
        if !cleared {
          return Failure(IoError);
        }
      }
      var written :=
        StageAndSwap(disk, codec, w, staging, target, BackupName(uri, pid), manifest, signature, files, since);
      if written.Failure? {
        return Failure(written.error);
      }
      sites := sites[uri := target];
      r := Success(target);
    }

    method LoadTree(uri: string) returns (t: Tree)
      requires uri in sites
      ensures t == if sites[uri] in disk.dirs then disk.dirs[sites[uri]] else map[]
    {
      t := if sites[uri] in disk.dirs then disk.dirs[sites[uri]] else map[];
    }

    method BundleResponse(t: Tree) returns (r: Option<Value>)
      ensures r == Serve(codec, t)
    {
      var loaded := LoadManifest(codec, t);
      if loaded.None? {
        return None;
      }
      var (manifest, signature) := loaded.value;
      var field := Get(manifest, "files");
      if field.None? || !field.value.Array? {
        return None;
      }
      var entries := field.value.items;
      var files: map<string, Value> := map[];
      for i := 0 to |entries|
        invariant ServedFiles(t, entries[..i]) == Some(files)
      {
        assert entries[..i + 1][..i] == entries[..i];
        var path := GetStr(entries[i], "path");
        if path.None? || !ValidPath(path.value) || ReadText(t, path.value).None? {
          ServedPrefix(t, entries, i + 1);
          return None;
        }
        files := files[path.value := Str(ReadText(t, path.value).value)];
      }
      assert entries[..|entries|] == entries;
      r := Some(BundleMessage(manifest, signature, files));
    }

    method HandleRequest(request: Value) returns (response: Value)
      ensures response == Answer(codec, sites, disk.dirs, request)
    {
      var uri := if GetStr(request, "uri").Some? then GetStr(request, "uri").value else "";
      var kind := if GetStr(request, "type").Some? then GetStr(request, "type").value else "";
      if uri !in sites {
        return ErrorMessage("site '" + uri + "' not found");
      }
      var t := LoadTree(uri);
      if kind == "get_bundle" {
        var bundle := BundleResponse(t);
        return if bundle.None? then ErrorMessage("internal error") else bundle.value;
      } else if kind == "get_manifest" {
        var loaded := LoadManifest(codec, t);
        return if loaded.None? then ErrorMessage("internal error")
          else Object(map["type" := Str("manifest"), "manifest" := loaded.value.0, "signature" := Str(loaded.value.1)]);
      }
      response := ErrorMessage("unknown type: " + kind);
    }

    // Whatever order the directories are read in, the index holds exactly the names of indexable ones.
    method Rescan()
      modifies this`sites
      ensures forall uri | uri in sites :: Indexable(codec, disk.dirs, sites[uri], uri)
      ensures forall name, uri :: Indexable(codec, disk.dirs, name, uri) ==> uri in sites
    {
      hide LoadManifest;
      var found: map<string, string> := map[];
      var left := disk.dirs.Keys;
      while left != {}
        invariant left <= disk.dirs.Keys
        invariant forall uri | uri in found :: Indexable(codec, disk.dirs, found[uri], uri)
        invariant forall name, uri | name !in left :: Indexable(codec, disk.dirs, name, uri) ==> uri in found
        decreases left
      {
        var name :| name in left;
        left := left - {name};
        if name == "" || name[0] != '.' {
          var loaded := LoadManifest(codec, disk.dirs[name]);
          if loaded.Some? {
            var uri := GetStr(loaded.value.0, "uri");
            if uri.Some? && ValidUri(uri.value) {
              found := found[uri.value := name];
            }
          }
        }
      }
      sites := found;
    }
  }

  lemma NothingYet(s: Dirs, trace: seq<Dirs>, w: Swap)
    requires w.d0 == s
    ensures Untouched(s, w) && AllSafe(trace, |trace|, w)
  {
  }

  lemma {:induction false} ServedPrefix(t: Tree, entries: seq<Value>, n: nat)
    requires n <= |entries| && ServedFiles(t, entries[..n]).None?
    ensures ServedFiles(t, entries).None?
    decreases |entries|
  {
    if n == |entries| {
      assert entries[..n] == entries;
    } else {
      assert entries[..|entries| - 1][..n] == entries[..n];
      ServedPrefix(t, entries[..|entries| - 1], n);
    }
  }

  // ---- Any number of writes, failures and crashes

  // One call of `write_site`, by a process with this id.
  datatype Attempt = Attempt(uri: string, pid: string, site: Tree)

  ghost predicate WellNamed(a: Attempt)
  {
    ValidUri(a.uri) && '-' !in a.pid
  }

  ghost function SwapFor(d: Dirs, a: Attempt): Swap
  {
    Swap(d, StagingName(a.uri, a.pid), a.uri, BackupName(a.uri, a.pid), a.site)
  }

  // Each attempt finds what the one before left behind: done, failed, or cut off by a crash anywhere.
  ghost predicate Leaves(d: Dirs, attempts: seq<Attempt>, ends: seq<Dirs>)
  {
    |ends| == |attempts| &&
    (attempts != [] ==>
      var n := |attempts| - 1;
      && Leaves(d, attempts[..n], ends[..n])
      && WellNamed(attempts[n])
      && CrashSafe(ends[n], SwapFor(LastOf(d, ends[..n]), attempts[n])))
  }

  ghost function LastOf(d: Dirs, ends: seq<Dirs>): Dirs
  {
    if ends == [] then d else ends[|ends| - 1]
  }

  // The site stands whole, or is absent while a whole copy waits under a backup name.
  ghost predicate HasCopy(s: Dirs, uri: string, copies: set<Tree>)
  {
    && (uri in s ==> s[uri] in copies)
    && (uri in s || exists pid :: IsBackup(s, uri, pid, copies))
  }

  ghost predicate IsBackup(s: Dirs, uri: string, pid: string, copies: set<Tree>)
  {
    '-' !in pid && BackupName(uri, pid) in s && s[BackupName(uri, pid)] in copies
  }

  lemma LastDash(head: string, pid: string)
    requires '-' !in pid
    ensures var s := head + "-" + pid;
      s[|head|] == '-' && (forall j | |head| < j < |s| :: s[j] != '-') && s[..|head|] == head
  {
    var s := head + "-" + pid;
    forall j | |head| < j < |s| ensures s[j] != '-' {
      assert s[j] == pid[j - |head| - 1];
    }
  }

  // Process ids hold no '-', so a backup name belongs to one site and is no staging name.
  lemma BackupsApart(u: string, p: string, v: string, q: string)
    requires '-' !in p && '-' !in q
    ensures BackupName(u, p) == BackupName(v, q) ==> u == v
    ensures BackupName(u, p) != StagingName(v, q)
  {
    var old1, old2, staged := "." + u + ".old", "." + v + ".old", "." + v + ".staging";
    LastDash(old1, p);
    LastDash(old2, q);
    LastDash(staged, q);
    assert BackupName(u, p) == old1 + "-" + p && BackupName(v, q) == old2 + "-" + q;
    assert StagingName(v, q) == staged + "-" + q;
    assert old1[|old1| - 1] == 'd' && staged[|staged| - 1] == 'g';
    if BackupName(u, p) == BackupName(v, q) {
      assert |old1| == |old2| && old1 == old2;
      assert u == old1[1..|u| + 1] && v == old2[1..|v| + 1];
    }
  }

  lemma CopySurvivesOne(d: Dirs, s: Dirs, a: Attempt, uri: string, copies: set<Tree>)
    requires ValidUri(uri) && WellNamed(a) && HasCopy(d, uri, copies) && CrashSafe(s, SwapFor(d, a))
    ensures HasCopy(s, uri, if a.uri == uri then copies + {a.site} else copies)
  {
    hide StagingName;
    hide BackupName;
    var w, more := SwapFor(d, a), if a.uri == uri then copies + {a.site} else copies;
    NamesApart(uri, a);
    if uri in d {
      if a.uri == uri && uri !in s { assert IsBackup(s, uri, a.pid, more); }
    } else {
      var pid :| IsBackup(d, uri, pid, copies);
      BackupsApart(uri, pid, a.uri, a.pid);
      NamesApart(a.uri, Attempt(uri, pid, a.site));
      assert !Touchable(BackupName(uri, pid), w);
      assert IsBackup(s, uri, pid, more);
    }
  }

  lemma NamesApart(uri: string, a: Attempt)
    requires ValidUri(uri)
    ensures uri != StagingName(a.uri, a.pid) && uri != BackupName(a.uri, a.pid)
  {
    HiddenNames(a.uri, a.pid);
  }

  ghost function Written(attempts: seq<Attempt>, uri: string): set<Tree>
  {
    set a | a in attempts && a.uri == uri :: a.site
  }

  // Whatever writes fail and wherever crashes strike, a site of which there was a whole copy once keeps one
  // for ever: one of the first ones, or one that was to replace it.
  lemma {:induction false} CopiesSurvive(
    d: Dirs, attempts: seq<Attempt>, ends: seq<Dirs>, uri: string, copies: set<Tree>)
    requires ValidUri(uri) && HasCopy(d, uri, copies) && Leaves(d, attempts, ends)
    ensures HasCopy(LastOf(d, ends), uri, copies + Written(attempts, uri))
    decreases |attempts|
  {
    hide CrashSafe;
    hide ValidUri;
    if attempts == [] {
      assert copies + Written(attempts, uri) == copies;
    } else {
      var n := |attempts| - 1;
      var before, a := copies + Written(attempts[..n], uri), attempts[n];
      CopiesSurvive(d, attempts[..n], ends[..n], uri, copies);
      CopySurvivesOne(LastOf(d, ends[..n]), ends[n], a, uri, before);
      assert attempts == attempts[..n] + [a];
      assert copies + Written(attempts, uri) == if a.uri == uri then before + {a.site} else before;
    }
  }
}
