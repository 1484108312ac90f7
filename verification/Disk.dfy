/**
 The directory a node keeps its sites in, as the storage code sees it: named directories, each a set of
 files at paths of segments. Every operation may fail at any time, and an operation that is not atomic
 may leave its one directory in any state. `trace` records every state in which a crash could strike, `faults`
 how many operations have failed for no reason of their own; without a fault an operation succeeds exactly when it
 makes sense.
 */
module Disk {
  import opened Text

  type Tree = map<seq<string>, bytes>
  type Dirs = map<string, Tree>

  // The two states differ at most in the directory `name`.
  ghost predicate OnlyDiffersIn(name: string, a: Dirs, b: Dirs)
  {
    forall n | n != name :: (n in a <==> n in b) && (n in a ==> a[n] == b[n])
  }

  predicate ProperPrefix(a: seq<string>, b: seq<string>) { a < b }

  // A path can be written unless a file stands where it needs a directory, or a directory where it needs a file.
  predicate Fits(t: Tree, path: seq<string>)
  {
    path != [] && forall q | q in t :: !ProperPrefix(q, path) && !ProperPrefix(path, q)
  }

  class Volume {
    var dirs: Dirs
    ghost var trace: seq<Dirs>
    ghost var faults: nat

    constructor ()
      ensures dirs == map[] && trace == [] && faults == 0
    {
      dirs := map[];
      trace := [];
      faults := 0;
    }

    // An atomic rename of a directory to a name that is free.
    method Rename(from: string, to: string) returns (ok: bool)
      modifies this
      ensures ok ==> from in old(dirs) && to !in old(dirs) && from != to
      ensures ok ==> dirs == (old(dirs) - {from})[to := old(dirs)[from]] && trace == old(trace) + [dirs]
      ensures !ok ==> dirs == old(dirs) && trace == old(trace)
      ensures faults >= old(faults)
      ensures faults == old(faults) ==> (ok <==> from in old(dirs) && to !in old(dirs) && from != to)
    {
      if * {
        ok := false;
        faults := faults + 1;
      } else {
        ok := from in dirs && to !in dirs && from != to;
      }
      if ok {
        dirs := (dirs - {from})[to := dirs[from]];
        trace := trace + [dirs];
      }
    }

    method RemoveDirAll(name: string) returns (ok: bool)
      modifies this
      ensures ok ==> dirs == old(dirs) - {name}
      ensures OnlyDiffersIn(name, dirs, old(dirs))
      ensures name !in old(dirs) ==> dirs == old(dirs)
      ensures old(trace) <= trace
      ensures forall i | |old(trace)| <= i < |trace| :: OnlyDiffersIn(name, trace[i], old(dirs))
      ensures faults >= old(faults) && (faults == old(faults) ==> (ok <==> name in old(dirs)))
    {
      if name !in dirs {
        return false;
      }
      var left: Tree := *;
      dirs := dirs[name := left];
      trace := trace + [dirs];
      if * {
        ok := false;
        faults := faults + 1;
      } else {
        ok := true;
        dirs := dirs - {name};
        trace := trace + [dirs];
      }
    }

    method CreateDir(name: string) returns (ok: bool)
      modifies this
      ensures ok ==> dirs == (if name in old(dirs) then old(dirs) else old(dirs)[name := map[]])
      ensures !ok ==> dirs == old(dirs)
      ensures old(trace) <= trace
      ensures forall i | |old(trace)| <= i < |trace| :: OnlyDiffersIn(name, trace[i], old(dirs))
      ensures faults >= old(faults) && (faults == old(faults) ==> ok)
    {
      if * {
        ok := false;
        faults := faults + 1;
      } else {
        ok := true;
        if name !in dirs {
          dirs := dirs[name := map[]];
        }
        trace := trace + [dirs];
      }
    }

    // Creates the missing parents and writes the file; a failed write may leave anything in the directory.
    method WriteFile(name: string, path: seq<string>, content: bytes) returns (ok: bool)
      modifies this
      ensures ok ==> name in old(dirs) && Fits(old(dirs)[name], path)
      ensures ok ==> dirs == old(dirs)[name := old(dirs)[name][path := content]]
      ensures OnlyDiffersIn(name, dirs, old(dirs))
      ensures old(trace) <= trace
      ensures forall i | |old(trace)| <= i < |trace| :: OnlyDiffersIn(name, trace[i], old(dirs))
      ensures faults >= old(faults)
      ensures faults == old(faults) ==> (ok <==> name in old(dirs) && Fits(old(dirs)[name], path))
    {
      if name !in dirs {
        return false;
      }
      var t := dirs[name];
      var left: Tree := *;
      trace := trace + [dirs[name := left]];
      if * {
        ok := false;
        faults := faults + 1;
      } else {
        ok := Fits(t, path);
      }
      dirs := dirs[name := if ok then t[path := content] else left];
      trace := trace + [dirs];
    }
  }
}
