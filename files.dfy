/** The part of std::fs the patient stores use: a tree of directories and text files, with
    create_dir_all, write, read_dir, is_file and read_to_string. Environmental failures
    (permissions, a full disk, an I/O error) are inputs: each call takes a flag saying whether
    the environment makes it fail. */
module Files {
  import opened Outcomes

  /** A path as its segments, from the root; [] is the root directory. */
  type Path = seq<string>

  /** Every ancestor of p and p itself, the root included. */
  function Prefixes(p: Path): set<Path> {
    set k | 0 <= k <= |p| :: p[..k]
  }

  predicate IsChild(dir: Path, p: Path) {
    |p| == |dir| + 1 && p[..|dir|] == dir
  }

  function Elements(s: seq<Path>): set<Path> {
    set p | p in s
  }

  predicate NoDuplicates(s: seq<Path>) {
    forall i, j :: 0 <= i < j < |s| ==> s[i] != s[j]
  }

  /** s lists every element of set exactly once, in some order. */
  predicate Enumerates(s: seq<Path>, entries: set<Path>) {
    NoDuplicates(s) && Elements(s) == entries
  }

  /** The entries of dir: the directories and files directly inside it. */
  function DirEntries(dirs: set<Path>, files: map<Path, string>, dir: Path): set<Path> {
    set p | p in dirs + files.Keys && IsChild(dir, p)
  }

  /** No prefix of p, p included, is a regular file: create_dir_all(p) has nothing in its way. */
  predicate NoFileOnPath(files: map<Path, string>, p: Path) {
    forall k :: 0 <= k <= |p| ==> p[..k] !in files
  }

  class FileSystem {
    var dirs: set<Path>
    var files: map<Path, string>

    /** A well-formed tree: the root and every ancestor of a directory are directories,
        every file's parent is a directory, and no path is both a file and a directory. */
    ghost predicate Valid()
      reads this
    {
      && (forall d, k :: d in dirs && 0 <= k <= |d| ==> d[..k] in dirs)
      && [] in dirs
      && (forall f :: f in files ==> f != [] && f[..|f| - 1] in dirs && f !in dirs)
    }

    constructor ()
      ensures Valid() && dirs == {[]} && files == map[]
    {
      dirs := {[]};
      files := map[];
    }

    /** create_dir_all succeeds unless the path or one of its ancestors is a file. */
    predicate CanCreateDirAll(p: Path)
      reads this
    {
      NoFileOnPath(files, p)
    }

    /** fs::write succeeds when its parent directory exists and the path is not a directory. */
    predicate CanWrite(p: Path)
      reads this
    {
      p != [] && p[..|p| - 1] in dirs && p !in dirs
    }

    method CreateDirAll(p: Path, fails: bool) returns (ok: bool)
      requires Valid()
      modifies this
      ensures Valid()
      ensures ok == (!fails && old(CanCreateDirAll(p)))
      ensures dirs == if ok then old(dirs) + Prefixes(p) else old(dirs)
      ensures files == old(files)
    {
      ok := !fails && CanCreateDirAll(p);
      if ok {
        dirs := dirs + Prefixes(p);
        forall d, k | d in dirs && 0 <= k <= |d| ensures d[..k] in dirs {
          if d in Prefixes(p) {
            assert d[..k] == p[..k];
          }
        }
      }
    }

    method Write(p: Path, contents: string, fails: bool) returns (ok: bool)
      requires Valid()
      modifies this
      ensures Valid()
      ensures ok == (!fails && old(CanWrite(p)))
      ensures dirs == old(dirs)
      ensures files == if ok then old(files)[p := contents] else old(files)
    {
      ok := !fails && CanWrite(p);
      if ok {
        files := files[p := contents];
      }
    }

    /** read_dir: fails when the directory is missing; otherwise yields each entry once, in an
        order the caller cannot rely on. */
    method ReadDir(dir: Path, fails: bool) returns (r: Option<seq<Path>>)
      ensures r.Some? <==> !fails && dir in dirs
      ensures r.Some? ==> Enumerates(r.value, DirEntries(dirs, files, dir))
    {
      if fails || dir !in dirs {
        return None;
      }
      var remaining := DirEntries(dirs, files, dir);
      var entries: seq<Path> := [];
      while remaining != {}
        invariant remaining <= DirEntries(dirs, files, dir)
        invariant Enumerates(entries, DirEntries(dirs, files, dir) - remaining)
        decreases remaining
      {
        var e :| e in remaining;
        assert Elements(entries + [e]) == Elements(entries) + {e};
        entries := entries + [e];
        remaining := remaining - {e};
      }
      return Some(entries);
    }

    method IsFile(p: Path) returns (b: bool)
      ensures b <==> p in files
    {
      b := p in files;
    }

    method ReadToString(p: Path, fails: bool) returns (r: Option<string>)
      ensures r.Some? <==> !fails && p in files
      ensures r.Some? ==> r.value == files[p]
    {
      if !fails && p in files {
        r := Some(files[p]);
      } else {
        r := None;
      }
    }
  }
}
