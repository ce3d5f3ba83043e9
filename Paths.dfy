/**
 * The part of `pathlib` the renamer relies on, over paths written as lists of
 * segments, and the file system as a map from directories to the names of
 * their entries.
 */
module Paths {
  import opened Wrappers
  import opened PyText

  /** An absolute path as its segments; the root directory is `[]`. */
  type Path = seq<string>

  /** A file: the path of the directory holding it (`path.parent`) and its name (`path.name`). */
  datatype FilePath = FilePath(dir: Path, name: string)

  predicate SlashFree(s: string) { forall k :: 0 <= k < |s| ==> s[k] != '/' }

  /** The pieces of `s` between slashes, in order: `"a//b/"` gives `["a", "", "b", ""]`. */
  function SplitSlash(s: string): (pieces: seq<string>)
    decreases |s|
  {
    match Find(s, '/')
    case None => [s]
    case Some(i) => [s[..i]] + SplitSlash(s[i + 1..])
  }

  /** A text without slashes is one piece. */
  lemma SplitSlashFree(s: string)
    requires SlashFree(s)
    ensures SplitSlash(s) == [s]
  {
  }

  /** No piece of `s` holds a slash. */
  lemma {:induction false} SplitSlashPiecesFree(s: string)
    ensures forall i :: 0 <= i < |SplitSlash(s)| ==> SlashFree(SplitSlash(s)[i])
    decreases |s|
  {
    match Find(s, '/')
    case None =>
    case Some(i) =>
      SplitSlashPiecesFree(s[i + 1..]);
      assert SplitSlash(s) == [s[..i]] + SplitSlash(s[i + 1..]);
  }

  /** Every segment of `p` is free of slashes, as the segments of a real path are. */
  predicate SegmentsSlashFree(p: Path)
  {
    forall i :: 0 <= i < |p| ==> SlashFree(p[i])
  }

  /** The pieces that name a step: pathlib drops empty pieces and `.` when it parses a path. */
  function Steps(pieces: seq<string>): seq<string>
  {
    if pieces == [] then []
    else (if pieces[0] == "" || pieces[0] == "." then [] else [pieces[0]]) + Steps(pieces[1..])
  }

  /** The segments pathlib makes of the relative or absolute path text `name`. */
  function Parts(name: string): seq<string>
  {
    Steps(SplitSlash(name))
  }

  lemma {:induction false} StepsSlashFree(pieces: seq<string>)
    requires SegmentsSlashFree(pieces)
    ensures SegmentsSlashFree(Steps(pieces))
  {
    if pieces != [] {
      StepsSlashFree(pieces[1..]);
      var head := if pieces[0] == "" || pieces[0] == "." then [] else [pieces[0]];
      assert Steps(pieces) == head + Steps(pieces[1..]);
    }
  }

  /** pathlib never makes a segment holding a slash. */
  lemma PartsSlashFree(name: string)
    ensures SegmentsSlashFree(Parts(name))
  {
    SplitSlashPiecesFree(name);
    StepsSlashFree(SplitSlash(name));
  }

  predicate IsAbsolute(name: string) { |name| > 0 && name[0] == '/' }

  /** `dir / name`: an absolute `name` replaces the directory. */
  function JoinPath(dir: Path, name: string): Path
  {
    if IsAbsolute(name) then Parts(name) else dir + Parts(name)
  }

  /** A relative name is appended to the directory. */
  lemma JoinRelative(dir: Path, name: string, parts: seq<string>)
    requires !IsAbsolute(name) && Parts(name) == parts
    ensures JoinPath(dir, name) == dir + parts
  {
  }

  /** Joining a name to a path made of slash-free segments gives slash-free segments. */
  lemma JoinPathSlashFree(dir: Path, name: string)
    requires SegmentsSlashFree(dir)
    ensures SegmentsSlashFree(JoinPath(dir, name))
  {
    PartsSlashFree(name);
    if !IsAbsolute(name) {
      var p := dir + Parts(name);
      assert forall i :: |dir| <= i < |p| ==> p[i] == Parts(name)[i - |dir|];
    }
  }

  /** No empty, `.` or `..` segment: the form `Path.resolve()` returns. */
  predicate IsNormal(p: Path)
  {
    forall i :: 0 <= i < |p| ==> p[i] != "" && p[i] != "." && p[i] != ".."
  }

  /**
   * `Path.resolve()` on a path without symbolic links: `..` removes the
   * segment before it (and stays at the root), empty and `.` segments vanish.
   */
  function Normalize(p: Path): Path
  {
    if p == [] then []
    else
      var q := Normalize(p[..|p| - 1]);
      var last := p[|p| - 1];
      if last == ".." then (if q == [] then [] else q[..|q| - 1])
      else if last == "" || last == "." then q
      else q + [last]
  }

  /** What `Path.resolve()` returns is normal. */
  lemma {:induction false} NormalizeIsNormal(p: Path)
    ensures IsNormal(Normalize(p))
  {
    if p != [] {
      NormalizeIsNormal(p[..|p| - 1]);
    }
  }

  /** Resolving a path that is already normal changes nothing. */
  lemma {:induction false} NormalizeNormal(p: Path)
    requires IsNormal(p)
    ensures Normalize(p) == p
  {
    if p != [] {
      NormalizeNormal(p[..|p| - 1]);
    }
  }

  /** `path.parent`; the parent of the root is the root. */
  function Parent(p: Path): Path
  {
    if p == [] then [] else p[..|p| - 1]
  }

  function EntriesOf(dirs: map<Path, set<string>>, d: Path): set<string>
  {
    if d in dirs then dirs[d] else {}
  }

  /** A segment that names an entry: not empty, `.` or `..`. */
  predicate IsEntryName(s: string) { s != "" && s != "." && s != ".." }

  /**
   * The directory the kernel reaches when it looks `p` up segment by segment
   * from the root: `..` goes to the parent of the directory reached so far
   * (the root stays put), empty and `.` segments stay, and any other segment
   * must be a subdirectory of it. `None` when such a segment is missing or is
   * a file. Unlike `Normalize`, this never passes through a directory that
   * does not exist.
   */
  function Walk(dirs: map<Path, set<string>>, p: Path): Option<Path>
  {
    if p == [] then Some([])
    else match Walk(dirs, p[..|p| - 1])
      case None => None
      case Some(q) =>
        var last := p[|p| - 1];
        if last == ".." then Some(Parent(q))
        else if last == "" || last == "." then Some(q)
        else if q + [last] in dirs then Some(q + [last])
        else None
  }

  /** A lookup that succeeds ends where `Path.resolve()` says. */
  lemma {:induction false} WalkResolves(dirs: map<Path, set<string>>, p: Path)
    ensures Walk(dirs, p).Some? ==> Walk(dirs, p).value == Normalize(p)
  {
    if p != [] {
      WalkResolves(dirs, p[..|p| - 1]);
    }
  }

  /** Once a lookup fails, it fails for every longer path. */
  lemma {:induction false} WalkFailsBeyond(dirs: map<Path, set<string>>, p: Path, rest: Path)
    requires Walk(dirs, p).None?
    ensures Walk(dirs, p + rest).None?
    decreases |rest|
  {
    if rest != [] {
      var init := rest[..|rest| - 1];
      WalkFailsBeyond(dirs, p, init);
      assert (p + rest)[..|p + rest| - 1] == p + init;
    } else {
      assert p + rest == p;
    }
  }

  /** The lookup depends only on which directories exist, not on what they hold. */
  lemma {:induction false} WalkSameDirectories(before: map<Path, set<string>>, after: map<Path, set<string>>, p: Path)
    requires before.Keys == after.Keys
    ensures Walk(before, p) == Walk(after, p)
  {
    if p != [] {
      WalkSameDirectories(before, after, p[..|p| - 1]);
    }
  }

  /**
   * `Path.exists()` for `p`, which is `os.stat` succeeding: the whole path
   * reaches a directory, or the rest of it reaches a directory that lists
   * the last segment.
   */
  predicate PathExists(dirs: map<Path, set<string>>, p: Path)
  {
    || Walk(dirs, p).Some?
    || (&& p != []
        && IsEntryName(p[|p| - 1])
        && Walk(dirs, p[..|p| - 1]).Some?
        && p[|p| - 1] in EntriesOf(dirs, Walk(dirs, p[..|p| - 1]).value))
  }

  /**
   * A path through a directory that does not exist does not exist, even when
   * `Path.resolve()` would cancel that directory with a later `..`.
   */
  lemma MissingDirectoryHidesPath(dirs: map<Path, set<string>>, dir: Path, missing: string, rest: Path)
    requires Walk(dirs, dir) == Some(dir)
    requires IsEntryName(missing) && dir + [missing] !in dirs
    requires rest != []
    ensures !PathExists(dirs, dir + [missing] + rest)
  {
    var m := dir + [missing];
    assert m[..|m| - 1] == dir;
    assert Walk(dirs, m).None?;
    var p := m + rest;
    WalkFailsBeyond(dirs, m, rest);
    WalkFailsBeyond(dirs, m, rest[..|rest| - 1]);
    assert p[..|p| - 1] == m + rest[..|rest| - 1];
  }

  /** The file system: the names of the entries of each directory, keyed by its resolved path. */
  class FileSystem {
    var dirs: map<Path, set<string>>

    constructor (dirs: map<Path, set<string>>)
      ensures this.dirs == dirs
    {
      this.dirs := dirs;
    }

    /** The names in directory `d`; a directory that does not exist has none. */
    function Entries(d: Path): set<string>
      reads this
    {
      EntriesOf(dirs, d)
    }
  }
}
