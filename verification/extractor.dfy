/**
 * `ExtractZip` and `ExtractZipToSourceDir` (main.cpp): walk the entries of a
 * zip archive in order, creating the directories it names (skipping those
 * that already exist) and extracting its files under a destination
 * directory; any exception thrown on the way makes the call return false.
 *
 * The zip library and the filesystem are abstracted: an archive is the
 * sequence of its entry names (`None` when the library cannot open it), the
 * disk is the set of existing directories and files, and a fault oracle says
 * for which entries the library call (`create_directories` or `extract`)
 * throws.
 */
module Extractor {
  import opened Wrappers

  /** What the zip library reads from a path: the entry names in order, or `None` when opening throws. */
  type Archives = string -> Option<seq<string>>

  /** Whether the library call made for an entry throws. */
  type Faults = string -> bool

  /** The paths that exist on the disk, as a value. */
  datatype Tree = Tree(dirs: set<string>, files: set<string>)

  /** The filesystem under the destination: which directories and files exist. */
  class Disk {
    var dirs: set<string>
    var files: set<string>

    constructor(dirs0: set<string>, files0: set<string>)
      ensures dirs == dirs0 && files == files0
    {
      dirs := dirs0;
      files := files0;
    }

    /** The current state of the disk. */
    function Snapshot(): Tree
      reads this
    {
      Tree(dirs, files)
    }

    /** `filesystem::exists`: the path names a directory or a file. */
    predicate Exists(p: string)
      reads this
    {
      p in dirs || p in files
    }

    /** `filesystem::create_directories`, for the directory itself. */
    method CreateDirectories(p: string)
      modifies this
      ensures dirs == old(dirs) + {p} && files == old(files)
    {
      dirs := dirs + {p};
    }

    /** `zip_file::extract` of one member: the file at `p` now exists. */
    method ExtractFile(p: string)
      modifies this
      ensures files == old(files) + {p} && dirs == old(dirs)
    {
      files := files + {p};
    }
  }

  /** A name ending in '/' is a directory entry; every other name is a file. */
  predicate IsDirEntry(name: string)
  {
    |name| > 0 && name[|name| - 1] == '/'
  }

  /**
   * `dest / name` on POSIX paths: an absolute name replaces the destination,
   * an empty destination or one ending in '/' is followed directly by the
   * name, and otherwise a '/' separates the two.
   */
  function Join(dest: string, name: string): string
  {
    if |name| > 0 && name[0] == '/' then name
    else if dest == [] || dest[|dest| - 1] == '/' then dest + name
    else dest + "/" + name
  }

  /** Index of the last '/' in `p[..n]`, if any. */
  function LastSlash(p: string, n: nat): (r: Option<nat>)
    requires n <= |p|
    ensures r.Some? ==> r.value < n && p[r.value] == '/'
  {
    if n == 0 then None
    else if p[n - 1] == '/' then Some(n - 1)
    else LastSlash(p, n - 1)
  }

  /** `n` minus the '/' characters that end `p[..n]`, stopping at 1 so that the root stays. */
  function TrimSlashes(p: string, n: nat): (r: nat)
    requires n <= |p|
    ensures r <= n && (n > 0 ==> r > 0)
  {
    if n > 1 && p[n - 1] == '/' then TrimSlashes(p, n - 1) else n
  }

  /**
   * `path::parent_path` on POSIX paths: empty when there is no '/',
   * otherwise the text before the last '/' without the '/' that end it
   * (the root "/" stays).
   */
  function ParentPath(p: string): string
  {
    match LastSlash(p, |p|)
    case None => ""
    case Some(j) => if j == 0 then "/" else p[..TrimSlashes(p, j)]
  }

  /**
   * One entry, applied to the disk state `t`, or `None` when it throws: an
   * existing directory is skipped, a missing one is created, and a file is
   * extracted.
   */
  function Apply(t: Tree, dest: string, name: string, faults: Faults): Option<Tree>
  {
    var p := Join(dest, name);
    if IsDirEntry(name) then
      if p in t.dirs || p in t.files then Some(t)
      else if faults(name) then None
      else Some(Tree(t.dirs + {p}, t.files))
    else if faults(name) then None
    else Some(Tree(t.dirs, t.files + {p}))
  }

  /** What `ExtractZip` returns and leaves on the disk. */
  datatype Unpacked = Unpacked(ok: bool, tree: Tree)

  /**
   * The entries applied in order; the first one that throws ends the walk
   * with false, leaving what the entries before it did.
   */
  function Unpack(t: Tree, dest: string, entries: seq<string>, faults: Faults): Unpacked
    decreases |entries|
  {
    if entries == [] then Unpacked(true, t)
    else match Apply(t, dest, entries[0], faults)
      case None => Unpacked(false, t)
      case Some(t1) => Unpack(t1, dest, entries[1..], faults)
  }

  /** `ExtractZip` (main.cpp): open the archive at `src` and apply its entries under `dest`. */
  method ExtractZip(disk: Disk, archives: Archives, src: string, dest: string, faults: Faults)
    returns (ok: bool)
    modifies disk
    ensures archives(src).None? ==> !ok && disk.Snapshot() == old(disk.Snapshot())
    ensures archives(src).Some? ==>
      var u := Unpack(old(disk.Snapshot()), dest, archives(src).value, faults);
      ok == u.ok && disk.Snapshot() == u.tree
  {
    var zip := archives(src);
    if zip.None? {
      return false;
    }
    var entries := zip.value;
    ghost var goal := Unpack(disk.Snapshot(), dest, entries, faults);
    var i := 0;
    while i < |entries|
      invariant i <= |entries|
      invariant Unpack(disk.Snapshot(), dest, entries[i..], faults) == goal
    {
      var name := entries[i];
      assert entries[i..][1..] == entries[i + 1..];
      if IsDirEntry(name) {
        var dir := Join(dest, name);
        if !disk.Exists(dir) {
          if faults(name) {
            return false;
          }
          disk.CreateDirectories(dir);
        }
      } else {
        if faults(name) {
          return false;
        }
        disk.ExtractFile(Join(dest, name));
      }
      i := i + 1;
    }
    return true;
  }

  /** `ExtractZipToSourceDir` (main.cpp): a missing archive path fails; otherwise extract next to it. */
  method ExtractZipToSourceDir(disk: Disk, archives: Archives, sourceFilePath: string, faults: Faults)
    returns (ok: bool)
    modifies disk
    ensures !old(disk.Exists(sourceFilePath)) ==> !ok && disk.Snapshot() == old(disk.Snapshot())
    ensures old(disk.Exists(sourceFilePath)) && archives(sourceFilePath).None? ==>
      !ok && disk.Snapshot() == old(disk.Snapshot())
    ensures old(disk.Exists(sourceFilePath)) && archives(sourceFilePath).Some? ==>
      var u := Unpack(old(disk.Snapshot()), ParentPath(sourceFilePath), archives(sourceFilePath).value, faults);
      ok == u.ok && disk.Snapshot() == u.tree
  {
    if !disk.Exists(sourceFilePath) {
      return false;
    }
    var workingPath := ParentPath(sourceFilePath);
    ok := ExtractZip(disk, archives, sourceFilePath, workingPath, faults);
  }

  /** A prefix `p[..n]` without any '/' has no last slash. */
  lemma {:induction false} LastSlashNone(p: string, n: nat)
    requires n <= |p| && forall k :: 0 <= k < n ==> p[k] != '/'
    ensures LastSlash(p, n).None?
  {
    if n > 0 {
      LastSlashNone(p, n - 1);
    }
  }

  /** The last '/' of `p[..n]` is the last one of `p[..m]` when `p[m..n]` has none. */
  lemma {:induction false} LastSlashSkips(p: string, m: nat, n: nat)
    requires m <= n <= |p| && forall k :: m <= k < n ==> p[k] != '/'
    ensures LastSlash(p, n) == LastSlash(p, m)
    decreases n
  {
    if m < n {
      LastSlashSkips(p, m, n - 1);
    }
  }

  /**
   * The parent of a name without '/' is empty, the parent of "/name" is the
   * root, and the parent of "dir/name" is `dir` when `dir` does not end in '/'.
   */
  lemma ParentPathOfChild(dir: string, name: string)
    requires forall k :: 0 <= k < |name| ==> name[k] != '/'
    ensures ParentPath(name) == ""
    ensures ParentPath("/" + name) == "/"
    ensures dir != "" && dir[|dir| - 1] != '/' ==> ParentPath(dir + "/" + name) == dir
  {
    LastSlashNone(name, |name|);
    var r := "/" + name;
    LastSlashSkips(r, 1, |r|);
    if dir != "" && dir[|dir| - 1] != '/' {
      var p := dir + "/" + name;
      LastSlashSkips(p, |dir| + 1, |p|);
      assert p[..|dir|] == dir;
    }
  }

  /** An extraction only adds: no directory or file that existed before is gone afterwards. */
  lemma {:induction false} UnpackGrows(t: Tree, dest: string, entries: seq<string>, faults: Faults)
    ensures t.dirs <= Unpack(t, dest, entries, faults).tree.dirs
    ensures t.files <= Unpack(t, dest, entries, faults).tree.files
    decreases |entries|
  {
    if entries != [] {
      match Apply(t, dest, entries[0], faults)
      case None =>
      case Some(t1) =>
        UnpackGrows(t1, dest, entries[1..], faults);
    }
  }

  /** When no library call throws, every entry is applied and the call returns true. */
  lemma {:induction false} UnpackSucceedsWithoutFaults(t: Tree, dest: string, entries: seq<string>, faults: Faults)
    requires forall i :: 0 <= i < |entries| ==> !faults(entries[i])
    ensures Unpack(t, dest, entries, faults).ok
    decreases |entries|
  {
    if entries != [] {
      assert !faults(entries[0]);
      var t1 := Apply(t, dest, entries[0], faults).value;
      assert forall i :: 0 <= i < |entries[1..]| ==> entries[1..][i] == entries[i + 1];
      UnpackSucceedsWithoutFaults(t1, dest, entries[1..], faults);
    }
  }

  /** A file entry whose extraction throws makes the whole call return false. */
  lemma {:induction false} UnpackFailsOnFaultyFile(t: Tree, dest: string, entries: seq<string>, faults: Faults, i: nat)
    requires i < |entries| && !IsDirEntry(entries[i]) && faults(entries[i])
    ensures !Unpack(t, dest, entries, faults).ok
    decreases |entries|
  {
    if i > 0 {
      match Apply(t, dest, entries[0], faults)
      case None =>
      case Some(t1) =>
        assert entries[1..][i - 1] == entries[i];
        UnpackFailsOnFaultyFile(t1, dest, entries[1..], faults, i - 1);
    }
  }

  /**
   * A directory entry whose `create_directories` throws makes the whole call
   * return false, when its path is not on the disk and no earlier entry
   * names it (so the existence test cannot skip it).
   */
  lemma {:induction false} UnpackFailsOnFaultyDir(t: Tree, dest: string, entries: seq<string>, faults: Faults, i: nat)
    requires i < |entries| && IsDirEntry(entries[i]) && faults(entries[i])
    requires Join(dest, entries[i]) !in t.dirs && Join(dest, entries[i]) !in t.files
    requires forall k :: 0 <= k < i ==> Join(dest, entries[k]) != Join(dest, entries[i])
    ensures !Unpack(t, dest, entries, faults).ok
    decreases |entries|
  {
    if i > 0 {
      match Apply(t, dest, entries[0], faults)
      case None =>
      case Some(t1) =>
        assert entries[1..][i - 1] == entries[i];
        forall k | 0 <= k < i - 1
          ensures Join(dest, entries[1..][k]) != Join(dest, entries[1..][i - 1])
        {
          assert entries[1..][k] == entries[k + 1];
        }
        UnpackFailsOnFaultyDir(t1, dest, entries[1..], faults, i - 1);
    }
  }

  /**
   * The disk `s` already holds what the entries name: each directory entry's
   * path exists, and each file entry's path is a file whose extraction does
   * not throw.
   */
  ghost predicate Holds(s: Tree, dest: string, entries: seq<string>, faults: Faults)
  {
    forall i :: 0 <= i < |entries| ==>
      if IsDirEntry(entries[i]) then Join(dest, entries[i]) in s.dirs || Join(dest, entries[i]) in s.files
      else Join(dest, entries[i]) in s.files && !faults(entries[i])
  }

  /** A successful extraction leaves a disk that holds every entry of the archive. */
  lemma {:induction false} UnpackCovers(t: Tree, dest: string, entries: seq<string>, faults: Faults)
    requires Unpack(t, dest, entries, faults).ok
    ensures Holds(Unpack(t, dest, entries, faults).tree, dest, entries, faults)
    decreases |entries|
  {
    if entries != [] {
      var t1 := Apply(t, dest, entries[0], faults).value;
      var u := Unpack(t, dest, entries, faults);
      UnpackCovers(t1, dest, entries[1..], faults);
      UnpackGrows(t1, dest, entries[1..], faults);
      forall i | 0 <= i < |entries|
        ensures if IsDirEntry(entries[i]) then Join(dest, entries[i]) in u.tree.dirs || Join(dest, entries[i]) in u.tree.files
          else Join(dest, entries[i]) in u.tree.files && !faults(entries[i])
      {
        if i > 0 {
          assert entries[1..][i - 1] == entries[i];
        }
      }
    }
  }

  /** On a disk that already holds every entry, an extraction succeeds and changes nothing. */
  lemma {:induction false} UnpackHeld(s: Tree, dest: string, entries: seq<string>, faults: Faults)
    requires Holds(s, dest, entries, faults)
    ensures Unpack(s, dest, entries, faults) == Unpacked(true, s)
    decreases |entries|
  {
    if entries != [] {
      assert Holds(s, dest, entries[1..], faults) by {
        forall i | 0 <= i < |entries[1..]|
          ensures entries[1..][i] == entries[i + 1]
        {
        }
      }
      if IsDirEntry(entries[0]) {
        assert Apply(s, dest, entries[0], faults) == Some(s);
      } else {
        assert Tree(s.dirs, s.files + {Join(dest, entries[0])}) == s;
      }
      UnpackHeld(s, dest, entries[1..], faults);
    }
  }

  /** Extracting the same archive again after a success succeeds and leaves the disk as it was. */
  lemma ExtractAgainIsStable(t: Tree, dest: string, entries: seq<string>, faults: Faults)
    requires Unpack(t, dest, entries, faults).ok
    ensures var s := Unpack(t, dest, entries, faults).tree;
      Unpack(s, dest, entries, faults) == Unpacked(true, s)
  {
    UnpackCovers(t, dest, entries, faults);
    UnpackHeld(Unpack(t, dest, entries, faults).tree, dest, entries, faults);
  }

  /** The paths the directory entries name under `dest`. */
  ghost function DirTargets(dest: string, entries: seq<string>): set<string>
  {
    set i | 0 <= i < |entries| && IsDirEntry(entries[i]) :: Join(dest, entries[i])
  }

  /** The paths the file entries name under `dest`. */
  ghost function FileTargets(dest: string, entries: seq<string>): set<string>
  {
    set i | 0 <= i < |entries| && !IsDirEntry(entries[i]) :: Join(dest, entries[i])
  }

  /** Nothing is created outside what the entries name: new directories come from directory entries, new files from file entries. */
  lemma {:induction false} UnpackOnlyEntries(t: Tree, dest: string, entries: seq<string>, faults: Faults)
    ensures Unpack(t, dest, entries, faults).tree.dirs <= t.dirs + DirTargets(dest, entries)
    ensures Unpack(t, dest, entries, faults).tree.files <= t.files + FileTargets(dest, entries)
    decreases |entries|
  {
    if entries != [] {
      match Apply(t, dest, entries[0], faults)
      case None =>
      case Some(t1) =>
        UnpackOnlyEntries(t1, dest, entries[1..], faults);
        forall i | 0 <= i < |entries[1..]|
          ensures entries[1..][i] == entries[i + 1]
        {
        }
        assert DirTargets(dest, entries[1..]) <= DirTargets(dest, entries);
        assert FileTargets(dest, entries[1..]) <= FileTargets(dest, entries);
        assert IsDirEntry(entries[0]) ==> Join(dest, entries[0]) in DirTargets(dest, entries);
        assert !IsDirEntry(entries[0]) ==> Join(dest, entries[0]) in FileTargets(dest, entries);
    }
  }
}
