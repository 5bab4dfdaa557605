/** s_getPathInfo: counting the bytes, folders and files of a subtree through optional counters. */
module PathInfos {
  import opened Paths
  import opened FileTrees
  import opened TreeSums
  import opened FileSystems

  /** The three counters the caller passes by pointer; a flag is false where the pointer is null. */
  class Totals {
    const hasSize: bool
    const hasFolders: bool
    const hasFiles: bool
    var size: nat
    var folders: nat
    var files: nat

    constructor (hasSize: bool, hasFolders: bool, hasFiles: bool)
      ensures this.hasSize == hasSize && this.hasFolders == hasFolders && this.hasFiles == hasFiles
      ensures size == 0 && folders == 0 && files == 0
    {
      this.hasSize, this.hasFolders, this.hasFiles := hasSize, hasFolders, hasFiles;
      size, folders, files := 0, 0, 0;
    }

    method Add(bytes: nat, dirs: nat, entries: nat)
      modifies this
      ensures Grew(bytes, dirs, entries) && GrewAtMost(bytes, dirs, entries)
    {
      size := size + if hasSize then bytes else 0;
      folders := folders + if hasFolders then dirs else 0;
      files := files + if hasFiles then entries else 0;
    }

    /** The counters that are there went up by exactly these amounts. */
    twostate predicate Grew(bytes: nat, dirs: nat, entries: nat)
      reads this
    {
      && (hasSize ==> size == old(size) + bytes)
      && (hasFolders ==> folders == old(folders) + dirs)
      && (hasFiles ==> files == old(files) + entries)
    }

    /** No counter went down, or up by more than these amounts. */
    twostate predicate GrewAtMost(bytes: nat, dirs: nat, entries: nat)
      reads this
    {
      && old(size) <= size <= old(size) + bytes
      && old(folders) <= folders <= old(folders) + dirs
      && old(files) <= files <= old(files) + entries
    }
  }

  /** What the files counter can at most go up by: a directory the device fails to open counts as a file. */
  ghost function MostFiles(t: Tree, p: Path): nat {
    if p in t then Sum(Files, t, Below(t, p)) + Sum(Folders, t, Below(t, p)) else 1
  }

  /** Counts the subtree at `path`. A path that does not exist is an error only when its size is asked for. */
  method GetPathInfo(fs: FileSystem, path: string, totals: Totals) returns (ret: int)
    requires path != "" && fs.Valid()
    modifies fs`faulted, totals
    ensures old(fs.faulted) ==> fs.faulted
    ensures ret < 0 || ret == 1
    ensures Components(path) in fs.tree && !fs.faulted ==>
              ret == 1 && ghost var s := Below(fs.tree, Components(path));
              totals.Grew(Sum(Bytes, fs.tree, s), Sum(Folders, fs.tree, s), Sum(Files, fs.tree, s))
    ensures Components(path) !in fs.tree && !fs.faulted ==>
              (ret == 1 <==> !totals.hasSize) && totals.Grew(0, 0, if totals.hasSize then 0 else 1)
    ensures ghost var s := Below(fs.tree, Components(path));
            totals.GrewAtMost(Sum(Bytes, fs.tree, s), Sum(Folders, fs.tree, s), MostFiles(fs.tree, Components(path)))
    decreases Below(fs.tree, Components(path)), 0
  {
    hide Sum, SumUpTo, Snapshot, Below, Components, Weigh, MostFiles, WellFormed;
    ghost var t, p := fs.tree, Components(path);
    MostFilesIn(t, p);
    var dfd, entries := fs.Dopen(path);
    if dfd >= 0 {
      var i := 0;
      SumUpToNone(t, p, entries);
      while true
        invariant i <= |entries| && (old(fs.faulted) ==> fs.faulted)
        invariant !fs.faulted ==> totals.Grew(SumUpTo(Bytes, t, p, entries, i), SumUpTo(Folders, t, p, entries, i),
                                              SumUpTo(Files, t, p, entries, i))
        invariant totals.GrewAtMost(SumUpTo(Bytes, t, p, entries, i), SumUpTo(Folders, t, p, entries, i),
                                    SumUpTo(Files, t, p, entries, i) + SumUpTo(Folders, t, p, entries, i))
        decreases |entries| - i
      {
        var res, dir := fs.Dread(entries, i);
        if res <= 0 {
          break;
        }
        SumUpToNext(t, p, entries, i);
        i := i + 1;
        if IsDot(dir.name) {
          continue;
        }
        EntryDescribed(t, path, entries, i - 1);
        BelowChildSmaller(t, p, dir.name);
        SumUpToPart(t, p, entries, i);
        ret := CountEntry(fs, path, dir, totals);
        if ret <= 0 {
          return;
        }
      }
      SumUpToAll(t, p, entries);
      SumUpToPart(t, p, entries, i);
      totals.Add(0, 1, 0);
    } else {
      if IsFile(t, p) {
        SumsFile(t, p);
      }
      var bytes := 0;
      if totals.hasSize {
        var res, isDir, size := fs.Getstat(path);
        if res < 0 {
          return res;
        }
        bytes := size;
      }
      totals.Add(bytes, 0, 1);
    }
    return 1;
  }

  /** One entry of the directory at `path`: a recursive call, or the size the stream reports. */
  method CountEntry(fs: FileSystem, path: string, dir: Dirent, totals: Totals) returns (ret: int)
    requires path != "" && fs.Valid() && IsName(dir.name) && Components(path) + [dir.name] in fs.tree
    requires dir.isDir == IsDir(fs.tree, Components(path) + [dir.name])
    requires dir.size == FileSize(fs.tree[Components(path) + [dir.name]])
    modifies fs`faulted, totals
    ensures (old(fs.faulted) ==> fs.faulted) && (ret < 0 || ret == 1) && (!fs.faulted ==> ret == 1)
    ensures !fs.faulted ==>
              ghost var s := Below(fs.tree, Components(path) + [dir.name]);
              totals.Grew(Sum(Bytes, fs.tree, s), Sum(Folders, fs.tree, s), Sum(Files, fs.tree, s))
    ensures ghost var s := Below(fs.tree, Components(path) + [dir.name]);
            totals.GrewAtMost(Sum(Bytes, fs.tree, s), Sum(Folders, fs.tree, s),
                              Sum(Files, fs.tree, s) + Sum(Folders, fs.tree, s))
    decreases Below(fs.tree, Components(path) + [dir.name]), 1
  {
    hide Sum, Below, Components, Weigh, MostFiles, WellFormed, Child;
    ghost var t, x := fs.tree, Components(path) + [dir.name];
    ChildComponents(path, dir.name);
    MostFilesIn(t, x);
    if dir.isDir {
      ret := GetPathInfo(fs, Child(path, dir.name), totals);
    } else {
      SumsFile(t, x);
      totals.Add(dir.size, 0, 1);
      ret := 1;
    }
  }

  /** What the first `i` entries of a stream add up to. */
  ghost function SumUpTo(w: Measure, t: Tree, p: Path, entries: seq<Dirent>, i: nat): nat
    requires i <= |entries|
  {
    Sum(w, t, BelowNames(t, p, EntryNames(entries[..i])))
  }

  lemma SumUpToNone(t: Tree, p: Path, entries: seq<Dirent>)
    ensures forall w :: SumUpTo(w, t, p, entries, 0) == 0
  {
    assert BelowNames(t, p, EntryNames(entries[..0])) == {};
  }

  lemma SumUpToNext(t: Tree, p: Path, entries: seq<Dirent>, i: nat)
    requires Snapshot(entries, t, p) && i < |entries|
    ensures forall w :: SumUpTo(w, t, p, entries, i + 1)
                     == SumUpTo(w, t, p, entries, i)
                        + if IsDot(entries[i].name) then 0 else Sum(w, t, Below(t, p + [entries[i].name]))
  {
    hide Sum;
    EntryNamesNext(entries, i);
    forall w
      ensures SumUpTo(w, t, p, entries, i + 1)
           == SumUpTo(w, t, p, entries, i)
              + if IsDot(entries[i].name) then 0 else Sum(w, t, Below(t, p + [entries[i].name]))
    {
      if IsDot(entries[i].name) {
        assert EntryNames(entries[..i]) + {} == EntryNames(entries[..i]);
      } else {
        SumNextEntry(w, t, p, EntryNames(entries[..i]), entries[i].name);
      }
    }
  }

  lemma SumUpToAll(t: Tree, p: Path, entries: seq<Dirent>)
    requires WellFormed(t) && IsDir(t, p) && Snapshot(entries, t, p)
    ensures forall w :: Sum(w, t, Below(t, p)) == Weigh(w, Dir) + SumUpTo(w, t, p, entries, |entries|)
    ensures Weigh(Bytes, Dir) == 0 && Weigh(Folders, Dir) == 1 && Weigh(Files, Dir) == 0
  {
    hide Sum, WellFormed;
    assert entries[..|entries|] == entries;
    forall w
      ensures Sum(w, t, Below(t, p)) == Weigh(w, Dir) + SumUpTo(w, t, p, entries, |entries|)
    {
      SumRootAndChildren(w, t, p);
    }
  }

  lemma MostFilesIn(t: Tree, p: Path)
    requires WellFormed(t)
    ensures p in t ==> MostFiles(t, p) == Sum(Files, t, Below(t, p)) + Sum(Folders, t, Below(t, p)) >= 1
    ensures p !in t ==> MostFiles(t, p) == 1
  {
    if p in t {
      SumsAgree(t, Below(t, p));
      assert p in Below(t, p);
    }
  }

  /** Part of the entries add up to no more than all of them. */
  lemma {:induction false} SumUpToPart(t: Tree, p: Path, entries: seq<Dirent>, i: nat)
    requires WellFormed(t) && IsDir(t, p) && Snapshot(entries, t, p) && i <= |entries|
    ensures forall w :: SumUpTo(w, t, p, entries, i) + Weigh(w, Dir) <= Sum(w, t, Below(t, p))
    decreases |entries| - i
  {
    hide Sum, SumUpTo, Weigh, WellFormed, Snapshot;
    if i == |entries| {
      SumUpToAll(t, p, entries);
    } else {
      SumUpToPart(t, p, entries, i + 1);
      SumUpToNext(t, p, entries, i);
    }
  }

  lemma SumsFile(t: Tree, p: Path)
    requires WellFormed(t) && IsFile(t, p)
    ensures forall w :: Sum(w, t, Below(t, p)) == Weigh(w, t[p])
    ensures Weigh(Bytes, t[p]) == FileSize(t[p]) && Weigh(Folders, t[p]) == 0 && Weigh(Files, t[p]) == 1
  {
    hide Sum, WellFormed;
    forall w
      ensures Sum(w, t, Below(t, p)) == Weigh(w, t[p])
    {
      SumFile(w, t, p);
    }
  }
}
