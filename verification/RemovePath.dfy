/** s_removePath: removing a subtree bottom-up, with progress and cancellation. */
module RemovePaths {
  import opened Paths
  import opened FileTrees
  import opened TreeSums
  import opened FileSystems

  /** The optional s_FileProcessParam. A flag is false where the pointer to the record, to its counter
      or to its cancel handler is null. */
  class Param {
    const counts: bool
    const cancels: bool
    var value: nat

    constructor (counts: bool, cancels: bool, value: nat)
      ensures this.counts == counts && this.cancels == cancels && this.value == value
    {
      this.counts, this.cancels, this.value := counts, cancels, value;
    }

    /** Advances the progress, then asks the handler, if there is one, whether to stop. */
    method Tick(amount: nat) returns (cancelled: bool)
      modifies this
      ensures value == old(value) + if counts then amount else 0
      ensures cancelled ==> cancels
    {
      if counts {
        value := value + amount;
      }
      cancelled := false;
      if cancels {
        if * {
          cancelled := true;
        }
      }
    }
  }

  /** `u` is `t` with nodes of the subtree at `p` gone, and nothing else changed. */
  ghost predicate Shrunk(t: Tree, u: Tree, p: Path) {
    && u.Keys <= t.Keys
    && (forall x :: x in u ==> u[x] == t[x])
    && (forall x :: x in t && x !in u ==> p <= x)
  }

  /** The walk over the entries `names` of `p` is done: they are gone, and nothing but their subtrees changed. */
  ghost predicate Cleared(t: Tree, u: Tree, p: Path, names: set<string>) {
    && u.Keys <= t.Keys
    && (forall x :: x in u ==> u[x] == t[x])
    && (forall x :: x in t && x !in u ==> x in BelowNames(t, p, names))
    && (forall n :: n in names ==> p + [n] !in u)
  }

  lemma ClearedNothing(t: Tree, p: Path, entries: seq<Dirent>)
    ensures Cleared(t, t, p, EntryNames(entries[..0])) && Shrunk(t, t, p)
  {
    assert EntryNames(entries[..0]) == {};
  }

  lemma ClearedShrinks(t: Tree, u: Tree, p: Path, names: set<string>)
    requires Cleared(t, u, p, names)
    ensures Shrunk(t, u, p)
    ensures p in t ==> p in u
    ensures forall n :: n !in names && p + [n] in t ==> p + [n] in u && u[p + [n]] == t[p + [n]]
    ensures Below(u, p) <= Below(t, p)
  {
    forall n
      ensures p + [n] in BelowNames(t, p, names) ==> n in names
    {
      assert (p + [n])[|p|] == n;
    }
  }

  /** A walk below one entry, finished or not, stays within the subtree. */
  lemma ShrunkBelow(t: Tree, u: Tree, v: Tree, p: Path, names: set<string>, n: string)
    requires Cleared(t, u, p, names) && Shrunk(u, v, p + [n])
    ensures Shrunk(t, v, p)
  {
    forall x | x in t && x !in v
      ensures p <= x
    {
      BelowChild(p, n, x);
    }
  }

  lemma ClearedNext(t: Tree, u: Tree, v: Tree, p: Path, entries: seq<Dirent>, i: nat)
    requires i < |entries| && !IsDot(entries[i].name)
    requires Cleared(t, u, p, EntryNames(entries[..i]))
    requires Shrunk(u, v, p + [entries[i].name]) && p + [entries[i].name] !in v
    ensures Cleared(t, v, p, EntryNames(entries[..i + 1]))
  {
    EntryNamesNext(entries, i);
    var n := entries[i].name;
    forall x | x in t && x !in v
      ensures x in BelowNames(t, p, EntryNames(entries[..i + 1]))
    {
      BelowChild(p, n, x);
    }
  }

  lemma DotSkipped(entries: seq<Dirent>, i: nat)
    requires i < |entries| && IsDot(entries[i].name)
    ensures EntryNames(entries[..i + 1]) == EntryNames(entries[..i])
  {
    EntryNamesNext(entries, i);
  }

  /** When every entry is gone the directory is empty. */
  lemma ClearedAll(t: Tree, u: Tree, p: Path, entries: seq<Dirent>)
    requires WellFormed(u) && p in u && Snapshot(entries, t, p)
    requires Cleared(t, u, p, EntryNames(entries[..|entries|]))
    ensures Below(u, p) == {p}
  {
    assert entries[..|entries|] == entries;
    BelowIsRootAndChildren(u, p);
    forall n
      ensures n !in ChildNames(u, p)
    {
      ChildNamesHold(u, p, n);
      ChildNamesHold(t, p, n);
    }
  }

  lemma RootRemoved(t: Tree, u: Tree, v: Tree, p: Path)
    requires WellFormed(t) && WellFormed(v) && Shrunk(t, u, p) && p in u && v == u - {p}
    ensures Shrunk(t, v, p) && v == Pruned(t, p)
    ensures |t| == |v| + Sum(Files, t, Below(t, p)) + Sum(Folders, t, Below(t, p))
  {
    hide Sum, WellFormed;
    NodesHaveNames(t, p);
    forall x | x in v
      ensures !(p <= x)
    {
      if p <= x {
        AncestorHolds(v, p, x);
      }
    }
    PrunedCount(t, p);
  }

  /** What pruning takes away is the files and folders of the subtree. */
  lemma PrunedCount(t: Tree, p: Path)
    ensures |t| == |Pruned(t, p)| + Sum(Files, t, Below(t, p)) + Sum(Folders, t, Below(t, p))
  {
    var kept := Pruned(t, p).Keys;
    assert t.Keys == kept + Below(t, p);
    SumsAgree(t, Below(t, p));
  }

  /** Removes what `path` denotes. In every outcome the nodes gone are the progress made;
      on success that is the files and folders of the whole subtree. */
  method RemovePath(fs: FileSystem, path: string, param: Param) returns (ret: int)
    requires path != "" && fs.Valid()
    modifies fs, param
    ensures fs.Valid() && (old(fs.faulted) ==> fs.faulted)
    ensures Shrunk(old(fs.tree), fs.tree, Components(path))
    ensures param.counts ==> |old(fs.tree)| == |fs.tree| + (param.value - old(param.value))
    ensures ret > 0 ==> Components(path) in old(fs.tree) && fs.tree == Pruned(old(fs.tree), Components(path))
    ensures ret > 0 && param.counts ==>
              ghost var s := Below(old(fs.tree), Components(path));
              param.value == old(param.value) + Sum(Files, old(fs.tree), s) + Sum(Folders, old(fs.tree), s)
    ensures ret > 0 ==> ret == 1
    ensures ret == 0 ==> param.cancels
    ensures ret < 0 ==> fs.faulted || Components(path) !in old(fs.tree)
    decreases Below(fs.tree, Components(path)), 0
  {
    hide Snapshot, Below, Components, WellFormed, Shrunk, Cleared, EntryNames, Sum, Pruned;
    ghost var t, p := fs.tree, Components(path);
    var dfd, entries := fs.Dopen(path);
    ghost var u := t;
    ClearedNothing(t, p, entries);
    if dfd >= 0 {
      var i := 0;
      while true
        invariant i <= |entries| && fs.Valid() && (old(fs.faulted) ==> fs.faulted)
        invariant Cleared(t, fs.tree, p, EntryNames(entries[..i]))
        invariant param.counts ==> |t| == |fs.tree| + (param.value - old(param.value))
        decreases |entries| - i
      {
        u := fs.tree;
        ClearedShrinks(t, u, p, EntryNames(entries[..i]));
        var res, dir := fs.Dread(entries, i);
        if res <= 0 {
          break;
        }
        i := i + 1;
        if IsDot(dir.name) {
          DotSkipped(entries, i - 1);
          continue;
        }
        EntryDescribed(t, path, entries, i - 1);
        BelowChildSmaller(u, p, dir.name);
        ret := RemoveEntry(fs, path, dir, param);
        ShrunkBelow(t, u, fs.tree, p, EntryNames(entries[..i - 1]), dir.name);
        if ret <= 0 {
          return;
        }
        ClearedNext(t, u, fs.tree, p, entries, i - 1);
      }
      if i == |entries| {
        ClearedAll(t, u, p, entries);
      }
      ret := fs.Rmdir(path);
      if ret < 0 {
        return;
      }
    } else {
      ret := fs.Remove(path);
      if ret < 0 {
        return;
      }
    }
    RootRemoved(t, u, fs.tree, p);
    var cancelled := param.Tick(1);
    if cancelled {
      return 0;
    }
    return 1;
  }

  /** One entry of the directory at `path`: a recursive call, or the removal of a file. */
  method RemoveEntry(fs: FileSystem, path: string, dir: Dirent, param: Param) returns (ret: int)
    requires path != "" && fs.Valid() && IsName(dir.name)
    requires IsFile(fs.tree, Components(path) + [dir.name]) ==> !dir.isDir
    requires IsDir(fs.tree, Components(path) + [dir.name]) ==> dir.isDir
    modifies fs, param
    ensures fs.Valid() && (old(fs.faulted) ==> fs.faulted)
    ensures Shrunk(old(fs.tree), fs.tree, Components(path) + [dir.name])
    ensures param.counts ==> |old(fs.tree)| == |fs.tree| + (param.value - old(param.value))
    ensures ret > 0 ==> Components(path) + [dir.name] !in fs.tree
    ensures ret > 0 ==> ret == 1
    ensures ret == 0 ==> param.cancels
    ensures ret < 0 ==> fs.faulted || Components(path) + [dir.name] !in old(fs.tree)
    decreases Below(fs.tree, Components(path) + [dir.name]), 1
  {
    hide Below, Components, WellFormed, Shrunk, Sum, Pruned, Child;
    ghost var t, x := fs.tree, Components(path) + [dir.name];
    ChildComponents(path, dir.name);
    var newPath := Child(path, dir.name);
    ShrunkByOne(t, x);
    if dir.isDir {
      ret := RemovePath(fs, newPath, param);
      PrunedLacks(t, x);
    } else {
      ret := fs.Remove(newPath);
      if ret < 0 {
        return;
      }
      var cancelled := param.Tick(1);
      if cancelled {
        return 0;
      }
      return 1;
    }
  }

  lemma PrunedLacks(t: Tree, p: Path)
    ensures p !in Pruned(t, p)
  {
  }

  lemma ShrunkByOne(t: Tree, p: Path)
    ensures Shrunk(t, t - {p}, p) && Shrunk(t, t, p)
  {
  }
}
