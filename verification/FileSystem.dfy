/** The sceIo calls that psp2shell_m/source/file.c makes, over a tree held in a field. A call may fail although the tree
    allows it; `faulted` records that one did. */
module FileSystems {
  import opened Basics
  import opened Paths
  import opened FileTrees

  const EEXIST := -0x7FFEFFEF
  const ENOENT := -0x7FFEFFFE
  const EIO := -0x7FFEFFFB

  datatype Dirent = Dirent(name: EntryName, isDir: bool, size: nat)

  function FileSize(n: Node): nat {
    if n.File? then |n.bytes| else 0
  }

  /** The names a stream has yielded, "." and ".." left out. */
  function EntryNames(entries: seq<Dirent>): set<string> {
    set i | 0 <= i < |entries| && !IsDot(entries[i].name) :: entries[i].name
  }

  lemma EntryNamesNext(entries: seq<Dirent>, i: nat)
    requires i < |entries|
    ensures EntryNames(entries[..i + 1])
         == EntryNames(entries[..i]) + if IsDot(entries[i].name) then {} else {entries[i].name}
  {
    var a, b := entries[..i], entries[..i + 1];
    assert forall k :: 0 <= k < i ==> a[k] == b[k];
    assert b[i] == entries[i];
  }

  /** A directory stream: the entries of `p` in some order, "." and ".." anywhere among them. */
  ghost predicate Snapshot(entries: seq<Dirent>, t: Tree, p: Path) {
    Partial(entries, t, p, ChildNames(t, p))
  }

  ghost predicate Describes(e: Dirent, t: Tree, p: Path) {
    var x := p + [e.name];
    x in t && IsName(e.name) && e.isDir == t[x].Dir? && e.size == FileSize(t[x])
  }

  /** A stream whose entries cover `seen` so far. */
  ghost predicate Partial(entries: seq<Dirent>, t: Tree, p: Path, seen: set<string>) {
    && EntryNames(entries) == seen
    && (forall i :: 0 <= i < |entries| && !IsDot(entries[i].name) ==> Describes(entries[i], t, p))
    && (forall i :: 0 <= i < |entries| && !IsDot(entries[i].name) ==> entries[i].name !in EntryNames(entries[..i]))
  }

  lemma PartialExtended(entries: seq<Dirent>, t: Tree, p: Path, seen: set<string>, e: Dirent)
    requires Partial(entries, t, p, seen)
    requires !IsDot(e.name) ==> e.name !in seen && Describes(e, t, p)
    ensures Partial(entries + [e], t, p, seen + if IsDot(e.name) then {} else {e.name})
  {
    var es := entries + [e];
    EntryNamesNext(es, |entries|);
    assert es[..|entries| + 1] == es && es[..|entries|] == entries;
    forall i | 0 <= i < |es| && !IsDot(es[i].name)
      ensures es[i].name !in EntryNames(es[..i])
    {
      if i < |entries| {
        assert es[..i] == entries[..i];
      }
    }
  }

  /** What a stream says about its entries, and where the walk's child string leads. */
  lemma EntryDescribed(t: Tree, path: string, entries: seq<Dirent>, i: nat)
    requires path != "" && Snapshot(entries, t, Components(path))
    requires i < |entries| && !IsDot(entries[i].name)
    ensures var e := entries[i];
            var x := Components(path) + [e.name];
            && IsName(e.name) && x in t && e.isDir == t[x].Dir? && e.size == FileSize(t[x])
            && Components(Child(path, e.name)) == x
            && e.name !in EntryNames(entries[..i])
  {
    assert Describes(entries[i], t, Components(path));
    ChildComponents(path, entries[i].name);
  }

  lemma NothingYielded(t: Tree, p: Path)
    ensures Partial([], t, p, {})
  {
  }

  method MaybeDot(entries: seq<Dirent>, t: Tree, p: Path, ghost seen: set<string>) returns (es: seq<Dirent>)
    requires Partial(entries, t, p, seen)
    ensures Partial(es, t, p, seen)
  {
    es := entries;
    if * {
      var dot: EntryName := ".";
      if * {
        dot := "..";
      }
      es := entries + [Dirent(dot, true, 0)];
      PartialExtended(entries, t, p, seen, Dirent(dot, true, 0));
      assert seen + {} == seen;
    }
  }

  method Yield(entries: seq<Dirent>, t: Tree, p: Path, ghost seen: set<string>, n: string) returns (es: seq<Dirent>)
    requires WellFormed(t) && p + [n] in t && n !in seen
    requires Partial(entries, t, p, seen)
    ensures Partial(es, t, p, seen + {n})
  {
    var x := p + [n];
    assert IsName(x[|p|]);
    PartialExtended(entries, t, p, seen, Dirent(n, t[x].Dir?, FileSize(t[x])));
    es := entries + [Dirent(n, t[x].Dir?, FileSize(t[x]))];
  }

  /** The directory's entries in an order of the device's choosing. */
  method List(t: Tree, p: Path) returns (entries: seq<Dirent>)
    requires WellFormed(t)
    ensures Snapshot(entries, t, p)
  {
    hide Partial, WellFormed, ChildNames;
    entries := [];
    NothingYielded(t, p);
    ghost var seen: set<string> := {};
    var left := ChildNames(t, p);
    while left != {}
      invariant seen + left == ChildNames(t, p) && seen !! left
      invariant Partial(entries, t, p, seen)
      decreases |left|
    {
      var e := MaybeDot(entries, t, p, seen);
      var n :| n in left;
      ChildNamesHold(t, p, n);
      entries := Yield(e, t, p, seen, n);
      left := left - {n};
      seen := seen + {n};
    }
  }

  class FileSystem {
    var tree: Tree
    ghost var faulted: bool

    ghost predicate Valid()
      reads this
    {
      WellFormed(tree)
    }

    constructor (t: Tree)
      requires WellFormed(t)
      ensures Valid() && tree == t && !faulted
    {
      tree, faulted := t, false;
    }

    /** Opens a directory. The stream's contents are fixed here. */
    method Dopen(path: string) returns (fd: int, entries: seq<Dirent>)
      requires Valid()
      modifies this`faulted
      ensures old(faulted) ==> faulted
      ensures fd >= 0 ==> IsDir(tree, Components(path)) && Snapshot(entries, tree, Components(path))
      ensures fd < 0 ==> fd < -3 && (faulted || !IsDir(tree, Components(path)))
    {
      var p := Components(path);
      entries := [];
      if !IsDir(tree, p) {
        return ENOENT, entries;
      }
      if * {
        faulted := true;
        return EIO, entries;
      }
      entries := List(tree, p);
      fd := 0;
    }

    /** Reads entry `i` of a stream: positive with the entry, 0 at the end, negative on a fault. */
    method Dread(entries: seq<Dirent>, i: nat) returns (res: int, dir: Dirent)
      requires i <= |entries|
      modifies this`faulted
      ensures old(faulted) ==> faulted
      ensures res > 0 ==> i < |entries| && dir == entries[i]
      ensures res <= 0 ==> faulted || i == |entries|
    {
      dir := Dirent(".", false, 0);
      if * {
        faulted := true;
        return EIO, dir;
      }
      if i == |entries| {
        return 0, dir;
      }
      return 1, entries[i];
    }

    method Getstat(path: string) returns (res: int, isDir: bool, size: nat)
      requires Valid()
      modifies this`faulted
      ensures old(faulted) ==> faulted
      ensures res >= 0 ==> Components(path) in tree
                           && isDir == tree[Components(path)].Dir? && size == FileSize(tree[Components(path)])
      ensures res < 0 ==> res < -3 && (faulted || Components(path) !in tree)
    {
      isDir, size := false, 0;
      if Components(path) !in tree {
        return ENOENT, isDir, size;
      }
      if * {
        faulted := true;
        return EIO, isDir, size;
      }
      return 0, tree[Components(path)].Dir?, FileSize(tree[Components(path)]);
    }

    /** Removes a file. */
    method Remove(path: string) returns (res: int)
      requires Valid()
      modifies this
      ensures Valid() && (old(faulted) ==> faulted)
      ensures res >= 0 ==> old(IsFile(tree, Components(path))) && tree == old(tree) - {Components(path)}
      ensures res < 0 ==> res < -3 && tree == old(tree) && (faulted || !IsFile(tree, Components(path)))
    {
      var p := Components(path);
      if !IsFile(tree, p) {
        return ENOENT;
      }
      if * {
        faulted := true;
        return EIO;
      }
      FileIsLeaf(tree, p);
      RemovingLeaf(tree, p);
      tree := tree - {p};
      return 0;
    }

    /** Removes an empty directory. */
    method Rmdir(path: string) returns (res: int)
      requires Valid()
      modifies this
      ensures Valid() && (old(faulted) ==> faulted)
      ensures res >= 0 ==> old(IsDir(tree, Components(path)) && Below(tree, Components(path)) == {Components(path)})
                           && tree == old(tree) - {Components(path)}
      ensures res < 0 ==> res < -3 && tree == old(tree)
                          && (faulted || !IsDir(tree, Components(path)) || Below(tree,
                               Components(path)) != {Components(path)})
    {
      var p := Components(path);
      var below := set x | x in tree && p <= x;
      assert below == Below(tree, p);
      if !IsDir(tree, p) || below != {p} {
        return ENOENT;
      }
      if * {
        faulted := true;
        return EIO;
      }
      RemovingLeaf(tree, p);
      tree := tree - {p};
      return 0;
    }

    method Mkdir(path: string) returns (res: int)
      requires Valid()
      modifies this
      ensures Valid() && (old(faulted) ==> faulted)
      ensures res >= 0 ==> old(CanHold(tree, Components(path))) && Components(path) !in old(tree)
                           && tree == old(tree)[Components(path) := Dir]
      ensures res < 0 ==> res < -3 && tree == old(tree)
      ensures res == EEXIST ==> Components(path) in tree
      ensures res < 0 && res != EEXIST ==> faulted || !CanHold(tree, Components(path))
    {
      var p := Components(path);
      if p in tree {
        return EEXIST;
      }
      if !CanHold(tree, p) {
        return ENOENT;
      }
      if * {
        faulted := true;
        return EIO;
      }
      AddingLeaf(tree, p, Dir);
      tree := tree[p := Dir];
      return 0;
    }

    /** sceIoOpen for reading: only files open. */
    method OpenRead(path: string) returns (fd: int)
      requires Valid()
      modifies this`faulted
      ensures old(faulted) ==> faulted
      ensures fd >= 0 ==> IsFile(tree, Components(path))
      ensures fd < 0 ==> fd < -3 && (faulted || !IsFile(tree, Components(path)))
    {
      if !IsFile(tree, Components(path)) {
        return ENOENT;
      }
      if * {
        faulted := true;
        return EIO;
      }
      return 0;
    }

    /** sceIoOpen with create and truncate. */
    method OpenWrite(path: string) returns (fd: int)
      requires Valid()
      modifies this
      ensures Valid() && (old(faulted) ==> faulted)
      ensures fd >= 0 ==> old(CanHold(tree, Components(path)) && !IsDir(tree, Components(path)))
                          && tree == old(tree)[Components(path) := File([])]
      ensures fd < 0 ==> fd < -3 && tree == old(tree)
                         && (faulted || !CanHold(tree, Components(path)) || IsDir(tree, Components(path)))
    {
      var p := Components(path);
      if !CanHold(tree, p) || IsDir(tree, p) {
        return ENOENT;
      }
      if * {
        faulted := true;
        return EIO;
      }
      AddingLeaf(tree, p, File([]));
      tree := tree[p := File([])];
      return 0;
    }

    /** Reads at most `max` bytes at `pos`; how many is up to the device, but 0 only at the end. */
    method Read(path: string, pos: nat, max: nat) returns (n: int, data: seq<Byte>)
      requires Valid() && IsFile(tree, Components(path)) && pos <= |tree[Components(path)].bytes| && max > 0
      modifies this`faulted
      ensures old(faulted) ==> faulted
      ensures n >= 0 ==> n <= max && pos + n <= |tree[Components(path)].bytes|
                         && data == tree[Components(path)].bytes[pos..pos + n]
      ensures n == 0 ==> pos == |tree[Components(path)].bytes|
      ensures n < 0 ==> faulted
    {
      data := [];
      if * {
        faulted := true;
        return EIO, data;
      }
      var bytes := tree[Components(path)].bytes;
      var left := if |bytes| - pos < max then |bytes| - pos else max;
      n := left;
      while n > 1
        invariant 0 <= n <= left && (n == 0 ==> left == 0)
      {
        if * {
          break;
        }
        n := n - 1;
      }
      data := bytes[pos..pos + n];
    }

    /** Appends to an open file. A short write is a fault the caller is not told about. */
    method Write(path: string, data: seq<Byte>) returns (res: int)
      requires Valid() && IsFile(tree, Components(path))
      modifies this
      ensures Valid() && (old(faulted) ==> faulted)
      ensures IsFile(tree, Components(path))
      ensures exists k :: 0 <= k <= |data| && (!faulted ==> k == |data|)
                && tree == old(tree)[Components(path) := File(old(tree[Components(path)].bytes) + data[..k])]
      ensures res < 0 ==> res < -3 && faulted
    {
      var p := Components(path);
      var k := |data|;
      res := |data|;
      if * {
        faulted := true;
        res := EIO;
        k := 0;
      } else {
        while k > 0
          invariant 0 <= k <= |data| && (old(faulted) ==> faulted) && (!faulted ==> k == |data|)
          invariant tree == old(tree)
        {
          if * {
            break;
          }
          faulted := true;
          k := k - 1;
        }
      }
      AddingLeaf(tree, p, File(tree[p].bytes + data[..k]));
      tree := tree[p := File(tree[p].bytes + data[..k])];
    }

    /** Moves a whole subtree to a free path. An existing destination is the one failure the caller handles. */
    method Rename(src: string, dst: string) returns (res: int)
      requires Valid()
      modifies this
      ensures Valid() && (old(faulted) ==> faulted)
      ensures res >= 0 ==> old(Renamable(tree, Components(src), Components(dst)))
                           && tree == Moved(old(tree), Components(src), Components(dst),
                                            Below(old(tree), Components(src)))
      ensures res < 0 ==> tree == old(tree)
      ensures res == EEXIST ==> Components(src) in tree && Components(dst) in tree
      ensures res < 0 && res != EEXIST ==> faulted || !Renamable(tree, Components(src), Components(dst))
      ensures res < 0 ==> res < -3
      ensures Components(src) in old(tree) && Components(dst) in old(tree) ==> res == EEXIST || faulted
    {
      var p, q := Components(src), Components(dst);
      if * {
        faulted := true;
        return EIO;
      }
      if p in tree && q in tree {
        return EEXIST;
      }
      if !Renamable(tree, p, q) {
        return ENOENT;
      }
      MovingFreely(tree, p, q);
      tree := Moved(tree, p, q, Below(tree, p));
      return 0;
    }
  }

  predicate Renamable(t: Tree, p: Path, q: Path) {
    p in t && q !in t && CanHold(t, q) && Incomparable(p, q)
  }
}
