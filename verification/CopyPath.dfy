/** s_copyFile and s_copyPath. */
module CopyPaths {
  import opened Basics
  import opened Paths
  import opened FileTrees
  import opened TreeSums
  import opened FileSystems
  import opened PathInfos
  import opened RemovePaths
  import opened CopyTrees

  /** Copies one file in chunks. A second name of the source that the guard passes empties it. */
  method CopyFile(fs: FileSystem, src: string, dst: string, param: Param) returns (ret: int)
    requires src != "" && fs.Valid()
    modifies fs, param
    ensures fs.Valid() && (old(fs.faulted) ==> fs.faulted)
    ensures Guard(src, dst) != 0 ==> ret == Guard(src, dst) && fs.tree == old(fs.tree)
    ensures Guard(src, dst) == 0 ==> ret != -1 && ret != -2
    ensures Components(src) != Components(dst) ==>
              FileTouched(old(fs.tree), fs.tree, Components(src), Components(dst), !fs.faulted)
    ensures Components(src) == Components(dst) ==> EmptiedAtMost(old(fs.tree), fs.tree, Components(src))
    ensures Components(src) == Components(dst) && Guard(src, dst) == 0 && ret > 0 ==>
              IsEmptied(fs.tree, Components(src))
    ensures Components(src) != Components(dst) && ret > 0 && !fs.faulted ==>
              && old(IsFile(fs.tree, Components(src)) && CanHold(fs.tree, Components(dst)) &&
                   !IsDir(fs.tree, Components(dst)))
              && fs.tree == old(fs.tree)[Components(dst) := old(fs.tree[Components(src)])]
              && (param.counts ==> param.value == old(param.value) + |old(fs.tree[Components(src)].bytes)|)
    ensures ret > 0 ==> ret == 1
    ensures ret == 0 ==> param.cancels
    ensures ret < 0 && Guard(src, dst) == 0 ==>
              fs.faulted || !old(IsFile(fs.tree, Components(src)) && CanHold(fs.tree, Components(dst)) &&
                  !IsDir(fs.tree, Components(dst)))
  {
    hide Components, WellFormed, Guard, CanHold;
    ret := Guard(src, dst);
    if ret != 0 {
      return;
    }
    ghost var t, p, q := fs.tree, Components(src), Components(dst);
    var fdSrc := fs.OpenRead(src);
    if fdSrc < 0 {
      return fdSrc;
    }
    var fdDst := fs.OpenWrite(dst);
    if fdDst < 0 {
      return fdDst;
    }
    if * { // no memory for the buffer
      fs.faulted := true;
      return -3;
    }
    ret := CopyContents(fs, src, dst, param);
  }

  ghost predicate IsEmptied(t: Tree, p: Path) {
    p in t && t[p] == File([])
  }

  /** Nothing changed, or the file at `p` lost its contents. */
  ghost predicate EmptiedAtMost(t: Tree, u: Tree, p: Path) {
    u == t || (IsFile(t, p) && u == t[p := File([])])
  }

  /** The chunk loop of s_copyFile: `dst` was just truncated. */
  method CopyContents(fs: FileSystem, src: string, dst: string, param: Param) returns (ret: int)
    requires fs.Valid()
    requires IsFile(fs.tree, Components(src)) && Components(dst) in fs.tree && fs.tree[Components(dst)] == File([])
    modifies fs, param
    ensures fs.Valid() && (old(fs.faulted) ==> fs.faulted)
    ensures IsFile(fs.tree, Components(dst))
    ensures fs.tree == old(fs.tree)[Components(dst) := fs.tree[Components(dst)]]
    ensures Components(src) == Components(dst) ==> fs.tree == old(fs.tree)
    ensures !fs.faulted ==> fs.tree[Components(dst)].bytes <= old(fs.tree[Components(src)].bytes)
    ensures ret > 0 && !fs.faulted ==>
              && fs.tree[Components(dst)] == old(fs.tree[Components(src)])
              && (param.counts ==> param.value == old(param.value) + |old(fs.tree[Components(src)].bytes)|)
    ensures ret > 0 ==> ret == 1
    ensures ret == 0 ==> param.cancels
    ensures ret < 0 ==> ret < -3 && fs.faulted
  {
    hide Components, WellFormed;
    ghost var t, p, q := fs.tree, Components(src), Components(dst);
    var pos := 0;
    while true
      invariant fs.Valid() && (old(fs.faulted) ==> fs.faulted)
      invariant pos <= |t[p].bytes| && (p == q ==> fs.tree == t)
      invariant IsFile(fs.tree, q) && fs.tree == t[q := fs.tree[q]]
      invariant !fs.faulted ==> fs.tree[q] == File(t[p].bytes[..pos])
      invariant param.counts ==> param.value == old(param.value) + pos
      decreases |t[p].bytes| - pos
    {
      var read, data := fs.Read(src, pos, P2S_SIZE_DATA);
      if read <= 0 {
        break;
      }
      var res := fs.Write(dst, data);
      if res < 0 {
        return res;
      }
      assert t[p].bytes[..pos] + t[p].bytes[pos..pos + read] == t[p].bytes[..pos + read];
      pos := pos + read;
      var cancelled := param.Tick(read);
      if cancelled {
        return 0;
      }
    }
    assert t[p].bytes[..|t[p].bytes|] == t[p].bytes;
    return 1;
  }

  /** A file copy, finished or not, changes at most the destination file. */
  ghost predicate FileTouched(t: Tree, u: Tree, p: Path, q: Path, exact: bool) {
    u == t || (IsFile(t, p) && !IsDir(t, q) && IsFile(u, q) && u == t[q := u[q]] && (exact ==>
        u[q].bytes <= t[p].bytes))
  }

  /** What a call that passes the guard guarantees, whatever it returns: `advance` is what the progress went up by. */
  ghost predicate CopyOutcome(t: Tree, u: Tree, p: Path, q: Path, ret: int, faulted: bool, param: Param, advance: int) {
    // nothing disappears, and only destination paths with a counterpart change
    && Touched(t, u, p, q, !faulted)
    // success: the whole subtree is laid over the destination, and the progress is its size plus its folders
    && (ret > 0 && !faulted ==> Copyable(t, p, q) && u == Copied(t, p, q, Below(t, p)))
    && (ret > 0 && !faulted && param.counts ==> advance == Sum(CopyUnits, t, Below(t, p)))
    // failure: the handler asked for it, the device failed, or the trees do not allow the copy
    && (ret == 0 ==> param.cancels)
    && (ret < 0 ==> ret < -2 && (faulted || !Copyable(t, p, q)))
    && (ret > 0 ==> ret == 1)
  }

  /** The loop of s_copyPath after `i` entries of the stream. */
  ghost predicate Walking(t: Tree, u: Tree, p: Path, q: Path, entries: seq<Dirent>, i: nat, faulted: bool,
                          param: Param, advance: int)
    requires i <= |entries|
  {
    && Touched(t, u, p, q, !faulted)
    && (!faulted ==> CopiedSoFar(t, u, p, q, EntryNames(entries[..i])))
    && (!faulted && param.counts ==> advance == 1 + SumUpTo(CopyUnits, t, p, entries, i))
  }

  lemma WalkStarts(t: Tree, p: Path, q: Path, entries: seq<Dirent>, faulted: bool, param: Param, advance: int)
    requires IsDir(t, p) && CanHold(t, q) && (param.counts ==> advance == 1)
    ensures Walking(t, if q in t then t else t[q := Dir], p, q, entries, 0, faulted, param, advance)
  {
    CopiedRoot(t, p, q);
    assert EntryNames(entries[..0]) == {};
    SumUpToNone(t, p, entries);
    assert Rebase(q, q, p) == p;
  }

  lemma WalkFaults(t: Tree, u: Tree, p: Path, q: Path, entries: seq<Dirent>, i: nat, before: bool, after: bool,
                   param: Param, advance: int)
    requires i <= |entries| && Walking(t, u, p, q, entries, i, before, param, advance) && (before ==> after)
    ensures Walking(t, u, p, q, entries, i, after, param, advance)
    ensures param.cancels ==> CopyOutcome(t, u, p, q, 0, after, param, advance)
  {
    hide CopiedSoFar, SumUpTo, Landed;
    TouchedWeaker(t, u, p, q, !before, !after);
  }

  lemma WalkSkipsDot(t: Tree, u: Tree, p: Path, q: Path, entries: seq<Dirent>, i: nat, faulted: bool, param: Param,
                     advance: int)
    requires i < |entries| && IsDot(entries[i].name) && Snapshot(entries, t, p)
    requires Walking(t, u, p, q, entries, i, faulted, param, advance)
    ensures Walking(t, u, p, q, entries, i + 1, faulted, param, advance)
  {
    hide CopiedSoFar, SumUpTo, Snapshot, Touched;
    EntryNamesNext(entries, i);
    assert EntryNames(entries[..i + 1]) == EntryNames(entries[..i]);
    SumUpToNext(t, p, entries, i);
  }

  lemma WalkGoesOn(t: Tree, u: Tree, v: Tree, p: Path, q: Path, entries: seq<Dirent>, i: nat,
                   ret: int, before: bool, after: bool, param: Param, advance: int, more: int)
    requires WellFormed(t) && WellFormed(u) && Clear(t, p, q)
    requires i < |entries| && !IsDot(entries[i].name) && Snapshot(entries, t, p)
    requires p + [entries[i].name] in t && entries[i].name !in EntryNames(entries[..i])
    requires Walking(t, u, p, q, entries, i, before, param, advance) && (before ==> after)
    requires CopyOutcome(u, v, p + [entries[i].name], q + [entries[i].name], ret, after, param, more)
    ensures ret > 0 ==> Walking(t, v, p, q, entries, i + 1, after, param, advance + more)
    ensures ret <= 0 ==> CopyOutcome(t, v, p, q, ret, after, param, advance + more)
  {
    hide CopiedSoFar, SumUpTo, Snapshot, Touched, Copyable, Copied, Sum, WellFormed;
    var n := entries[i].name;
    TouchedThen(t, u, v, p, q, n, !before, !after);
    if !after {
      var names := EntryNames(entries[..i]);
      if ret > 0 {
        CopiedNext(t, u, v, p, q, names, n);
        EntryNamesNext(entries, i);
        CopiedKeeps(t, u, p, q, names, n);
        EntrySum(t, u, p, n);
        SumUpToNext(t, p, entries, i);
      } else if Copyable(t, p, q) {
        CopyableEntry(t, u, p, q, names, n);
      }
    }
  }

  lemma EntrySum(t: Tree, u: Tree, p: Path, n: string)
    requires Below(u, p + [n]) == Below(t, p + [n])
    requires forall x :: p <= x && x in t ==> x in u && t[x] == u[x]
    ensures Sum(CopyUnits, u, Below(u, p + [n])) == Sum(CopyUnits, t, Below(t, p + [n]))
  {
    forall x | x in Below(t, p + [n])
      ensures p <= x
    {
      BelowChild(p, n, x);
    }
    SumAgree(CopyUnits, t, u, Below(t, p + [n]));
  }

  lemma WalkEnds(t: Tree, u: Tree, p: Path, q: Path, entries: seq<Dirent>, i: nat, faulted: bool, param: Param,
                 advance: int)
    requires WellFormed(t) && IsDir(t, p) && Snapshot(entries, t, p)
    requires i <= |entries| && Walking(t, u, p, q, entries, i, faulted, param, advance)
    requires faulted || i == |entries|
    ensures CopyOutcome(t, u, p, q, 1, faulted, param, advance)
  {
    hide CopiedSoFar, SumUpTo, Touched, Copyable, Copied, Sum, WellFormed;
    if !faulted {
      assert entries[..i] == entries;
      CopiedAll(t, u, p, q);
      SumUpToAll(t, p, entries);
    }
  }

  /** A read error ends the walk as the end of the directory does: with the return value 1, whatever was left. */
  lemma ReadErrorEndsQuietly(t: Tree, u: Tree, p: Path, q: Path, entries: seq<Dirent>, i: nat, param: Param,
                             advance: int)
    requires WellFormed(t) && IsDir(t, p) && Snapshot(entries, t, p)
    requires i <= |entries| && Walking(t, u, p, q, entries, i, true, param, advance)
    ensures CopyOutcome(t, u, p, q, 1, true, param, advance)
  {
    WalkEnds(t, u, p, q, entries, i, true, param, advance);
  }

  lemma NothingCopied(t: Tree, p: Path, q: Path, ret: int, faulted: bool, param: Param)
    requires ret < -2 && (faulted || !CanHold(t, q))
    ensures CopyOutcome(t, t, p, q, ret, faulted, param, 0)
  {
  }

  /** Below a source that does not contain the destination the guard stays silent. */
  lemma EntryPassesGuard(src: string, dst: string, n: string)
    requires src != "" && dst != "" && IsName(n)
    requires !(Components(src) <= Components(dst))
    ensures Components(Child(src, n)) == Components(src) + [n]
    ensures Components(Child(dst, n)) == Components(dst) + [n]
    ensures Guard(Child(src, n), Child(dst, n)) == 0
    ensures !(Components(src) + [n] <= Components(dst) + [n])
  {
    hide Components, Guard;
    ChildComponents(src, n);
    ChildComponents(dst, n);
    var p, q := Components(src), Components(dst);
    if p + [n] <= q + [n] {
      PrefixWithoutTail(p, q, [n]);
    }
    if Guard(Child(src, n), Child(dst, n)) != 0 {
      GuardSound(Child(src, n), Child(dst, n));
    }
  }

  /** A clear walk does not lead into its own source. */
  lemma ClearRoot(t: Tree, p: Path, q: Path)
    requires Clear(t, p, q) && p in t
    ensures !(p <= q)
  {
    assert p in Below(t, p) && Rebase(p, p, q) == q;
  }

  /** s_copyFile seen as the copy of a subtree that is one file. */
  method CopyLeaf(fs: FileSystem, src: string, dst: string, param: Param) returns (ret: int)
    requires src != "" && fs.Valid() && (fs.faulted || !IsDir(fs.tree, Components(src)))
    requires Guard(src, dst) == 0 && (Components(src) in fs.tree ==> Components(src) != Components(dst))
    modifies fs, param
    ensures fs.Valid() && (old(fs.faulted) ==> fs.faulted)
    ensures CopyOutcome(old(fs.tree), fs.tree, Components(src), Components(dst), ret, fs.faulted, param,
                        param.value - old(param.value))
  {
    hide WellFormed, Components, Guard;
    ghost var t, p, q := fs.tree, Components(src), Components(dst);
    ret := CopyFile(fs, src, dst, param);
    LeafCopied(t, fs.tree, p, q, !fs.faulted);
  }

  lemma LeafCopied(t: Tree, u: Tree, p: Path, q: Path, exact: bool)
    requires WellFormed(t) && FileTouched(t, u, p, q, exact)
    ensures Touched(t, u, p, q, exact)
    ensures !IsDir(t, p) ==> (Copyable(t, p, q) <==> IsFile(t, p) && CanHold(t, q) && !IsDir(t, q))
    ensures IsFile(t, p) && !IsDir(t, q) ==> t[q := t[p]] == Copied(t, p, q, Below(t, p))
    ensures IsFile(t, p) ==> Sum(CopyUnits, t, Below(t, p)) == |t[p].bytes|
  {
    assert Rebase(q, q, p) == p;
    if IsFile(t, p) {
      CopiedFile(t, p, q);
      SumFile(CopyUnits, t, p);
    }
  }

  /** Copies what `src` denotes to `dst`, merging directories and overwriting files. */
  method CopyPath(fs: FileSystem, src: string, dst: string, param: Param) returns (ret: int)
    requires src != "" && dst != "" && fs.Valid()
    requires Guard(src, dst) != 0 || Clear(fs.tree, Components(src), Components(dst))
    modifies fs, param
    ensures fs.Valid() && (old(fs.faulted) ==> fs.faulted)
    ensures Guard(src, dst) != 0 ==> ret == Guard(src, dst) && fs.tree == old(fs.tree)
    ensures Guard(src, dst) == 0 ==>
              CopyOutcome(old(fs.tree), fs.tree, Components(src), Components(dst), ret, fs.faulted, param,
                          param.value - old(param.value))
    decreases Below(fs.tree, Components(src)), 0
  {
    hide WellFormed, Components, Guard, CopyOutcome, Walking, Below, Snapshot, EntryNames, CanHold, Child, Clear;
    ret := Guard(src, dst);
    if ret != 0 {
      return;
    }
    ghost var t, p, q := fs.tree, Components(src), Components(dst);
    ghost var start: int := param.value;
    var dfd, entries := fs.Dopen(src);
    if p in t {
      ClearRoot(t, p, q);
    }
    if dfd < 0 {
      ret := CopyLeaf(fs, src, dst, param);
      return;
    }
    ret := fs.Mkdir(dst);
    if ret < 0 && ret != EEXIST {
      NothingCopied(t, p, q, ret, fs.faulted, param);
      return;
    }
    var cancelled := param.Tick(1);
    WalkStarts(t, p, q, entries, fs.faulted, param, param.value - start);
    if cancelled {
      WalkFaults(t, fs.tree, p, q, entries, 0, fs.faulted, fs.faulted, param, param.value - start);
      return 0;
    }
    var i := 0;
    while true
      invariant i <= |entries| && fs.Valid() && (old(fs.faulted) ==> fs.faulted)
      invariant Walking(t, fs.tree, p, q, entries, i, fs.faulted, param, param.value - start)
      decreases |entries| - i
    {
      ghost var u, before := fs.tree, fs.faulted;
      ghost var soFar: int := param.value;
      var res, dir := fs.Dread(entries, i);
      WalkFaults(t, u, p, q, entries, i, before, fs.faulted, param, soFar - start);
      before := fs.faulted;
      if res <= 0 {
        break;
      }
      i := i + 1;
      if IsDot(dir.name) {
        WalkSkipsDot(t, u, p, q, entries, i - 1, before, param, soFar - start);
        continue;
      }
      EntryDescribed(t, src, entries, i - 1);
      WalkKeepsEntry(t, u, p, q, entries, i - 1, before, param, soFar - start);
      ret := CopyEntry(fs, src, dst, dir, param);
      WalkGoesOn(t, u, fs.tree, p, q, entries, i - 1, ret, before, fs.faulted, param, soFar - start,
          param.value - soFar);
      if ret <= 0 {
        return;
      }
    }
    WalkEnds(t, fs.tree, p, q, entries, i, fs.faulted, param, param.value - start);
    return 1;
  }

  /** The recursive call for one entry of `src`. */
  method CopyEntry(fs: FileSystem, src: string, dst: string, dir: Dirent, param: Param) returns (ret: int)
    requires src != "" && dst != "" && fs.Valid() && IsName(dir.name)
    requires !(Components(src) <= Components(dst))
    requires Clear(fs.tree, Components(src) + [dir.name], Components(dst) + [dir.name])
    requires IsDir(fs.tree, Components(src) + [dir.name]) ==> dir.isDir
    modifies fs, param
    ensures fs.Valid() && (old(fs.faulted) ==> fs.faulted)
    ensures CopyOutcome(old(fs.tree), fs.tree, Components(src) + [dir.name], Components(dst) + [dir.name],
                        ret, fs.faulted, param, param.value - old(param.value))
    decreases Below(fs.tree, Components(src) + [dir.name]), 1
  {
    hide WellFormed, Components, Guard, CopyOutcome, Below, Child, Clear;
    EntryPassesGuard(src, dst, dir.name);
    var newSrc := Child(src, dir.name);
    var newDst := Child(dst, dir.name);
    if dir.isDir {
      ret := CopyPath(fs, newSrc, newDst, param);
    } else {
      ret := CopyLeaf(fs, newSrc, newDst, param);
    }
  }

  /** The entry the walk goes into is still what the stream said, and its subtree is smaller. */
  lemma WalkKeepsEntry(t: Tree, u: Tree, p: Path, q: Path, entries: seq<Dirent>, i: nat, faulted: bool,
                       param: Param, advance: int)
    requires Clear(t, p, q) && p in t && i < |entries|
    requires Walking(t, u, p, q, entries, i, faulted, param, advance)
    ensures var x := p + [entries[i].name];
            && (x in u <==> x in t) && (x in t ==> u[x] == t[x])
            && Below(u, x) < Below(t, p)
            && Clear(u, x, q + [entries[i].name])
  {
    TouchedSource(t, u, p, q, !faulted);
    BelowChildSmaller(u, p, entries[i].name);
    BelowChild(p, entries[i].name, p + [entries[i].name]);
    ClearEntry(t, u, p, q, entries[i].name);
  }
}
