/** s_movePath: rename where the destination is free, replace files, merge directories entry by entry. */
module MovePaths {
  import opened Paths
  import opened FileTrees
  import opened FileSystems
  import opened MoveTrees
  import opened CopyTrees
  import opened CopyPaths
  import opened RemovePaths

  const TYPE_CONFLICT := -3

  /** MOVE_INTEGRATE and MOVE_REPLACE. */
  datatype Flags = Flags(integrate: bool, replace: bool) {
    predicate Both() {
      integrate && replace
    }

    /** Directories are integrated, files replaced. */
    predicate Allow(n: Node) {
      if n.Dir? then integrate else replace
    }
  }

  /** What a call that passes the guard guarantees, whatever it returns. */
  ghost predicate MoveOutcome(t: Tree, u: Tree, p: Path, q: Path, ret: int, faulted: bool, flags: Flags) {
    // no source node is lost and no destination node without a counterpart changes
    && MoveSafe(t, u, p, q, faulted)
    // success is 1, and a conflict is reported only where a directory meets a file
    && (ret == 1 || ret < -2)
    && (ret == -3 ==> !Compatible(t, p, q))
    // with both flags and a well-behaved device: the move is complete if there is no conflict, and -3 if there is
    && (flags.Both() && !faulted && p in t && CanHold(t, q) ==>
          (ret > 0 ==> Compatible(t, p, q) && p !in u) && (ret <= 0 ==> ret == -3))
    // a missing source, or a destination without a directory to go into, passes for a success
    && (!(p in t && CanHold(t, q)) ==> ret > 0 && u == t)
    // without the flag for its kind, an existing destination keeps everything as it is
    && (p in t && q in t && !flags.Allow(t[p]) ==> u == t)
  }

  /** The merge loop after `i` entries of the stream. */
  ghost predicate MergeWalk(t: Tree, u: Tree, p: Path, q: Path, entries: seq<Dirent>, i: nat, faulted: bool,
                            flags: Flags)
    requires i <= |entries|
  {
    var names := EntryNames(entries[..i]);
    && Merging(t, u, p, q, names, faulted)
    && (flags.Both() && !faulted ==> EntriesMoved(t, u, p, q, names))
  }

  ghost predicate EntriesMoved(t: Tree, u: Tree, p: Path, q: Path, names: set<string>) {
    && (forall n :: n in names ==> p + [n] !in u)
    && (forall x :: x in BelowNames(t, p, names) ==> NoConflict(t, x, Rebase(x, p, q)))
  }

  lemma MergeStarts(t: Tree, p: Path, q: Path, entries: seq<Dirent>, faulted: bool, flags: Flags)
    ensures MergeWalk(t, t, p, q, entries, 0, faulted, flags)
  {
    assert EntryNames(entries[..0]) == {};
    NothingMoved(t, p, q, faulted);
  }

  lemma MergeWalkFaults(t: Tree, u: Tree, p: Path, q: Path, entries: seq<Dirent>, i: nat, before: bool,
                        after: bool, flags: Flags)
    requires i <= |entries| && MergeWalk(t, u, p, q, entries, i, before, flags) && (before ==> after)
    ensures MergeWalk(t, u, p, q, entries, i, after, flags)
  {
    hide MoveSafe, Untouched, EntriesMoved;
    MergeFaults(t, u, p, q, EntryNames(entries[..i]), before, after);
  }

  lemma MergeSkipsDot(t: Tree, u: Tree, p: Path, q: Path, entries: seq<Dirent>, i: nat, faulted: bool, flags: Flags)
    requires i < |entries| && IsDot(entries[i].name)
    requires MergeWalk(t, u, p, q, entries, i, faulted, flags)
    ensures MergeWalk(t, u, p, q, entries, i + 1, faulted, flags)
  {
    EntryNamesNext(entries, i);
    assert EntryNames(entries[..i + 1]) == EntryNames(entries[..i]);
  }

  /** An entry still to come is as the stream said, on both sides. */
  lemma EntryAsRead(t: Tree, u: Tree, p: Path, q: Path, names: set<string>, n: string, faulted: bool)
    requires Merging(t, u, p, q, names, faulted) && n !in names
    requires WellFormed(t) && Clear(t, p, q) && p in t && IsDir(t, q) && p + [n] in t && IsName(n)
    ensures p + [n] in u && CanHold(u, q + [n])
    ensures forall x :: p + [n] <= x ==> p <= x && Same(t, u, x)
    ensures forall x :: q + [n] <= x && !(p <= x) ==> Same(t, u, x)
    ensures Below(u, p + [n]) < Below(t, p)
    ensures Clear(u, p + [n], q + [n])
  {
    hide MoveSafe;
    assert IsName((p + [n])[|p|]);
    ClearRoot(t, p, q);
    forall x | p + [n] <= x
      ensures p <= x && Same(t, u, x)
    {
      BelowChild(p, n, x);
    }
    forall x | q + [n] <= x && !(p <= x)
      ensures Same(t, u, x)
    {
      BelowChild(q, n, x);
    }
    assert Same(t, u, p + [n]);
    assert Same(t, u, q);
    assert (q + [n])[..|q|] == q && q != [];
    forall x | x in Below(u, p + [n])
      ensures x in Below(t, p + [n])
    {
      assert Same(t, u, x);
    }
    BelowChildSmaller(t, p, n);
    ClearEntry(t, u, p, q, n);
  }

  lemma ConflictBelow(t: Tree, u: Tree, p: Path, q: Path, n: string)
    requires Clear(t, p, q)
    requires forall x :: p + [n] <= x ==> p <= x && Same(t, u, x)
    requires forall x :: q + [n] <= x && !(p <= x) ==> Same(t, u, x)
    ensures Compatible(t, p, q) ==> Compatible(u, p + [n], q + [n])
    ensures Compatible(u, p + [n], q + [n]) ==>
              forall x :: x in Below(t, p + [n]) ==> NoConflict(t, x, Rebase(x, p, q))
  {
    hide Compatible, Clear;
    forall x | p + [n] <= x
      ensures p <= x
      ensures NoConflict(t, x, Rebase(x, p, q)) <==> NoConflict(u, x, Rebase(x, p + [n], q + [n]))
    {
      ConflictAlike(t, u, p, q, n, x);
    }
    CompatibleBelow(t, u, p, q, n);
  }

  lemma ConflictAlike(t: Tree, u: Tree, p: Path, q: Path, n: string, x: Path)
    requires Clear(t, p, q) && p + [n] <= x
    requires forall x :: p + [n] <= x ==> p <= x && Same(t, u, x)
    requires forall x :: q + [n] <= x && !(p <= x) ==> Same(t, u, x)
    ensures p <= x
    ensures NoConflict(t, x, Rebase(x, p, q)) <==> NoConflict(u, x, Rebase(x, p + [n], q + [n]))
  {
    RebaseChild(x, p, q, n);
    RebaseBack(x, p + [n], q + [n]);
    assert Same(t, u, x);
    if x in t {
      assert x in Below(t, p);
      assert Same(t, u, Rebase(x, p, q));
    }
  }

  lemma CompatibleBelow(t: Tree, u: Tree, p: Path, q: Path, n: string)
    requires forall x :: p + [n] <= x ==> p <= x && Same(t, u, x)
    requires forall x :: p + [n] <= x ==>
               (NoConflict(t, x, Rebase(x, p, q)) <==> NoConflict(u, x, Rebase(x, p + [n], q + [n])))
    ensures Compatible(t, p, q) ==> Compatible(u, p + [n], q + [n])
    ensures Compatible(u, p + [n], q + [n]) ==>
              forall x :: x in Below(t, p + [n]) ==> NoConflict(t, x, Rebase(x, p, q))
  {
    if Compatible(t, p, q) {
      forall x | x in Below(u, p + [n])
        ensures NoConflict(u, x, Rebase(x, p + [n], q + [n]))
      {
        assert Same(t, u, x);
        assert x in Below(t, p);
      }
    }
    if Compatible(u, p + [n], q + [n]) {
      forall x | x in Below(t, p + [n])
        ensures NoConflict(t, x, Rebase(x, p, q))
      {
        assert Same(t, u, x);
        assert x in Below(u, p + [n]);
      }
    }
  }

  lemma MergeGoesOn(t: Tree, u: Tree, v: Tree, p: Path, q: Path, entries: seq<Dirent>, i: nat,
                    ret: int, before: bool, after: bool, flags: Flags)
    requires WellFormed(t) && Clear(t, p, q) && IsDir(t, p) && IsDir(t, q)
    requires i < |entries| && !IsDot(entries[i].name) && IsName(entries[i].name)
    requires p + [entries[i].name] in t && entries[i].name !in EntryNames(entries[..i])
    requires MergeWalk(t, u, p, q, entries, i, before, flags) && (before ==> after)
    requires flags.integrate
    requires MoveOutcome(u, v, p + [entries[i].name], q + [entries[i].name], ret, after, flags)
    ensures ret > 0 ==> MergeWalk(t, v, p, q, entries, i + 1, after, flags)
    ensures ret <= 0 ==> MoveOutcome(t, v, p, q, ret, after, flags)
  {
    hide MoveSafe, Merging, Compatible, EntriesMoved, WellFormed, Clear;
    var n, names := entries[i].name, EntryNames(entries[..i]);
    EntryAsRead(t, u, p, q, names, n, before);
    ConflictBelow(t, u, p, q, n);
    MergeNext(t, u, v, p, q, names, n, before, after);
    EntryNamesNext(entries, i);
    MergingIsSafe(t, v, p, q, names + {n}, after);
    if flags.Both() && !after && ret > 0 {
      EntriesMovedNext(t, u, v, p, q, names, n, before, after);
    }
  }

  lemma MergingIsSafe(t: Tree, u: Tree, p: Path, q: Path, names: set<string>, faulted: bool)
    requires Merging(t, u, p, q, names, faulted)
    ensures MoveSafe(t, u, p, q, faulted)
  {
  }

  lemma EntriesMovedNext(t: Tree, u: Tree, v: Tree, p: Path, q: Path, names: set<string>, n: string,
                         before: bool, after: bool)
    requires Clear(t, p, q) && n !in names && Merging(t, u, p, q, names, before)
    requires EntriesMoved(t, u, p, q, names)
    requires MoveSafe(u, v, p + [n], q + [n], after) && p + [n] !in v
    requires forall x :: x in Below(t, p + [n]) ==> p <= x && NoConflict(t, x, Rebase(x, p, q))
    ensures EntriesMoved(t, v, p, q, names + {n})
  {
    hide MoveSafe, Merging, Clear;
    BelowNamesGrow(t, p, names, n);
    forall m | m in names + {n}
      ensures p + [m] !in v
    {
      if m != n {
        assert (p + [m])[|p|] == m;
        MergeElsewhere(t, u, v, p, q, names, n, p + [m], before, after);
      }
    }
  }

  /** The last step: the source directory goes, if it is empty and the device lets it. */
  lemma MergeEnds(t: Tree, u: Tree, p: Path, q: Path, entries: seq<Dirent>, i: nat, before: bool, removed: bool,
                  faulted: bool, flags: Flags)
    requires WellFormed(t) && WellFormed(u) && Clear(t, p, q) && IsDir(t, p) && IsDir(t, q)
    requires Snapshot(entries, t, p) && i <= |entries| && (before || i == |entries|) && (before ==> faulted)
    requires MergeWalk(t, u, p, q, entries, i, before, flags)
    requires flags.integrate && (!removed ==> faulted || !IsDir(u, p) || Below(u, p) != {p})
    ensures MoveOutcome(t, if removed then u - {p} else u, p, q, 1, faulted, flags)
  {
    hide MoveSafe, WellFormed;
    MergeWalkFaults(t, u, p, q, entries, i, before, faulted, flags);
    var names := EntryNames(entries[..i]);
    MergeCompleted(t, u, p, q, names, faulted);
    assert Same(t, u, p);
    if flags.Both() && !faulted {
      assert entries[..i] == entries;
      BelowIsRootAndChildren(t, p);
      BelowIsRootAndChildren(u, p);
      assert Rebase(p, p, q) == q;
      assert ChildNames(u, p) == {} by {
        forall n
          ensures n !in ChildNames(u, p)
        {
          ChildNamesHold(u, p, n);
          ChildNamesHold(t, p, n);
          if n !in names {
            assert (p + [n])[|p|] == n;
            assert Same(t, u, p + [n]);
          }
        }
      }
      assert Below(u, p) == {p};
    }
  }

  lemma SafeStart(t: Tree, p: Path, q: Path, ret: int, faulted: bool, flags: Flags)
    requires ret == 1 || ret < -2
    requires ret == TYPE_CONFLICT ==> p in t && q in t && t[p].Dir? != t[q].Dir?
    requires flags.Both() && !faulted && p in t && CanHold(t, q) ==> ret == TYPE_CONFLICT
    requires !(p in t && (q in t || CanHold(t, q))) ==> ret > 0
    ensures MoveOutcome(t, t, p, q, ret, faulted, flags)
  {
    NothingMoved(t, p, q, faulted);
    assert Rebase(p, p, q) == q;
    assert p in t ==> p in Below(t, p);
  }

  method MergeDirectory(fs: FileSystem, src: string, dst: string, flags: Flags) returns (ret: int)
    requires src != "" && dst != "" && fs.Valid()
    requires Clear(fs.tree, Components(src), Components(dst))
    requires flags.integrate && IsDir(fs.tree, Components(src)) && IsDir(fs.tree, Components(dst))
    modifies fs
    ensures fs.Valid() && (old(fs.faulted) ==> fs.faulted)
    ensures MoveOutcome(old(fs.tree), fs.tree, Components(src), Components(dst), ret, fs.faulted, flags)
    decreases Below(fs.tree, Components(src)), 0
  {
    hide WellFormed, Components, Guard, Below, Snapshot, EntryNames, CanHold, Child, Compatible, MoveOutcome, MergeWalk;
    hide Clear;
    ghost var t, p, q := fs.tree, Components(src), Components(dst);
    ClearRoot(t, p, q);
    var dfd, entries := fs.Dopen(src);
    if dfd < 0 {
      SafeStart(t, p, q, dfd, fs.faulted, flags);
      return dfd;
    }
    var i := 0;
    MergeStarts(t, p, q, entries, fs.faulted, flags);
    while true
      invariant i <= |entries| && fs.Valid() && (old(fs.faulted) ==> fs.faulted)
      invariant MergeWalk(t, fs.tree, p, q, entries, i, fs.faulted, flags)
      decreases |entries| - i
    {
      ghost var u, before := fs.tree, fs.faulted;
      var res, dir := fs.Dread(entries, i);
      MergeWalkFaults(t, u, p, q, entries, i, before, fs.faulted, flags);
      before := fs.faulted;
      if res <= 0 {
        break;
      }
      i := i + 1;
      if IsDot(dir.name) {
        MergeSkipsDot(t, u, p, q, entries, i - 1, before, flags);
        continue;
      }
      EntryDescribed(t, src, entries, i - 1);
      EntryPassesGuard(src, dst, dir.name);
      WalkReachesEntry(t, u, p, q, entries, i - 1, before, flags);
      ret := MovePath(fs, Child(src, dir.name), Child(dst, dir.name), flags);
      MergeGoesOn(t, u, fs.tree, p, q, entries, i - 1, ret, before, fs.faulted, flags);
      if ret <= 0 {
        return;
      }
    }
    ghost var u, before := fs.tree, fs.faulted;
    var res := fs.Rmdir(src);
    MergeEnds(t, u, p, q, entries, i, before, res >= 0, fs.faulted, flags);
    return 1;
  }

  lemma WalkReachesEntry(t: Tree, u: Tree, p: Path, q: Path, entries: seq<Dirent>, i: nat, faulted: bool, flags: Flags)
    requires i < |entries| && MergeWalk(t, u, p, q, entries, i, faulted, flags)
    requires entries[i].name !in EntryNames(entries[..i]) && IsName(entries[i].name) && p + [entries[i].name] in t
    requires WellFormed(t) && Clear(t, p, q) && p in t && IsDir(t, q)
    ensures Below(u, p + [entries[i].name]) < Below(t, p)
    ensures Clear(u, p + [entries[i].name], q + [entries[i].name])
  {
    hide WellFormed, MoveSafe, Untouched;
    EntryAsRead(t, u, p, q, EntryNames(entries[..i]), entries[i].name, faulted);
  }

  method ReplaceFile(fs: FileSystem, src: string, dst: string, flags: Flags) returns (ret: int)
    requires fs.Valid() && Incomparable(Components(src), Components(dst))
    requires flags.replace && IsFile(fs.tree, Components(src)) && IsFile(fs.tree, Components(dst))
    modifies fs
    ensures fs.Valid() && (old(fs.faulted) ==> fs.faulted)
    ensures MoveOutcome(old(fs.tree), fs.tree, Components(src), Components(dst), ret, fs.faulted, flags)
  {
    hide WellFormed, Components, Below, Moved, MoveSafe, Compatible, Incomparable, Renamable;
    ghost var t, p, q := fs.tree, Components(src), Components(dst);
    NothingMoved(t, p, q, true);
    FileMadeWay(t, p, q);
    var removed := fs.Remove(dst);
    var res := fs.Rename(src, dst);
    if res < 0 {
      return res;
    }
    ReplacedIsSafe(t, p, q, fs.faulted);
    return 1;
  }

  /** Moves what `src` denotes to `dst`. */
  method MovePath(fs: FileSystem, src: string, dst: string, flags: Flags) returns (ret: int)
    requires src != "" && dst != "" && fs.Valid()
    requires Guard(src, dst) != 0 || Clear(fs.tree, Components(src), Components(dst))
    modifies fs
    ensures fs.Valid() && (old(fs.faulted) ==> fs.faulted)
    ensures Guard(src, dst) != 0 ==> ret == Guard(src, dst) && fs.tree == old(fs.tree)
    ensures Guard(src, dst) == 0 ==>
              MoveOutcome(old(fs.tree), fs.tree, Components(src), Components(dst), ret, fs.faulted, flags)
    decreases Below(fs.tree, Components(src)), 1
  {
    hide WellFormed, Components, Guard, Below, CanHold, Moved, MoveSafe, Compatible, Incomparable, MoveOutcome, Clear;
    ret := Guard(src, dst);
    if ret != 0 {
      return;
    }
    ghost var t, p, q := fs.tree, Components(src), Components(dst);
    var res := fs.Rename(src, dst);
    ghost var renamed := res >= 0;
    if res == EEXIST && (flags.integrate || flags.replace) {
      var srcIsDir, dstIsDir, size;
      res, srcIsDir, size := fs.Getstat(src);
      if res < 0 {
        SafeStart(t, p, q, res, fs.faulted, flags);
        return res;
      }
      res, dstIsDir, size := fs.Getstat(dst);
      if res < 0 {
        SafeStart(t, p, q, res, fs.faulted, flags);
        return res;
      }
      if srcIsDir != dstIsDir {
        SafeStart(t, p, q, TYPE_CONFLICT, fs.faulted, flags);
        return TYPE_CONFLICT;
      }
      ClearRoot(t, p, q);
      if !srcIsDir && !dstIsDir && flags.replace {
        FilesApart(t, p, q);
        ret := ReplaceFile(fs, src, dst, flags);
        return;
      }
      if srcIsDir && dstIsDir && flags.integrate {
        ret := MergeDirectory(fs, src, dst, flags);
        return;
      }
    }
    if renamed {
      RenameOutcome(t, p, q, fs.faulted, flags);
    } else {
      FreeIsRenamable(t, p, q);
      SafeStart(t, p, q, 1, fs.faulted, flags);
    }
    return 1;
  }

  /** Only an existing destination keeps a clear move from being a rename. */
  lemma FreeIsRenamable(t: Tree, p: Path, q: Path)
    requires WellFormed(t) && Clear(t, p, q)
    ensures p in t && CanHold(t, q) && q !in t ==> Renamable(t, p, q)
  {
    if p in t && CanHold(t, q) && q !in t {
      ClearRoot(t, p, q);
      NodesHaveNames(t, q[..|q| - 1]);
      if q <= p {
        AncestorHolds(t, q, p);
      }
    }
  }

  lemma RenameOutcome(t: Tree, p: Path, q: Path, faulted: bool, flags: Flags)
    requires WellFormed(t) && Renamable(t, p, q)
    ensures MoveOutcome(t, Moved(t, p, q, Below(t, p)), p, q, 1, faulted, flags)
  {
    RenamedIsSafe(t, p, q, faulted);
  }

  /** In every outcome each source file is whole at exactly one of its two places, and each destination
      node without a source counterpart is as it was. */
  lemma MoveLosesNothing(t: Tree, u: Tree, p: Path, q: Path, ret: int, faulted: bool, flags: Flags)
    requires MoveOutcome(t, u, p, q, ret, faulted, flags) && Clear(t, p, q)
    ensures forall x :: p <= x && IsFile(t, x) ==>
              if x in u then u[x] == t[x] && (Rebase(x, p, q) in u ==> Same(t, u, Rebase(x, p, q)))
              else Rebase(x, p, q) in u && u[Rebase(x, p, q)] == t[x]
    ensures forall y :: q <= y && !(p <= y) && Rebase(y, q, p) !in t ==> Same(t, u, y)
    ensures forall x :: !(p <= x) && !(q <= x) ==> Same(t, u, x)
  {
    forall x | p <= x && IsFile(t, x)
      ensures if x in u then u[x] == t[x] && (Rebase(x, p, q) in u ==> Same(t, u, Rebase(x, p, q)))
              else Rebase(x, p, q) in u && u[Rebase(x, p, q)] == t[x]
    {
      assert x in Below(t, p) && Leaves(x, p, q);
      assert Settled(t, u, x, Rebase(x, p, q), faulted);
    }
    forall y | q <= y && !(p <= y) && Rebase(y, q, p) !in t
      ensures Same(t, u, y)
    {
      Arrives(y, p, q);
      assert Settled(t, u, Rebase(y, q, p), Rebase(Rebase(y, q, p), p, q), faulted);
    }
  }

  /** A successful move leaves what a successful copy followed by a successful removal leaves:
      the merge of both trees with source nodes winning, and no source. */
  lemma MoveRefinesCopyThenRemove(t: Tree, moved: Tree, copied: Tree, p: Path, q: Path,
                                  moveRet: int, copyRet: int, flags: Flags, param: Param, advance: int)
    requires WellFormed(t) && WellFormed(moved) && Clear(t, p, q)
    requires p in t && CanHold(t, q) && flags.Both()
    requires MoveOutcome(t, moved, p, q, moveRet, false, flags) && moveRet > 0
    requires CopyOutcome(t, copied, p, q, copyRet, false, param, advance) && copyRet > 0
    ensures moved == Pruned(copied, p)
    ensures moved == Pruned(Grafted(t, p, q), p)
  {
    hide MoveSafe, Touched, Copyable, WellFormed, Compatible, Copied, Moved, Pruned, Grafted, Clear;
    NodesHaveNames(t, p);
    SafeAndGone(t, moved, p, q, false);
    MoveIsCopyThenRemove(t, p, q);
  }
}
