/** What moving does to a tree, node by node: in every outcome, and on success. */
module MoveTrees {
  import opened Paths
  import opened FileTrees
  import opened FileSystems

  ghost predicate Same(t: Tree, u: Tree, x: Path) {
    (x in t <==> x in u) && (x in t ==> t[x] == u[x])
  }

  /** The fate of the source path `p` and its destination `q`. A source node is either still at `p`, as it was,
      or gone from `p` and at `q`; a destination node gives way only to a source node of its own kind, except that
      a device fault between removing a file and renaming over it leaves the source file at `p` alone.
      Without a source node, `p` stays empty and `q` as it was. */
  ghost predicate Settled(t: Tree, u: Tree, p: Path, q: Path, faulted: bool) {
    if p !in t then
      p !in u && Same(t, u, q)
    else if p in u then
      && u[p] == t[p]
      && (q in u ==> q in t && u[q] == t[q])
      && (q in t && q !in u ==> faulted && t[p].File? && t[q].File?)
    else
      && q in u && u[q] == t[p]
      && (q in t ==> t[q].Dir? == t[p].Dir?)
  }

  /** A path of the source whose destination lies outside the source. On incomparable paths that is all of them. */
  predicate Leaves(p: Path, src: Path, dst: Path) {
    src <= p && !(src <= Rebase(p, src, dst))
  }

  /** Nothing outside source and destination changes, every source node is settled, and what could only land
      in the source itself stays. */
  ghost predicate MoveSafe(t: Tree, u: Tree, src: Path, dst: Path, faulted: bool) {
    && (forall x :: !(src <= x) && !(dst <= x) ==> Same(t, u, x))
    && (forall p :: Leaves(p, src, dst) ==> Settled(t, u, p, Rebase(p, src, dst), faulted))
    && (forall p :: src <= p && !Leaves(p, src, dst) ==> Same(t, u, p))
  }

  lemma NothingMoved(t: Tree, src: Path, dst: Path, faulted: bool)
    ensures MoveSafe(t, t, src, dst, faulted)
  {
  }

  /** The destination side: every path of it outside the source is the destination of one that leaves. */
  lemma Arrives(x: Path, src: Path, dst: Path)
    requires dst <= x && !(src <= x)
    ensures Leaves(Rebase(x, dst, src), src, dst)
    ensures Rebase(Rebase(x, dst, src), src, dst) == x
  {
    RebaseBack(x, dst, src);
  }

  /** A safe outcome without a source is the exact move. */
  lemma SafeAndGone(t: Tree, u: Tree, src: Path, dst: Path, faulted: bool)
    requires WellFormed(u) && src in t && src != [] && src !in u && Clear(t, src, dst)
    requires MoveSafe(t, u, src, dst, faulted)
    ensures u == Moved(t, src, dst, Below(t, src))
  {
    hide MoveSafe, WellFormed;
    var s := Below(t, src);
    var m := Moved(t, src, dst, s);
    forall x: Path
      ensures x in u <==> x in m
      ensures x in u ==> u[x] == m[x]
    {
      SourceEmptied(u, src, x);
      if src <= x {
        if dst <= x {
          ClearSource(t, src, dst, x);
        }
      } else if dst <= x {
        var p := Rebase(x, dst, src);
        Arrives(x, src, dst);
        SourceEmptied(u, src, p);
        SafeAt(t, u, src, dst, p, faulted);
      } else {
        SafeAt(t, u, src, dst, x, faulted);
      }
    }
  }

  lemma SafeAt(t: Tree, u: Tree, src: Path, dst: Path, x: Path, faulted: bool)
    requires MoveSafe(t, u, src, dst, faulted)
    ensures !(src <= x) && !(dst <= x) ==> Same(t, u, x)
    ensures Leaves(x, src, dst) ==> Settled(t, u, x, Rebase(x, src, dst), faulted)
    ensures src <= x && !Leaves(x, src, dst) ==> Same(t, u, x)
  {
  }

  lemma SourceEmptied(u: Tree, src: Path, x: Path)
    requires WellFormed(u) && src != [] && src !in u
    ensures src <= x ==> x !in u
  {
    if src <= x && x in u {
      AncestorHolds(u, src, x);
    }
  }

  /** A rename to a free path is the exact move. */
  lemma RenamedIsSafe(t: Tree, src: Path, dst: Path, faulted: bool)
    requires WellFormed(t) && Renamable(t, src, dst)
    ensures MoveSafe(t, Moved(t, src, dst, Below(t, src)), src, dst, faulted)
    ensures src !in Moved(t, src, dst, Below(t, src))
    ensures Compatible(t, src, dst)
  {
    var s := Below(t, src);
    var u := Moved(t, src, dst, s);
    forall p | src <= p
      ensures Settled(t, u, p, Rebase(p, src, dst), faulted)
      ensures NoConflict(t, p, Rebase(p, src, dst))
      ensures p !in u && Leaves(p, src, dst)
    {
      var q := Rebase(p, src, dst);
      RebaseBack(p, src, dst);
      if dst <= p {
        CommonExtension(src, dst, p);
      }
      if src <= q {
        CommonExtension(src, dst, q);
      }
      if q in t {
        AncestorHolds(t, dst, q);
      }
    }
  }

  /** Between removing the file in the way and renaming over it, the source file is alone. */
  lemma FileMadeWay(t: Tree, src: Path, dst: Path)
    requires WellFormed(t) && Incomparable(src, dst) && IsFile(t, src) && IsFile(t, dst)
    ensures WellFormed(t - {dst}) && Renamable(t - {dst}, src, dst)
    ensures MoveSafe(t, t - {dst}, src, dst, true)
    ensures Below(t, src) == {src} == Below(t - {dst}, src)
  {
    FileIsLeaf(t, src);
    FileIsLeaf(t, dst);
    RemovingLeaf(t, dst);
    assert IsDir(t, dst[..|dst| - 1]) && IsName(dst[|dst| - 1]);
    FileIsLeaf(t - {dst}, src);
    forall p | src <= p
      ensures Settled(t, t - {dst}, p, Rebase(p, src, dst), true)
    {
      RebaseBack(p, src, dst);
      assert p != src ==> p !in Below(t, src);
      assert Rebase(src, src, dst) == dst;
    }
  }

  /** Two files cannot contain one another. */
  lemma FilesApart(t: Tree, p: Path, q: Path)
    requires WellFormed(t) && IsFile(t, p) && IsFile(t, q) && p != q
    ensures Incomparable(p, q)
  {
    FileIsLeaf(t, p);
    FileIsLeaf(t, q);
    assert p in Below(t, q) <==> q <= p;
    assert q in Below(t, p) <==> p <= q;
  }

  lemma ReplacedIsSafe(t: Tree, src: Path, dst: Path, faulted: bool)
    requires WellFormed(t) && Incomparable(src, dst) && IsFile(t, src) && IsFile(t, dst)
    ensures MoveSafe(t, Moved(t - {dst}, src, dst, Below(t - {dst}, src)), src, dst, faulted)
    ensures src !in Moved(t - {dst}, src, dst, Below(t - {dst}, src))
    ensures Compatible(t, src, dst)
  {
    hide WellFormed;
    FileMadeWay(t, src, dst);
    var w := t - {dst};
    RenamedIsSafe(w, src, dst, faulted);
    var u := Moved(w, src, dst, Below(w, src));
    assert Rebase(src, src, dst) == dst;
    forall x | !(src <= x) && !(dst <= x)
      ensures Same(t, u, x)
    {
      assert Same(w, u, x);
    }
    forall p | src <= p
      ensures Settled(t, u, p, Rebase(p, src, dst), faulted)
    {
      RebaseBack(p, src, dst);
      assert Settled(w, u, p, Rebase(p, src, dst), faulted);
      assert p != src ==> p !in Below(t, src);
    }
  }

  /** Source and destination directory, and the entries not in `names`, are as they were. */
  ghost predicate Untouched(t: Tree, u: Tree, src: Path, dst: Path, names: set<string>) {
    && (forall x :: src <= x && (x == src || x[|src|] !in names) ==> Same(t, u, x))
    && (forall x :: dst <= x && !(src <= x) && (x == dst || x[|dst|] !in names) ==> Same(t, u, x))
  }

  /** A merge of two directories that has dealt with the entries `names`. */
  ghost predicate Merging(t: Tree, u: Tree, src: Path, dst: Path, names: set<string>, faulted: bool) {
    MoveSafe(t, u, src, dst, faulted) && Untouched(t, u, src, dst, names)
  }

  /** A walk on one entry changes nothing but that entry in the source and its destination. */
  lemma MergeElsewhere(t: Tree, u: Tree, v: Tree, src: Path, dst: Path, names: set<string>, n: string, x: Path,
                       before: bool, after: bool)
    requires Clear(t, src, dst) && n !in names
    requires Merging(t, u, src, dst, names, before)
    requires MoveSafe(u, v, src + [n], dst + [n], after)
    requires !(src + [n] <= x) && (dst + [n] <= x ==> src <= x)
    ensures Same(u, v, x)
  {
    SafeAt(u, v, src + [n], dst + [n], x, after);
    if dst + [n] <= x {
      BelowChild(dst, n, x);
      ClearSource(t, src, dst, x);
      RebaseChild(x, dst, src, n);
      var p := Rebase(x, dst, src);
      Arrives(x, src + [n], dst + [n]);
      BelowChild(src, n, p);
      SafeAt(u, v, src + [n], dst + [n], p, after);
      assert Same(t, u, p);
    }
  }

  lemma MergeNext(t: Tree, u: Tree, v: Tree, src: Path, dst: Path, names: set<string>, n: string,
                  before: bool, after: bool)
    requires Clear(t, src, dst) && n !in names && (before ==> after)
    requires Merging(t, u, src, dst, names, before)
    requires MoveSafe(u, v, src + [n], dst + [n], after)
    ensures Merging(t, v, src, dst, names + {n}, after)
  {
    hide MoveSafe, Clear, Settled;
    forall x: Path
      ensures !(src <= x) && !(dst <= x) ==> Same(t, v, x)
      ensures src <= x && (x == src || x[|src|] !in names + {n}) ==> Same(t, v, x)
      ensures dst <= x && !(src <= x) && (x == dst || x[|dst|] !in names + {n}) ==> Same(t, v, x)
    {
      BelowChild(src, n, x);
      BelowChild(dst, n, x);
      SafeAt(t, u, src, dst, x, before);
      if !(src + [n] <= x) && (dst + [n] <= x ==> src <= x) {
        MergeElsewhere(t, u, v, src, dst, names, n, x, before, after);
      }
      var kept := Same(t, u, x);
    }
    forall p | src <= p
      ensures Leaves(p, src, dst) ==> Settled(t, v, p, Rebase(p, src, dst), after)
      ensures !Leaves(p, src, dst) ==> Same(t, v, p)
    {
      if Leaves(p, src, dst) {
        MergeSettles(t, u, v, src, dst, names, n, p, before, after);
      } else {
        MergeLeaves(t, u, v, src, dst, names, n, p, before, after);
      }
    }
    SafeEverywhere(t, v, src, dst, after);
  }

  lemma SafeEverywhere(t: Tree, u: Tree, src: Path, dst: Path, faulted: bool)
    requires forall x :: !(src <= x) && !(dst <= x) ==> Same(t, u, x)
    requires forall p :: Leaves(p, src, dst) ==> Settled(t, u, p, Rebase(p, src, dst), faulted)
    requires forall p :: src <= p && !Leaves(p, src, dst) ==> Same(t, u, p)
    ensures MoveSafe(t, u, src, dst, faulted)
  {
  }

  lemma MergeSettles(t: Tree, u: Tree, v: Tree, src: Path, dst: Path, names: set<string>, n: string, p: Path,
                     before: bool, after: bool)
    requires Clear(t, src, dst) && n !in names && (before ==> after)
    requires Merging(t, u, src, dst, names, before)
    requires MoveSafe(u, v, src + [n], dst + [n], after)
    requires Leaves(p, src, dst)
    ensures Settled(t, v, p, Rebase(p, src, dst), after)
  {
    hide MoveSafe, Clear;
    var q := Rebase(p, src, dst);
    RebaseBack(p, src, dst);
    SafeAt(t, u, src, dst, p, before);
    BelowChild(src, n, p);
    BelowChild(src, n, q);
    BelowChild(dst, n, q);
    if src + [n] <= p {
      RebaseChild(p, src, dst, n);
      SafeAt(u, v, src + [n], dst + [n], p, after);
      assert q[|dst|] == n;
      assert Same(t, u, p) && Same(t, u, q);
    } else {
      MergeElsewhere(t, u, v, src, dst, names, n, p, before, after);
      assert q == dst || q[|dst|] != n;
      MergeElsewhere(t, u, v, src, dst, names, n, q, before, after);
    }
  }

  /** What cannot leave the source is not there, and does not appear. */
  lemma MergeLeaves(t: Tree, u: Tree, v: Tree, src: Path, dst: Path, names: set<string>, n: string, p: Path,
                    before: bool, after: bool)
    requires Clear(t, src, dst) && n !in names
    requires Merging(t, u, src, dst, names, before)
    requires MoveSafe(u, v, src + [n], dst + [n], after)
    requires src <= p && !Leaves(p, src, dst)
    ensures Same(t, v, p)
  {
    hide MoveSafe;
    SafeAt(t, u, src, dst, p, before);
    assert p in Below(t, src) <==> p in t;
    if src + [n] <= p {
      SafeAt(u, v, src + [n], dst + [n], p, after);
    } else {
      MergeElsewhere(t, u, v, src, dst, names, n, p, before, after);
    }
  }

  /** Removing the emptied source directory completes the merge. */
  lemma MergeCompleted(t: Tree, u: Tree, src: Path, dst: Path, names: set<string>, faulted: bool)
    requires Clear(t, src, dst) && IsDir(t, src) && IsDir(t, dst)
    requires Merging(t, u, src, dst, names, faulted)
    ensures MoveSafe(t, u - {src}, src, dst, faulted)
  {
    var v := u - {src};
    assert Rebase(src, src, dst) == dst && src in Below(t, src);
    assert Leaves(src, src, dst);
    assert Same(t, u, dst);
    forall x | !(src <= x) && !(dst <= x)
      ensures Same(t, v, x)
    {
      assert Same(t, u, x);
    }
    forall p | src <= p && !Leaves(p, src, dst)
      ensures Same(t, v, p)
    {
      assert Same(t, u, p);
    }
    forall p | Leaves(p, src, dst)
      ensures Settled(t, v, p, Rebase(p, src, dst), faulted)
    {
      assert Settled(t, u, p, Rebase(p, src, dst), faulted);
      if p != src {
        assert Rebase(p, src, dst) != src;
      }
    }
  }

  lemma MergeFaults(t: Tree, u: Tree, src: Path, dst: Path, names: set<string>, before: bool, after: bool)
    requires Merging(t, u, src, dst, names, before) && (before ==> after)
    ensures Merging(t, u, src, dst, names, after)
  {
    forall p | Leaves(p, src, dst)
      ensures Settled(t, u, p, Rebase(p, src, dst), after)
    {
      assert Settled(t, u, p, Rebase(p, src, dst), before);
    }
  }
}
