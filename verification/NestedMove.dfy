/** Moving a directory into one that contains it: what is lost when the move is not clear. */
module NestedMoves {
  import opened Paths
  import opened FileTrees
  import opened FileSystems
  import opened MoveTrees
  import opened MovePaths

  const BOTH := Flags(true, true)

  /** A source directory `q + [c]` moved into its parent `q`, whose own entry `c` is walked first: that entry's
      nodes land in the source, over nodes that have not been moved yet. */
  lemma SourceOverwritten(t: Tree, u: Tree, q: Path, c: string, n: string, ret: int)
    requires WellFormed(t) && WellFormed(u) && n != c
    requires IsFile(t, q + [c, c, n]) && q + [c, n] in t && q + [c, c, c] !in t
    requires MoveOutcome(t, u, q + [c, c], q + [c], ret, false, BOTH) && ret > 0
    ensures q + [c, n] in u && u[q + [c, n]] == t[q + [c, c, n]]
    ensures Same(t, u, q + [n])
  {
    hide WellFormed, MoveSafe, Compatible, Settled;
    var src, dst, x := q + [c, c], q + [c], q + [c, c, n];
    assert x == src + [n] && x[|src|..] == [n] && dst + [n] == q + [c, n];
    AncestorHolds(t, src, x);
    assert src == x[..|src|];
    assert dst == src[..|dst|] && src[|dst|..] == [c] && src + [c] == q + [c, c, c];
    assert dst <= src;
    ClearExactly(t, src, dst);
    AncestorHolds(t, dst, src);
    assert Rebase(x, src, dst) == q + [c, n];
    assert x in Below(t, src);
    SafeAt(t, u, src, dst, x, false);
    SafeAt(t, u, src, dst, q + [n], false);
    GoneBelow(u, src, x);
    SettledMoved(t, u, x, q + [c, n]);
    assert (q + [n])[|q|] == n && src[|q|] == c && dst[|q|] == c;
  }

  lemma GoneBelow(u: Tree, src: Path, x: Path)
    requires WellFormed(u) && src !in u && src <= x && src != []
    ensures x !in u
  {
    SourceEmptied(u, src, x);
  }

  lemma SettledMoved(t: Tree, u: Tree, p: Path, q: Path)
    requires Settled(t, u, p, q, false) && p in t && p !in u
    ensures q in u && u[q] == t[p]
  {
  }

  // ---- one whole run ----

  /** The source `q + [c]` holds a file `n` and a directory `c` with a file of that name again, and nothing else;
      `q` itself holds no `n`. */
  ghost predicate TwoFilesOneName(t: Tree, q: Path, c: string, n: string) {
    && WellFormed(t) && n != c
    && Below(t, q + [c]) == {q + [c], q + [c, n], q + [c, c], q + [c, c, n]}
    && IsFile(t, q + [c, n]) && IsDir(t, q + [c, c]) && IsFile(t, q + [c, c, n])
    && q + [n] !in t
  }

  /** Moving one file to another path. */
  lemma MovedFile(t: Tree, src: Path, dst: Path)
    requires WellFormed(t) && IsFile(t, src) && src != dst
    ensures Moved(t, src, dst, Below(t, src)) == (t - {src})[dst := t[src]]
  {
    FileIsLeaf(t, src);
    assert Rebase(src, src, dst) == dst && Rebase(dst, dst, src) == src;
    forall x | HasSource(x, src, dst, {src})
      ensures x == dst
    {
      RebaseBack(x, dst, src);
    }
  }

  /** Moving a directory that holds one file onto one that holds a file of the same name. */
  lemma MovedPair(t: Tree, src: Path, dst: Path, n: string)
    requires Below(t, src) == {src, src + [n]} && IsDir(t, src) && IsDir(t, dst)
    requires src != dst && src + [n] != dst && src != dst + [n] && src + [n] != dst + [n]
    ensures Moved(t, src, dst, Below(t, src)) == (t - {src, src + [n]})[dst + [n] := t[src + [n]]]
  {
    var s := {src, src + [n]};
    assert Rebase(src, src, dst) == dst && Rebase(dst, dst, src) == src;
    assert (src + [n])[|src|..] == [n] && Rebase(src + [n], src, dst) == dst + [n];
    assert (dst + [n])[|dst|..] == [n] && Rebase(dst + [n], dst, src) == src + [n];
    forall x | HasSource(x, src, dst, s)
      ensures x == dst || x == dst + [n]
    {
      RebaseBack(x, dst, src);
    }
  }

  lemma PathsDiffer(q: Path, c: string, n: string)
    requires n != c
    ensures (q + [c, n])[|q| + 1] == n && (q + [c, c])[|q| + 1] == c && (q + [n])[|q|] == n && (q + [c])[|q|] == c
    ensures (q + [c, c, n])[|q| + 1] == c && (q + [c, c, n])[|q| + 2] == n && (q + [c, c, c])[|q| + 2] == c
    ensures (q + [c, c, n])[|q|] == c && (q + [c, n])[|q|] == c
    ensures q + [c] + [c] == q + [c, c] && q + [c] + [n] == q + [c, n]
    ensures q + [c, c] + [n] == q + [c, c, n] && q + [c, c] + [c] == q + [c, c, c]
    ensures q < q + [c] < q + [c, c] < q + [c, c, n] && q + [c] < q + [c, n]
    ensures (q + [c, c])[|q + [c]|..] == [c] && (q + [c])[|q|..] == [c]
  {
  }

  lemma TwoFilesBelow(t: Tree, q: Path, c: string, n: string)
    requires TwoFilesOneName(t, q, c, n)
    ensures Below(t, q + [c, c]) == {q + [c, c], q + [c, c, n]}
    ensures q + [c, c, c] !in t && IsDir(t, q + [c]) && (q != [] ==> IsDir(t, q)) && IsName(n)
  {
    hide WellFormed;
    PathsDiffer(q, c, n);
    forall x | x in Below(t, q + [c, c])
      ensures x in Below(t, q + [c])
    {
      assert q + [c] == (q + [c, c])[..|q| + 1] == x[..|q| + 1];
    }
    assert q + [c, c, c] in t ==> q + [c, c, c] in Below(t, q + [c]);
    AncestorHolds(t, q + [c], q + [c, n]);
    FileNamed(t, q + [c], n);
    AboveFile(t, q, c);
  }

  lemma FileNamed(t: Tree, p: Path, n: string)
    requires WellFormed(t) && p + [n] in t
    ensures IsName(n)
  {
    assert (p + [n])[|p|] == n;
  }

  lemma AboveFile(t: Tree, q: Path, c: string)
    requires WellFormed(t) && q + [c] in t
    ensures q != [] ==> IsDir(t, q)
  {
    if q != [] {
      AncestorHolds(t, q, q + [c]);
    }
  }

  /** The call on entry `c`, on a device that behaves, has one outcome. */
  lemma FirstEntry(t: Tree, u: Tree, q: Path, c: string, n: string, ret: int)
    requires TwoFilesOneName(t, q, c, n)
    requires WellFormed(u) && MoveOutcome(t, u, q + [c, c], q + [c], ret, false, BOTH)
    ensures ret > 0 && u == (t - {q + [c, c], q + [c, c, n]})[q + [c, n] := t[q + [c, c, n]]]
  {
    hide WellFormed, MoveSafe;
    PathsDiffer(q, c, n);
    TwoFilesBelow(t, q, c, n);
    var src, dst := q + [c, c], q + [c];
    assert Rebase(src, src, dst) == dst;
    assert (src + [n])[|src|..] == [n] && Rebase(src + [n], src, dst) == dst + [n];
    assert Compatible(t, src, dst);
    ClearExactly(t, src, dst);
    SafeAndGone(t, u, src, dst, false);
    MovedPair(t, src, dst, n);
  }

  /** The call on entry `n` renames. */
  lemma SecondEntry(u: Tree, v: Tree, q: Path, c: string, n: string, ret: int)
    requires WellFormed(u) && q != [] && n != c && IsName(n)
    requires IsDir(u, q) && IsFile(u, q + [c, n]) && q + [n] !in u
    requires WellFormed(v) && MoveOutcome(u, v, q + [c, n], q + [n], ret, false, BOTH)
    ensures ret > 0 && v == (u - {q + [c, n]})[q + [n] := u[q + [c, n]]]
  {
    hide WellFormed, MoveSafe;
    PathsDiffer(q, c, n);
    var src, dst := q + [c, n], q + [n];
    FileIsLeaf(u, src);
    assert Rebase(src, src, dst) == dst;
    assert dst[..|dst| - 1] == q;
    assert Compatible(u, src, dst);
    ClearExactly(u, src, dst);
    NodesHaveNames(u, src);
    SafeAndGone(u, v, src, dst, false);
    MovedFile(u, src, dst);
  }

  /** Moving `q + [c]` into its parent passes the guard. When the device yields entry `c` before `n`, both calls
      and the removal of the source directory succeed without a fault; what is left is `q` with the inner file
      under the name `n`, and the bytes of the outer one are nowhere. */
  lemma MoveIntoParentLosesBytes(t: Tree, u: Tree, v: Tree, q: Path, c: string, n: string, first: int, second: int)
    requires TwoFilesOneName(t, q, c, n) && q != []
    requires WellFormed(u) && MoveOutcome(t, u, q + [c, c], q + [c], first, false, BOTH)
    requires WellFormed(v) && MoveOutcome(u, v, q + [c, n], q + [n], second, false, BOTH)
    ensures first > 0 && second > 0 && Below(v, q + [c]) == {q + [c]}
    ensures v - {q + [c]} == Pruned(t, q + [c])[q + [n] := t[q + [c, c, n]]]
  {
    hide WellFormed, MoveOutcome;
    PathsDiffer(q, c, n);
    TwoFilesBelow(t, q, c, n);
    FirstEntry(t, u, q, c, n, first);
    SecondEntry(u, v, q, c, n, second);
    forall x: Path
      ensures x in v && q + [c] <= x <==> x == q + [c]
    {
      assert x in Below(t, q + [c]) <==> x in t && q + [c] <= x;
    }
  }

  /** The guard lets any such move pass, and it is not clear. */
  lemma MoveIntoParentPasses(t: Tree, src: string, dst: string, q: Path, c: string, n: string)
    requires src != "" && Components(src) == q + [c] && Components(dst) == q && TwoFilesOneName(t, q, c, n)
    ensures Guard(src, dst) == 0
    ensures !Clear(t, Components(src), Components(dst))
  {
    hide Components, Guard, WellFormed;
    if Guard(src, dst) != 0 {
      GuardSound(src, dst);
    }
    PathsDiffer(q, c, n);
    assert q + [c] in Below(t, q + [c]);
    ClearExactly(t, q + [c], q);
  }

  /** Any directory can come to that: `c` with a file `n`, and within it `c` with another file `n`. */
  function Populated(t: Tree, q: Path, c: string, n: string, outer: Node, inner: Node): Tree {
    t[q + [c] := Dir][q + [c, n] := outer][q + [c, c] := Dir][q + [c, c, n] := inner]
  }

  lemma Grown(t: Tree, p: Path, n: string, node: Node)
    requires WellFormed(t) && IsDir(t, p) && IsName(n) && !IsDir(t, p + [n])
    ensures WellFormed(t[p + [n] := node]) && IsDir(t[p + [n] := node], p)
  {
    assert (p + [n])[..|p|] == p && p != p + [n];
    NodesHaveNames(t, p);
    AddingLeaf(t, p + [n], node);
  }

  lemma PopulatedHolds(t: Tree, q: Path, c: string, n: string, outer: Node, inner: Node)
    requires WellFormed(t) && IsDir(t, q) && IsName(c) && IsName(n) && n != c
    requires q + [c] !in t && q + [n] !in t && outer.File? && inner.File?
    ensures TwoFilesOneName(Populated(t, q, c, n, outer, inner), q, c, n)
  {
    hide WellFormed;
    PathsDiffer(q, c, n);
    NodesHaveNames(t, q);
    forall x | x in t
      ensures !(q + [c] <= x)
    {
      if q + [c] <= x {
        AncestorHolds(t, q + [c], x);
      }
    }
    Grown(t, q, c, Dir);
    var t1 := t[q + [c] := Dir];
    Grown(t1, q + [c], n, outer);
    var t2 := t1[q + [c, n] := outer];
    Grown(t2, q + [c], c, Dir);
    var t3 := t2[q + [c, c] := Dir];
    Grown(t3, q + [c, c], n, inner);
  }
}
