/** Directory trees as values: what the recursive operations of psp2shell_m/source/file.c do to them. */
module FileTrees {
  import opened Basics
  import opened Paths

  datatype Node = Dir | File(bytes: seq<Byte>)

  type Tree = map<Path, Node>

  predicate IsDir(t: Tree, p: Path) {
    p in t && t[p].Dir?
  }

  predicate IsFile(t: Tree, p: Path) {
    p in t && t[p].File?
  }

  /** Every node hangs below directories, under names a directory can hold; mount points are directories. */
  ghost predicate WellFormed(t: Tree) {
    forall p :: p in t ==>
      && p != [] && (|p| == 1 ==> t[p].Dir?)
      && (forall k :: 0 < k < |p| ==> IsDir(t, p[..k]))
      && (forall k :: 0 <= k < |p| ==> IsName(p[k]))
  }

  /** Whether `q` exists or could be created. */
  predicate CanHold(t: Tree, q: Path) {
    q in t || (|q| > 1 && IsDir(t, q[..|q| - 1]) && IsName(q[|q| - 1]))
  }

  function Below(t: Tree, p: Path): set<Path> {
    set x | x in t && p <= x
  }

  /** The paths strictly below `p` through one of the entries `names`. */
  ghost function BelowNames(t: Tree, p: Path, names: set<string>): set<Path> {
    set x | x in t && p <= x && |p| < |x| && x[|p|] in names
  }

  function ChildNames(t: Tree, p: Path): set<string> {
    set x | x in t && p <= x && |x| == |p| + 1 :: x[|p|]
  }

  lemma ChildNamesHold(t: Tree, p: Path, n: string)
    ensures n in ChildNames(t, p) <==> p + [n] in t
  {
    if p + [n] in t {
      assert (p + [n])[|p|] == n && p <= p + [n];
    }
    if n in ChildNames(t, p) {
      var x :| x in t && p <= x && |x| == |p| + 1 && x[|p|] == n;
      assert x == p + [n];
    }
  }

  lemma BelowChild(p: Path, n: string, x: Path)
    ensures p + [n] <= x <==> p <= x && |p| < |x| && x[|p|] == n
  {
    if p + [n] <= x {
      assert p == (p + [n])[..|p|] == x[..|p|];
    }
    if p <= x && |p| < |x| && x[|p|] == n {
      assert x[..|p| + 1] == p + [n];
    }
  }

  /** A subtree is its root and the subtrees of the root's entries. */
  lemma BelowIsRootAndChildren(t: Tree, p: Path)
    requires WellFormed(t) && p in t
    ensures Below(t, p) == {p} + BelowNames(t, p, ChildNames(t, p))
  {
    forall x | x in Below(t, p) && x != p
      ensures x in BelowNames(t, p, ChildNames(t, p))
    {
      assert |p| < |x|;
      if |p| + 1 < |x| {
        assert IsDir(t, x[..|p| + 1]);
      }
      assert x[..|p| + 1] == p + [x[|p|]];
      assert x == x[..|x|];
      ChildNamesHold(t, p, x[|p|]);
    }
  }

  lemma BelowNamesGrow(t: Tree, p: Path, names: set<string>, n: string)
    ensures BelowNames(t, p, names + {n}) == BelowNames(t, p, names) + Below(t, p + [n])
    ensures n !in names ==> BelowNames(t, p, names) !! Below(t, p + [n])
    ensures p !in Below(t, p + [n])
  {
    forall x: Path
      ensures p + [n] <= x <==> p <= x && |p| < |x| && x[|p|] == n
    {
      BelowChild(p, n, x);
    }
  }

  /** `p` with its prefix `from` exchanged for `to`. */
  function Rebase(p: Path, from: Path, to: Path): Path
    requires from <= p
  {
    to + p[|from|..]
  }

  lemma RebaseBack(p: Path, from: Path, to: Path)
    requires from <= p
    ensures to <= Rebase(p, from, to)
    ensures Rebase(Rebase(p, from, to), to, from) == p
  {
    assert from + p[|from|..] == p;
  }

  lemma RebaseChild(p: Path, from: Path, to: Path, n: string)
    requires from + [n] <= p
    ensures from <= p && Rebase(p, from + [n], to + [n]) == Rebase(p, from, to)
  {
    BelowChild(from, n, p);
    assert p[|from|..] == [n] + p[|from| + 1..];
  }

  /** `q` is where the walk from `src` to `dst` puts a member of `s`. */
  predicate HasSource(q: Path, src: Path, dst: Path, s: set<Path>) {
    dst <= q && Rebase(q, dst, src) in s
  }

  function Images(s: set<Path>, src: Path, dst: Path): (r: set<Path>)
    requires forall p :: p in s ==> src <= p
    ensures forall q :: q in r <==> HasSource(q, src, dst, s)
  {
    var r := set p | p in s :: Rebase(p, src, dst);
    assert forall q :: q in r <==> HasSource(q, src, dst, s) by {
      forall q
        ensures q in r <==> HasSource(q, src, dst, s)
      {
        if q in r {
          var p :| p in s && q == Rebase(p, src, dst);
          RebaseBack(p, src, dst);
        }
        if HasSource(q, src, dst, s) {
          RebaseBack(q, dst, src);
          assert Rebase(Rebase(q, dst, src), src, dst) == q;
        }
      }
    }
    r
  }

  /** What mkdir-or-keep and create-or-truncate make of one destination path. */
  function Overlaid(t: Tree, q: Path, n: Node): Node {
    if n.Dir? && q in t then t[q] else n
  }

  /** The tree after the nodes `s` of the subtree at `src` were copied below `dst`. */
  ghost function Copied(t: Tree, src: Path, dst: Path, s: set<Path>): Tree
    requires s <= Below(t, src)
  {
    map q | q in t.Keys + Images(s, src, dst) ::
      if HasSource(q, src, dst, s) then Overlaid(t, q, t[Rebase(q, dst, src)]) else t[q]
  }

  /** The tree after the nodes `s` of the subtree at `src` were moved below `dst`. */
  function Moved(t: Tree, src: Path, dst: Path, s: set<Path>): Tree
    requires s <= Below(t, src)
  {
    map q | q in t.Keys + Images(s, src, dst) && (HasSource(q, src, dst, s) || q !in s) ::
      if HasSource(q, src, dst, s) then t[Rebase(q, dst, src)] else t[q]
  }

  ghost function Pruned(t: Tree, p: Path): Tree {
    map x | x in t && !(p <= x) :: t[x]
  }

  /** The subtree at `src` laid over the old contents of `dst`, source nodes winning. */
  ghost function Grafted(t: Tree, src: Path, dst: Path): Tree {
    map q | q in t.Keys + Images(Below(t, src), src, dst) ::
      if HasSource(q, src, dst, Below(t, src)) then t[Rebase(q, dst, src)] else t[q]
  }

  /** No directory meets a file at a shared relative path. */
  ghost predicate Compatible(t: Tree, src: Path, dst: Path) {
    forall p :: p in Below(t, src) ==> NoConflict(t, p, Rebase(p, src, dst))
  }

  predicate NoConflict(t: Tree, p: Path, q: Path) {
    p in t && q in t ==> t[p].Dir? == t[q].Dir?
  }

  lemma CommonExtension(p: Path, q: Path, x: Path)
    requires p <= x && q <= x
    ensures !Incomparable(p, q)
  {
    if |p| <= |q| {
      assert p == x[..|p|] && q == x[..|q|];
      assert p == q[..|p|];
    } else {
      assert p == x[..|p|] && q == x[..|q|];
      assert q == p[..|q|];
    }
  }

  /** Some directory of the source meets a file at the destination. */
  ghost predicate DirOverFile(t: Tree, src: Path, dst: Path) {
    exists p :: p in Below(t, src) && t[p].Dir? && IsFile(t, Rebase(p, src, dst))
  }

  /** A complete copy is the exact overlay if and only if no source directory meets a file. */
  lemma CopyIsOverlay(t: Tree, src: Path, dst: Path)
    ensures Copied(t, src, dst, Below(t, src)) == Grafted(t, src, dst) <==> !DirOverFile(t, src, dst)
  {
    var s := Below(t, src);
    var c, g := Copied(t, src, dst, s), Grafted(t, src, dst);
    if DirOverFile(t, src, dst) {
      var p :| p in Below(t, src) && t[p].Dir? && IsFile(t, Rebase(p, src, dst));
      RebaseBack(p, src, dst);
      assert g[Rebase(p, src, dst)].Dir? && c[Rebase(p, src, dst)].File?;
    } else {
      forall q | q in g
        ensures c[q] == g[q]
      {
        if HasSource(q, src, dst, s) {
          RebaseBack(q, dst, src);
        }
      }
    }
  }

  /** No source node has its destination in the source itself. */
  ghost predicate Clear(t: Tree, src: Path, dst: Path) {
    forall p :: p in Below(t, src) ==> !(src <= Rebase(p, src, dst))
  }

  /** What a caller can look up instead: the paths are incomparable, or the destination contains the source
      and the node that would land on the source is not there. */
  lemma ClearExactly(t: Tree, src: Path, dst: Path)
    requires WellFormed(t) && src in t
    ensures Clear(t, src, dst) <==> Incomparable(src, dst) || (dst < src && src + src[|dst|..] !in t)
  {
    assert src in Below(t, src) && Rebase(src, src, dst) == dst;
    if dst < src {
      var p := src + src[|dst|..];
      assert p[|src|..] == src[|dst|..] && Rebase(p, src, dst) == src;
      forall x | x in Below(t, src) && src <= Rebase(x, src, dst)
        ensures p in t
      {
        PrefixOfRebase(x, src, dst);
        AncestorHolds(t, p, x);
      }
    } else if Incomparable(src, dst) {
      forall x | x in Below(t, src)
        ensures !(src <= Rebase(x, src, dst))
      {
        RebaseBack(x, src, dst);
        if src <= Rebase(x, src, dst) {
          CommonExtension(src, dst, Rebase(x, src, dst));
        }
      }
    }
  }

  lemma PrefixOfRebase(x: Path, src: Path, dst: Path)
    requires dst <= src <= x && src <= Rebase(x, src, dst)
    ensures src + src[|dst|..] <= x
  {
    var y := Rebase(x, src, dst);
    assert src == y[..|src|];
    assert src[|dst|..] == y[..|src|][|dst|..] == y[|dst|..][..|src| - |dst|];
    assert y[|dst|..] == x[|src|..];
    assert x == src + x[|src|..];
  }

  /** Nothing in the source is the destination of a source node. */
  lemma ClearSource(t: Tree, src: Path, dst: Path, q: Path)
    requires Clear(t, src, dst) && src <= q && dst <= q
    ensures Rebase(q, dst, src) !in t
  {
    RebaseBack(q, dst, src);
    var p := Rebase(q, dst, src);
    assert p in Below(t, src) <==> p in t;
  }

  /** A walk on an entry is clear when the walk on the directory is. */
  lemma ClearEntry(t: Tree, u: Tree, src: Path, dst: Path, n: string)
    requires Clear(t, src, dst) && Below(u, src + [n]) <= Below(t, src)
    ensures Clear(u, src + [n], dst + [n])
  {
    forall p | p in Below(u, src + [n])
      ensures !(src + [n] <= Rebase(p, src + [n], dst + [n]))
    {
      RebaseChild(p, src, dst, n);
      BelowChild(src, n, Rebase(p, src, dst));
    }
  }

  /** Below a destination that contains the source, a move can leave all of the source's nodes at their
      destinations and none at the source if and only if it is clear. */
  lemma ExactMovePossible(t: Tree, src: Path, dst: Path)
    requires WellFormed(t) && src in t && dst < src
    ensures src !in Moved(t, src, dst, Below(t, src)) <==> src + src[|dst|..] !in t
  {
    assert Rebase(src, dst, src) == src + src[|dst|..];
    assert src <= src + src[|dst|..];
  }

  /** Moving refines copying followed by removing. */
  lemma MoveIsCopyThenRemove(t: Tree, src: Path, dst: Path)
    requires Clear(t, src, dst) && Compatible(t, src, dst)
    ensures Moved(t, src, dst, Below(t, src)) == Pruned(Copied(t, src, dst, Below(t, src)), src)
    ensures Moved(t, src, dst, Below(t, src)) == Pruned(Grafted(t, src, dst), src)
  {
    CopyIsOverlay(t, src, dst);
    var s := Below(t, src);
    var m, c := Moved(t, src, dst, s), Pruned(Grafted(t, src, dst), src);
    forall q: Path
      ensures q in m <==> q in c
      ensures q in m ==> m[q] == c[q]
    {
      if dst <= q && src <= q {
        ClearSource(t, src, dst, q);
      }
    }
  }

  lemma FileIsLeaf(t: Tree, p: Path)
    requires WellFormed(t) && IsFile(t, p)
    ensures Below(t, p) == {p}
  {
    forall x | x in Below(t, p)
      ensures x == p
    {
      AncestorHolds(t, p, x);
    }
  }

  lemma RemovingLeaf(t: Tree, p: Path)
    requires WellFormed(t) && Below(t, p) == {p}
    ensures WellFormed(t - {p})
    ensures t - {p} == Pruned(t, p)
  {
    forall x, k | x in t - {p} && 0 < k < |x|
      ensures IsDir(t - {p}, x[..k])
    {
      assert p <= x <==> x in Below(t, p);
    }
  }

  lemma AddingLeaf(t: Tree, p: Path, n: Node)
    requires WellFormed(t) && CanHold(t, p)
    requires IsDir(t, p) ==> n.Dir?
    ensures WellFormed(t[p := n])
  {
    var u := t[p := n];
    forall k | 0 < k < |p|
      ensures IsDir(u, p[..k])
    {
      Parents(t, p, k);
    }
    forall k | 0 <= k < |p|
      ensures IsName(p[k])
    {
      if p !in t && k < |p| - 1 {
        assert p[..|p| - 1][k] == p[k];
      }
    }
    forall x, k | x in u && 0 < k < |x|
      ensures IsDir(u, x[..k])
    {
      if x != p {
        assert IsDir(t, x[..k]);
      }
    }
  }

  lemma Parents(t: Tree, p: Path, k: nat)
    requires WellFormed(t) && CanHold(t, p) && 0 < k < |p|
    ensures IsDir(t, p[..k])
  {
    if p !in t && k < |p| - 1 {
      assert p[..|p| - 1][..k] == p[..k];
    }
  }

  /** Moving a subtree to a free path under an existing directory keeps the tree well formed. */
  lemma MovingFreely(t: Tree, p: Path, q: Path)
    requires WellFormed(t) && p in t && q !in t && CanHold(t, q) && Incomparable(p, q)
    ensures WellFormed(Moved(t, p, q, Below(t, p)))
  {
    var s := Below(t, p);
    var u := Moved(t, p, q, s);
    forall x | x in u
      ensures x != []
      ensures forall k :: 0 < k < |x| ==> IsDir(u, x[..k])
      ensures forall k :: 0 <= k < |x| ==> IsName(x[k])
    {
      if HasSource(x, p, q, s) {
        MovedNodeHangs(t, p, q, x);
      } else {
        forall k | 0 < k < |x|
          ensures IsDir(u, x[..k])
        {
          KeptNodeHangs(t, p, q, x, k);
        }
      }
    }
  }

  lemma PrefixOfPrefix(p: Path, x: Path, k: nat)
    requires k <= |x| && p <= x[..k]
    ensures p <= x
  {
    assert p == x[..k][..|p|] == x[..|p|];
  }

  lemma AncestorHolds(t: Tree, p: Path, x: Path)
    requires WellFormed(t) && x in t && p <= x && p != []
    ensures p in t && (p != x ==> IsDir(t, p))
  {
    assert p == x[..|p|];
    if p != x {
      assert |p| < |x|;
      assert IsDir(t, x[..|p|]);
    }
  }

  lemma NodesHaveNames(t: Tree, p: Path)
    requires WellFormed(t) && p in t
    ensures p != []
  {
  }

  lemma KeptNodeHangs(t: Tree, p: Path, q: Path, x: Path, k: nat)
    requires WellFormed(t) && q !in t && q != [] && 0 < k < |x| && x in t && !(p <= x)
    ensures IsDir(Moved(t, p, q, Below(t, p)), x[..k])
  {
    assert IsDir(t, x[..k]);
    if p <= x[..k] {
      PrefixOfPrefix(p, x, k);
    }
    if q <= x[..k] {
      PrefixOfPrefix(q, x, k);
      AncestorHolds(t, q, x);
    }
  }

  lemma HolderNames(t: Tree, q: Path, k: nat)
    requires WellFormed(t) && CanHold(t, q) && k < |q|
    ensures IsName(q[k])
  {
    if q !in t && k < |q| - 1 {
      assert q[..|q| - 1][k] == q[k];
    }
  }

  lemma MovedNodeHangs(t: Tree, p: Path, q: Path, x: Path)
    requires WellFormed(t) && p in t && q !in t && CanHold(t, q) && Incomparable(p, q)
    requires HasSource(x, p, q, Below(t, p))
    ensures |x| > 1
    ensures forall k :: 0 < k < |x| ==> IsDir(Moved(t, p, q, Below(t, p)), x[..k])
    ensures forall k :: 0 <= k < |x| ==> IsName(x[k])
  {
    forall k | 0 < k < |x|
      ensures IsDir(Moved(t, p, q, Below(t, p)), x[..k])
    {
      MovedParent(t, p, q, x, k);
    }
    var y := Rebase(x, q, p);
    forall k | 0 <= k < |x|
      ensures IsName(x[k])
    {
      if k < |q| {
        HolderNames(t, q, k);
        assert x[k] == q[k];
      } else {
        assert x[k] == y[k + |p| - |q|];
      }
    }
  }

  lemma MovedParent(t: Tree, p: Path, q: Path, x: Path, k: nat)
    requires WellFormed(t) && p in t && q !in t && CanHold(t, q) && Incomparable(p, q)
    requires HasSource(x, p, q, Below(t, p)) && 0 < k < |x|
    ensures IsDir(Moved(t, p, q, Below(t, p)), x[..k])
  {
    if k < |q| {
      Parents(t, q, k);
      assert x[..k] == q[..k];
      if p <= q[..k] {
        PrefixOfPrefix(p, q, k);
      }
    } else {
      var y := Rebase(x, q, p);
      var j := k + |p| - |q|;
      assert Rebase(x[..k], q, p) == y[..j];
      assert p != [] && IsDir(t, y[..j]);
      assert p <= y[..j];
      assert HasSource(x[..k], p, q, Below(t, p));
    }
  }

  lemma BelowChildSmaller(t: Tree, p: Path, n: string)
    requires p in t
    ensures Below(t, p + [n]) < Below(t, p)
  {
    forall x | x in Below(t, p + [n])
      ensures p <= x
    {
      BelowChild(p, n, x);
    }
    assert p in Below(t, p) && p !in Below(t, p + [n]);
  }
}
