/** What copying does to a tree: in every outcome, on success, and when it can succeed at all. */
module CopyTrees {
  import opened Paths
  import opened FileTrees
  import opened FileSystems

  /** What a copy, finished or not, may leave at a destination path with counterpart `p`:
      a new directory, or a file holding, as long as the device did not lie, a prefix of the source's bytes. */
  ghost predicate Landed(t: Tree, n: Node, q: Path, p: Path, exact: bool) {
    && p in t
    && (if t[p].Dir? then n.Dir? && q !in t
        else n.File? && !IsDir(t, q) && (exact ==> n.bytes <= t[p].bytes))
  }

  /** In every outcome nothing disappears, and only destination paths with a counterpart change. */
  ghost predicate Touched(t: Tree, u: Tree, src: Path, dst: Path, exact: bool) {
    && t.Keys <= u.Keys
    && (forall x :: x in u ==> (x in t && u[x] == t[x]) || (dst <= x && Landed(t, u[x], x, Rebase(x, dst, src), exact)))
  }

  lemma TouchedOutside(t: Tree, u: Tree, src: Path, dst: Path, exact: bool, p: Path)
    requires Touched(t, u, src, dst, exact) && Clear(t, src, dst) && src <= p
    ensures p in t <==> p in u
    ensures p in t ==> t[p] == u[p]
  {
    if dst <= p {
      ClearSource(t, src, dst, p);
    }
  }

  lemma TouchedSource(t: Tree, u: Tree, src: Path, dst: Path, exact: bool)
    requires Touched(t, u, src, dst, exact) && Clear(t, src, dst)
    ensures Below(u, src) == Below(t, src)
    ensures forall p :: src <= p ==> (p in t <==> p in u) && (p in t ==> t[p] == u[p])
  {
    forall p | src <= p
      ensures (p in t <==> p in u) && (p in t ==> t[p] == u[p])
    {
      TouchedOutside(t, u, src, dst, exact, p);
    }
  }

  lemma TouchedThen(t: Tree, u: Tree, v: Tree, src: Path, dst: Path, n: string, before: bool, after: bool)
    requires Touched(t, u, src, dst, before) && Touched(u, v, src + [n], dst + [n], after)
    requires Clear(t, src, dst) && (after ==> before)
    ensures Touched(t, v, src, dst, after)
  {
    forall x | x in v && !(x in t && v[x] == t[x])
      ensures dst <= x && Landed(t, v[x], x, Rebase(x, dst, src), after)
    {
      BelowChild(dst, n, x);
      if !(x in u && v[x] == u[x]) {
        RebaseChild(x, dst, src, n);
        RebaseBack(x, dst, src);
        TouchedOutside(t, u, src, dst, before, Rebase(x, dst, src));
      }
    }
  }

  lemma TouchedWeaker(t: Tree, u: Tree, src: Path, dst: Path, before: bool, after: bool)
    requires Touched(t, u, src, dst, before) && (after ==> before)
    ensures Touched(t, u, src, dst, after)
  {
  }

  /** What a copied node may meet: a file overwrites a file, a directory joins a directory,
      and a directory over a file is noticed only once an entry is put into it. */
  ghost predicate LandsOn(t: Tree, p: Path, q: Path) {
    p in t && (q in t ==> (t[p].File? ==> t[q].File?) && (t[p].Dir? && t[q].File? ==> Below(t, p) == {p}))
  }

  ghost predicate Copyable(t: Tree, src: Path, dst: Path) {
    && src in t && CanHold(t, dst)
    && forall p :: p in Below(t, src) ==> LandsOn(t, p, Rebase(p, src, dst))
  }

  /** The copy has made the destination directory and dealt with the entries `names`. */
  ghost predicate CopiedSoFar(t: Tree, u: Tree, src: Path, dst: Path, names: set<string>) {
    && IsDir(t, src) && CanHold(t, dst)
    && u == Copied(t, src, dst, {src} + BelowNames(t, src, names))
    && (forall p :: p in BelowNames(t, src, names) ==> LandsOn(t, p, Rebase(p, src, dst)))
    && (names != {} && dst in t ==> IsDir(t, dst))
  }

  lemma CopiedRoot(t: Tree, src: Path, dst: Path)
    requires IsDir(t, src) && CanHold(t, dst)
    ensures CopiedSoFar(t, if dst in t then t else t[dst := Dir], src, dst, {})
  {
    assert {src} + BelowNames(t, src, {}) == {src};
    var u, c := if dst in t then t else t[dst := Dir], Copied(t, src, dst, {src});
    assert src + [] == src && dst + [] == dst;
    forall x: Path
      ensures x in u <==> x in c
      ensures x in u ==> u[x] == c[x]
    {
      if HasSource(x, src, dst, {src}) {
        assert x == dst + x[|dst|..];
        assert src == src + x[|dst|..];
        assert |x[|dst|..]| == 0;
      } else {
        assert x != dst;
      }
    }
  }

  /** Within one entry's subtree the walk on the entry and the walk on the directory agree. */
  lemma SourceOfEntry(x: Path, src: Path, dst: Path, n: string, s: set<Path>)
    requires forall p :: p in s ==> src + [n] <= p
    ensures HasSource(x, src + [n], dst + [n], s) <==> HasSource(x, src, dst, s)
    ensures HasSource(x, src, dst, s) ==> Rebase(x, dst + [n], src + [n]) == Rebase(x, dst, src)
  {
    BelowChild(dst, n, x);
    if dst + [n] <= x {
      RebaseChild(x, dst, src, n);
    }
    if HasSource(x, src, dst, s) {
      BelowChild(src, n, Rebase(x, dst, src));
      assert Rebase(x, dst, src)[|src|] == x[|dst|];
    }
  }

  /** Copying one more set of nodes of an entry's subtree. */
  lemma CopiedMore(t: Tree, u: Tree, src: Path, dst: Path, s: set<Path>, n: string, more: set<Path>)
    requires Clear(t, src, dst)
    requires s <= Below(t, src) && more <= Below(t, src + [n]) && s !! more
    requires u == Copied(t, src, dst, s)
    ensures forall p :: p in more ==> src <= p && p in u && u[p] == t[p]
    ensures more <= Below(u, src + [n])
    ensures Copied(u, src + [n], dst + [n], more) == Copied(t, src, dst, s + more)
  {
    forall p | p in more
      ensures src <= p && p in u && u[p] == t[p]
    {
      BelowChild(src, n, p);
      if dst <= p {
        ClearSource(t, src, dst, p);
      }
    }
    var v, w := Copied(u, src + [n], dst + [n], more), Copied(t, src, dst, s + more);
    forall x: Path
      ensures x in v <==> x in w
      ensures x in v ==> v[x] == w[x]
    {
      SourceOfEntry(x, src, dst, n, more);
    }
  }

  /** The source and the destination of an entry still to come are as they were. */
  lemma CopiedKeeps(t: Tree, u: Tree, src: Path, dst: Path, names: set<string>, n: string)
    requires Clear(t, src, dst) && n !in names
    requires CopiedSoFar(t, u, src, dst, names)
    ensures forall p :: src <= p ==> (p in t <==> p in u) && (p in t ==> t[p] == u[p])
    ensures forall x :: dst + [n] <= x ==> (x in t <==> x in u) && (x in t ==> t[x] == u[x])
    ensures Below(u, src + [n]) == Below(t, src + [n])
    ensures forall p :: src <= p ==> Below(u, p) == Below(t, p)
  {
    var s := {src} + BelowNames(t, src, names);
    forall p | src <= p
      ensures (p in t <==> p in u) && (p in t ==> t[p] == u[p])
    {
      if dst <= p {
        ClearSource(t, src, dst, p);
      }
    }
    forall x | dst + [n] <= x
      ensures (x in t <==> x in u) && (x in t ==> t[x] == u[x])
    {
      BelowChild(dst, n, x);
      var p := Rebase(x, dst, src);
      assert |p| > |src| && p[|src|] == n;
    }
    forall p | src <= p
      ensures Below(u, p) == Below(t, p)
    {
      BelowWithin(t, src, p);
      BelowWithin(u, src, p);
    }
    BelowChild(src, n, src + [n]);
  }

  lemma BelowWithin(t: Tree, src: Path, p: Path)
    requires src <= p
    ensures forall x :: x in Below(t, p) ==> src <= x
  {
    forall x | x in Below(t, p)
      ensures src <= x
    {
      assert src == p[..|src|] == x[..|src|];
    }
  }

  /** Once the walk has begun the destination is a directory that can hold an entry of the source. */
  lemma DestinationMade(t: Tree, u: Tree, src: Path, dst: Path, names: set<string>, n: string)
    requires WellFormed(t) && src + [n] in t && CopiedSoFar(t, u, src, dst, names) && Copyable(t, src, dst)
    ensures CanHold(u, dst + [n])
  {
    assert src in Below(t, src) && Rebase(src, src, dst) == dst && Rebase(dst, dst, src) == src;
    assert LandsOn(t, src, dst);
    assert src + [n] in Below(t, src);
    assert HasSource(dst, src, dst, {src} + BelowNames(t, src, names));
    assert IsName((src + [n])[|src|]);
    assert (dst + [n])[..|dst|] == dst && dst != [];
  }

  /** A directory that can be copied has entries that can be copied in their turn. */
  lemma CopyableEntry(t: Tree, u: Tree, src: Path, dst: Path, names: set<string>, n: string)
    requires WellFormed(t) && Clear(t, src, dst) && n !in names && src + [n] in t
    requires CopiedSoFar(t, u, src, dst, names)
    requires Copyable(t, src, dst)
    ensures Copyable(u, src + [n], dst + [n])
  {
    hide WellFormed, Clear, CopiedSoFar, CanHold;
    CopiedKeeps(t, u, src, dst, names, n);
    DestinationMade(t, u, src, dst, names, n);
    assert src + [n] in Below(t, src + [n]);
    forall p | p in Below(u, src + [n])
      ensures LandsOn(u, p, Rebase(p, src + [n], dst + [n]))
    {
      RebaseChild(p, src, dst, n);
      RebaseBack(p, src + [n], dst + [n]);
      assert p in Below(t, src);
      assert LandsOn(t, p, Rebase(p, src, dst));
    }
  }

  /** And once an entry could be copied, its nodes landed on what was there at the start. */
  lemma EntryLanded(t: Tree, u: Tree, src: Path, dst: Path, names: set<string>, n: string)
    requires WellFormed(t) && WellFormed(u) && Clear(t, src, dst) && n !in names && src + [n] in t
    requires CopiedSoFar(t, u, src, dst, names)
    requires Copyable(u, src + [n], dst + [n])
    ensures forall p :: p in Below(t, src + [n]) ==> LandsOn(t, p, Rebase(p, src, dst))
    ensures dst in t ==> IsDir(t, dst)
  {
    CopiedKeeps(t, u, src, dst, names, n);
    forall p | p in Below(t, src + [n])
      ensures LandsOn(t, p, Rebase(p, src, dst))
    {
      RebaseChild(p, src, dst, n);
      RebaseBack(p, src + [n], dst + [n]);
      assert LandsOn(u, p, Rebase(p, src + [n], dst + [n]));
    }
    if dst in t {
      assert (dst + [n])[..|dst|] == dst;
      assert IsDir(u, dst);
      assert Rebase(dst, dst, src) == src;
      assert HasSource(dst, src, dst, {src} + BelowNames(t, src, names));
    }
  }

  lemma CopiedNext(t: Tree, u: Tree, v: Tree, src: Path, dst: Path, names: set<string>, n: string)
    requires WellFormed(t) && WellFormed(u) && Clear(t, src, dst) && n !in names && src + [n] in t
    requires CopiedSoFar(t, u, src, dst, names)
    requires Copyable(u, src + [n], dst + [n])
    requires v == Copied(u, src + [n], dst + [n], Below(u, src + [n]))
    ensures CopiedSoFar(t, v, src, dst, names + {n})
  {
    hide Copied, Copyable, LandsOn, WellFormed;
    CopiedKeeps(t, u, src, dst, names, n);
    EntryLanded(t, u, src, dst, names, n);
    BelowNamesGrow(t, src, names, n);
    var s := {src} + BelowNames(t, src, names);
    CopiedMore(t, u, src, dst, s, n, Below(t, src + [n]));
    assert s + Below(t, src + [n]) == {src} + BelowNames(t, src, names + {n});
  }

  lemma CopiedAll(t: Tree, u: Tree, src: Path, dst: Path)
    requires WellFormed(t)
    requires CopiedSoFar(t, u, src, dst, ChildNames(t, src))
    ensures u == Copied(t, src, dst, Below(t, src))
    ensures Copyable(t, src, dst)
  {
    BelowIsRootAndChildren(t, src);
    assert Rebase(src, src, dst) == dst;
    if ChildNames(t, src) == {} {
      assert BelowNames(t, src, {}) == {};
    }
  }

  /** The same for a single file. */
  lemma CopiedFile(t: Tree, src: Path, dst: Path)
    requires WellFormed(t) && IsFile(t, src)
    ensures Copyable(t, src, dst) <==> CanHold(t, dst) && !IsDir(t, dst)
    ensures !IsDir(t, dst) ==> t[dst := t[src]] == Copied(t, src, dst, Below(t, src))
  {
    FileIsLeaf(t, src);
    assert Rebase(src, src, dst) == dst && Rebase(dst, dst, src) == src;
    var u, c := t[dst := t[src]], Copied(t, src, dst, {src});
    forall x: Path
      ensures x in u <==> x in c
      ensures !IsDir(t, dst) && x in u ==> u[x] == c[x]
    {
      if HasSource(x, src, dst, {src}) {
        assert x == dst + x[|dst|..];
        assert |src + x[|dst|..]| == |src|;
      }
    }
  }

  /** Success is not always the overlay: an empty directory copied onto a file leaves the file. */
  lemma EmptyDirectoryOverFile(t: Tree, p: Path, q: Path)
    requires IsDir(t, p) && Below(t, p) == {p} && IsFile(t, q)
    ensures Copyable(t, p, q)
    ensures Copied(t, p, q, Below(t, p)) == t != Grafted(t, p, q)
  {
    assert Rebase(p, p, q) == q && Rebase(q, q, p) == p;
    assert BelowNames(t, p, {}) == {};
    CopiedRoot(t, p, q);
    assert {p} + BelowNames(t, p, {}) == {p};
    CopyIsOverlay(t, p, q);
  }

  const EMPTY_OVER_FILE: Tree := map[["ux0:"] := Dir, ["ux0:", "a"] := Dir, ["ux0:", "b"] := File([1])]

  lemma ExampleShape()
    ensures EMPTY_OVER_FILE.Keys == {["ux0:"], ["ux0:", "a"], ["ux0:", "b"]}
    ensures Incomparable(["ux0:", "a"], ["ux0:", "b"])
    ensures !(["ux0:", "a"] <= ["ux0:"])
    ensures IsDir(EMPTY_OVER_FILE, ["ux0:", "a"]) && IsFile(EMPTY_OVER_FILE, ["ux0:", "b"])
  {
    assert "a"[0] == 'a' && "b"[0] == 'b';
    assert ["ux0:", "a"][1] == "a" && ["ux0:", "b"][1] == "b";
  }

  lemma ExampleIsWellFormed()
    ensures WellFormed(EMPTY_OVER_FILE)
  {
    var m, a, b := ["ux0:"], ["ux0:", "a"], ["ux0:", "b"];
    var one: Tree := map[m := Dir];
    assert a[..1] == m && b[..1] == m;
    AddingLeaf(one, a, Dir);
    AddingLeaf(one[a := Dir], b, File([1]));
    ExampleShape();
    assert one[a := Dir][b := File([1])] == EMPTY_OVER_FILE;
  }

  lemma EmptyDirectoryOverFileExample()
    ensures WellFormed(EMPTY_OVER_FILE) && Incomparable(["ux0:", "a"], ["ux0:", "b"])
    ensures Copyable(EMPTY_OVER_FILE, ["ux0:", "a"], ["ux0:", "b"])
    ensures Copied(EMPTY_OVER_FILE, ["ux0:", "a"], ["ux0:", "b"], Below(EMPTY_OVER_FILE, ["ux0:",
              "a"])) == EMPTY_OVER_FILE
    ensures Grafted(EMPTY_OVER_FILE, ["ux0:", "a"], ["ux0:", "b"]) != EMPTY_OVER_FILE
  {
    hide Copyable, Copied, Grafted, WellFormed;
    ExampleShape();
    ExampleIsWellFormed();
    assert Below(EMPTY_OVER_FILE, ["ux0:", "a"]) == {["ux0:", "a"]};
    EmptyDirectoryOverFile(EMPTY_OVER_FILE, ["ux0:", "a"], ["ux0:", "b"]);
  }
}
