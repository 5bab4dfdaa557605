/** Sums over the nodes of a tree: what s_getPathInfo counts and what the progress counters advance by. */
module TreeSums {
  import opened Paths
  import opened FileTrees

  /** What a counter adds up: bytes, files, folders, or the copy progress of bytes plus folders. */
  datatype Measure = Bytes | Files | Folders | CopyUnits

  function Weigh(w: Measure, n: Node): nat {
    match (w, n)
    case (Bytes, File(b)) => |b|
    case (CopyUnits, File(b)) => |b|
    case (Files, File(_)) => 1
    case (Folders, Dir) => 1
    case (CopyUnits, Dir) => 1
    case _ => 0
  }

  ghost function Sum(w: Measure, t: Tree, s: set<Path>): nat
    requires s <= t.Keys
  {
    if s == {} then 0 else
      var p :| p in s;
      Weigh(w, t[p]) + Sum(w, t, s - {p})
  }

  lemma {:induction false} SumPick(w: Measure, t: Tree, s: set<Path>, p: Path)
    requires s <= t.Keys && p in s
    ensures Sum(w, t, s) == Weigh(w, t[p]) + Sum(w, t, s - {p})
  {
    var q :| q in s && Sum(w, t, s) == Weigh(w, t[q]) + Sum(w, t, s - {q});
    if q != p {
      SumPick(w, t, s - {q}, p);
      SumPick(w, t, s - {p}, q);
      assert s - {q} - {p} == s - {p} - {q};
    }
  }

  lemma {:induction false} SumUnion(w: Measure, t: Tree, a: set<Path>, b: set<Path>)
    requires a <= t.Keys && b <= t.Keys && a !! b
    ensures Sum(w, t, a + b) == Sum(w, t, a) + Sum(w, t, b)
  {
    if b == {} {
      assert a + b == a;
    } else {
      var p :| p in b;
      SumPick(w, t, b, p);
      SumPick(w, t, a + b, p);
      assert (a + b) - {p} == a + (b - {p});
      SumUnion(w, t, a, b - {p});
    }
  }

  /** Sums only look at the nodes they add up. */
  lemma {:induction false} SumAgree(w: Measure, t: Tree, u: Tree, s: set<Path>)
    requires s <= t.Keys && s <= u.Keys && forall p :: p in s ==> t[p] == u[p]
    ensures Sum(w, t, s) == Sum(w, u, s)
  {
    if s != {} {
      var p :| p in s;
      SumPick(w, t, s, p);
      SumPick(w, u, s, p);
      SumAgree(w, t, u, s - {p});
    }
  }

  lemma SumSingle(w: Measure, t: Tree, p: Path)
    requires p in t
    ensures Sum(w, t, {p}) == Weigh(w, t[p])
  {
    SumPick(w, t, {p}, p);
    assert {p} - {p} == {};
  }

  /** A subtree holds as many nodes as it has files and folders, and the copy progress
      over it is its size plus its folders. */
  lemma {:induction false} SumsAgree(t: Tree, s: set<Path>)
    requires s <= t.Keys
    ensures |s| == Sum(Files, t, s) + Sum(Folders, t, s)
    ensures Sum(CopyUnits, t, s) == Sum(Bytes, t, s) + Sum(Folders, t, s)
  {
    if s != {} {
      var p :| p in s;
      SumPick(Files, t, s, p);
      SumPick(Folders, t, s, p);
      SumPick(CopyUnits, t, s, p);
      SumPick(Bytes, t, s, p);
      SumsAgree(t, s - {p});
    }
  }

  /** What one more directory entry adds. */
  lemma SumNextEntry(w: Measure, t: Tree, p: Path, names: set<string>, n: string)
    requires n !in names
    ensures Sum(w, t, BelowNames(t, p, names + {n}))
         == Sum(w, t, BelowNames(t, p, names)) + Sum(w, t, Below(t, p + [n]))
  {
    BelowNamesGrow(t, p, names, n);
    SumUnion(w, t, BelowNames(t, p, names), Below(t, p + [n]));
  }

  lemma SumRootAndChildren(w: Measure, t: Tree, p: Path)
    requires WellFormed(t) && p in t
    ensures Sum(w, t, Below(t, p)) == Weigh(w, t[p]) + Sum(w, t, BelowNames(t, p, ChildNames(t, p)))
  {
    BelowIsRootAndChildren(t, p);
    SumUnion(w, t, {p}, BelowNames(t, p, ChildNames(t, p)));
    SumSingle(w, t, p);
  }

  /** What one file counts as, and what a directory adds to its entries. */
  lemma WhatCounts(t: Tree, p: Path)
    requires WellFormed(t) && p in t
    ensures IsFile(t, p) ==>
              && Sum(Bytes, t, Below(t, p)) == Sum(CopyUnits, t, Below(t, p)) == |t[p].bytes|
              && Sum(Files, t, Below(t, p)) == 1 && Sum(Folders, t, Below(t, p)) == 0
    ensures IsDir(t, p) ==>
              ghost var s := BelowNames(t, p, ChildNames(t, p));
              && Sum(Bytes, t, Below(t, p)) == Sum(Bytes, t, s) && Sum(Files, t, Below(t, p)) == Sum(Files, t, s)
              && Sum(Folders, t, Below(t, p)) == Sum(Folders, t, s) + 1
              && Sum(CopyUnits, t, Below(t, p)) == Sum(CopyUnits, t, s) + 1
  {
    hide Sum, WellFormed;
    forall w
      ensures IsFile(t, p) ==> Sum(w, t, Below(t, p)) == Weigh(w, t[p])
    {
      if IsFile(t, p) {
        SumFile(w, t, p);
      }
    }
    SumRootAndChildren(Bytes, t, p);
    SumRootAndChildren(Files, t, p);
    SumRootAndChildren(Folders, t, p);
    SumRootAndChildren(CopyUnits, t, p);
  }

  /** A file has nothing below it. */
  lemma SumFile(w: Measure, t: Tree, p: Path)
    requires WellFormed(t) && IsFile(t, p)
    ensures Below(t, p) == {p}
    ensures Sum(w, t, Below(t, p)) == Weigh(w, t[p])
  {
    FileIsLeaf(t, p);
    SumSingle(w, t, p);
  }
}
