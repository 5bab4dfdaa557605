/** s_fileListGetEntries: listings of directories and of mount points. */
module DirectoryListings {
  import opened Basics
  import opened Paths
  import opened FileTrees
  import opened FileSystems
  import opened Listings
  import opened FileLists

  const MAX_PATH_LENGTH := 256
  const UP := Data(DIR_UP, true, 0)

  const MOUNT_POINTS: seq<EntryName> :=
    ["app0:", "gro0:", "grw0:", "os0:", "pd0:", "sa0:", "savedata0:", "tm0:", "ud0:", "ur0:", "ux0:", "vd0:",
        "vs0:", "host0:"]

  /** p2s_addEndSlash: a slash is added unless there is one or the path is too long. */
  function AddEndSlash(path: EntryName): EntryName {
    if |path| < MAX_PATH_LENGTH - 2 && path[|path| - 1] != '/' then path + "/" else path
  }

  /** The list entry for a directory entry: folders get a slash. */
  function ToData(e: Dirent): Data {
    Data(if e.isDir then AddEndSlash(e.name) else e.name, e.isDir, e.size)
  }

  /** How many entries of a listing are folders. */
  ghost function FoldersIn(s: seq<Data>): nat {
    if s == [] then 0 else (if s[0].isFolder then 1 else 0) + FoldersIn(s[1..])
  }

  lemma {:induction false} FoldersAppend(a: seq<Data>, b: seq<Data>)
    ensures FoldersIn(a + b) == FoldersIn(a) + FoldersIn(b)
  {
    if a == [] {
      assert a + b == b;
    } else {
      assert (a + b)[1..] == a[1..] + b;
      FoldersAppend(a[1..], b);
    }
  }

  lemma FoldersInserted(s: seq<Data>, e: Data)
    ensures FoldersIn(Insert(s, e)) == FoldersIn(s) + if e.isFolder then 1 else 0
  {
    assert FoldersIn([e]) == if e.isFolder then 1 else 0 by {
      assert [e][1..] == [];
    }
    hide InsertAt, FoldersIn;
    var k := InsertAt(s, e);
    FoldersAppend(s[..k], s[k..]);
    FoldersAppend(s[..k], [e] + s[k..]);
    FoldersAppend([e], s[k..]);
    assert s == s[..k] + s[k..];
    assert Insert(s, e) == s[..k] + ([e] + s[k..]);
  }

  /** A directory entry that can be listed. */
  predicate Listable(e: Dirent) {
    IsDot(e.name) || (IsName(e.name) && |e.name| < MAX_PATH_LENGTH - 2)
  }

  /** The listing `s` after the entries of a stream were added one by one. */
  ghost function Listed(s: seq<Data>, entries: seq<Dirent>): seq<Data>
  {
    if entries == [] then s
    else
      var n := |entries| - 1;
      var before := Listed(s, entries[..n]);
      if IsDot(entries[n].name) then before else Insert(before, ToData(entries[n]))
  }

  lemma ListedNext(s: seq<Data>, entries: seq<Dirent>, i: nat)
    requires i < |entries|
    ensures Listed(s, entries[..i + 1])
         == if IsDot(entries[i].name) then Listed(s, entries[..i])
            else Insert(Listed(s, entries[..i]), ToData(entries[i]))
  {
    assert entries[..i + 1][..i] == entries[..i];
  }

  /** A directory whose names are short enough to get a slash. */
  ghost predicate ShortNames(t: Tree, p: Path) {
    forall n :: n in ChildNames(t, p) ==> |n| < MAX_PATH_LENGTH - 2
  }

  lemma SnapshotIsListable(t: Tree, p: Path, entries: seq<Dirent>)
    requires Snapshot(entries, t, p) && ShortNames(t, p)
    ensures forall i :: 0 <= i < |entries| ==> Listable(entries[i])
  {
    forall i | 0 <= i < |entries| && !IsDot(entries[i].name)
      ensures Listable(entries[i])
    {
      assert Describes(entries[i], t, p);
      assert entries[i].name in EntryNames(entries);
    }
  }

  /** The list's nodes are allocated, and these are the blocks allocated besides. */
  ghost predicate Holds(heap: Allocator, list: FileList, others: set<Entry>)
    reads heap, list
  {
    list.Nodes() !! others && heap.live == others + list.Nodes()
  }

  /** Adds a new node for `d` in its place. */
  method AddSorted(list: FileList, heap: Allocator, d: Data, ghost others: set<Entry>)
    requires list.Valid() && Holds(heap, list, others)
    modifies list, list.Nodes(), heap
    ensures Holds(heap, list, others) && heap.freed == old(heap.freed)
    ensures list.Valid() && list.Contents() == Insert(old(list.Contents()), d)
    ensures list.length == old(list.length) + 1
    ensures list.files == old(list.files) && list.folders == old(list.folders)
    ensures fresh(list.Nodes() - old(list.Nodes()))
  {
    hide Linked, Insert, InsertAt, Inserted, Datas;
    var entry := heap.Alloc(d);
    list.AddEntry(entry, true);
  }

  /** Counts and adds one directory entry. */
  method AddDirent(list: FileList, heap: Allocator, dir: Dirent, ghost others: set<Entry>)
    requires list.Valid() && Holds(heap, list, others)
    modifies list, list.Nodes(), heap
    ensures Holds(heap, list, others) && heap.freed == old(heap.freed)
    ensures list.Valid() && list.Contents() == Insert(old(list.Contents()), ToData(dir))
    ensures list.length - list.files - list.folders == old(list.length - list.files - list.folders)
    ensures FoldersIn(list.Contents()) - list.folders == old(FoldersIn(list.Contents()) - list.folders)
    ensures fresh(list.Nodes() - old(list.Nodes()))
  {
    hide Linked, Insert, Datas, At, FoldersIn;
    FoldersInserted(list.Contents(), ToData(dir));
    if dir.isDir {
      list.folders := list.folders + 1;
    } else {
      list.files := list.files + 1;
    }
    AddSorted(list, heap, ToData(dir), others);
  }

  /** Lists the directory at `path`: ".." first, then each entry in its place. A fault while reading ends the
      listing after the entries read so far, with the same return value as the end of the directory. */
  method GetDirectoryEntries(fs: FileSystem, list: FileList, heap: Allocator, path: string, ghost others: set<Entry>)
    returns (ret: int, ghost entries: seq<Dirent>, ghost read: nat)
    requires fs.Valid() && list.Valid() && ShortNames(fs.tree, Components(path)) && Holds(heap, list, others)
    modifies fs`faulted, list, list.Nodes(), heap
    ensures Holds(heap, list, others) && heap.freed == old(heap.freed)
    ensures list.Valid() && (old(fs.faulted) ==> fs.faulted)
    ensures fresh(list.Nodes() - old(list.Nodes()))
    ensures ret < 0 ==> list.Contents() == old(list.Contents()) && (fs.faulted || !IsDir(fs.tree, Components(path)))
    ensures ret >= 0 ==>
              && list.length - list.files - list.folders == old(list.length - list.files - list.folders) + 1
              && FoldersIn(list.Contents()) - list.folders == old(FoldersIn(list.Contents()) - list.folders) + 1
    ensures ret >= 0 ==>
              && ret == 0 && Snapshot(entries, fs.tree, Components(path))
              && (forall i :: 0 <= i < |entries| ==> Listable(entries[i]))
              && read <= |entries| && (!fs.faulted ==> read == |entries|)
              && list.Contents() == Listed(Insert(old(list.Contents()), UP), entries[..read])
  {
    hide Snapshot, Components, WellFormed, Linked, Insert, Listed, AddEndSlash, ShortNames, Datas, At, EntryNames,
        FoldersIn;
    ghost var t, p := fs.tree, Components(path);
    var dfd, stream := fs.Dopen(path);
    entries, read := stream, 0;
    if dfd < 0 {
      return dfd, entries, read;
    }
    SnapshotIsListable(t, p, stream);
    ghost var base := Insert(list.Contents(), UP);
    FoldersInserted(list.Contents(), UP);
    AddSorted(list, heap, UP, others);
    var i := 0;
    ListedNothing(base, stream);
    while true
      invariant i <= |stream| && list.Valid() && (old(fs.faulted) ==> fs.faulted)
      invariant Holds(heap, list, others) && heap.freed == old(heap.freed)
      invariant fresh(list.Nodes() - old(list.Nodes()))
      invariant list.length - list.files - list.folders == old(list.length - list.files - list.folders) + 1
      invariant FoldersIn(list.Contents()) - list.folders == old(FoldersIn(list.Contents()) - list.folders) + 1
      invariant list.Contents() == Listed(base, stream[..i])
      decreases |stream| - i
    {
      var res, dir := fs.Dread(stream, i);
      if res <= 0 {
        break;
      }
      ListedNext(base, stream, i);
      i := i + 1;
      if IsDot(dir.name) {
        continue;
      }
      AddDirent(list, heap, dir, others);
    }
    read := i;
    ret := 0;
  }

  lemma ListedNothing(s: seq<Data>, entries: seq<Dirent>)
    ensures Listed(s, entries[..0]) == s
  {
  }

  /** The data of the entries of a stream, "." and ".." left out. */
  ghost function EntryData(entries: seq<Dirent>): set<Data> {
    set i | 0 <= i < |entries| && !IsDot(entries[i].name) :: ToData(entries[i])
  }

  /** What a listing says about the node at `x`. */
  function DataAt(t: Tree, x: Path): Data
    requires x in t && x != [] && x[|x| - 1] != ""
  {
    var name: string := x[|x| - 1];
    ToData(Dirent(name, t[x].Dir?, FileSize(t[x])))
  }

  /** The data of the entries of a directory. */
  ghost function ChildData(t: Tree, p: Path): set<Data> {
    set x | x in t && p <= x && |x| == |p| + 1 && x[|p|] != "" :: DataAt(t, x)
  }

  lemma EntryDataNext(entries: seq<Dirent>, i: nat)
    requires i < |entries|
    ensures EntryData(entries[..i + 1])
         == EntryData(entries[..i]) + if IsDot(entries[i].name) then {} else {ToData(entries[i])}
  {
    hide ToData;
    var a, b := entries[..i], entries[..i + 1];
    assert forall k :: 0 <= k < i ==> a[k] == b[k];
    assert b[i] == entries[i];
  }

  /** Every complete stream of a directory yields the same data. */
  lemma SnapshotData(t: Tree, p: Path, entries: seq<Dirent>)
    requires WellFormed(t) && Snapshot(entries, t, p)
    ensures EntryData(entries) == ChildData(t, p)
  {
    hide ToData, WellFormed;
    forall i | 0 <= i < |entries| && !IsDot(entries[i].name)
      ensures ToData(entries[i]) in ChildData(t, p)
    {
      assert Describes(entries[i], t, p);
      var x := p + [entries[i].name];
      assert x[|p|] == entries[i].name && p <= x;
      assert ToData(entries[i]) == DataAt(t, x);
    }
    forall x | x in t && p <= x && |x| == |p| + 1 && x[|p|] != ""
      ensures DataAt(t, x) in EntryData(entries)
    {
      assert x[|p|] in ChildNames(t, p) && x[|p|] in EntryNames(entries);
      var i :| 0 <= i < |entries| && !IsDot(entries[i].name) && entries[i].name == x[|p|];
      assert Describes(entries[i], t, p);
      assert x == p + [entries[i].name];
      assert ToData(entries[i]) == DataAt(t, x);
    }
  }

  /** A listing in order that holds ".." and the entries `data`, each once. */
  ghost predicate ListingOf(s: seq<Data>, data: set<Data>) {
    && Sorted(s) && WellNamed(true, s) && Distinct(s)
    && (forall d :: d in s <==> d == UP || d in data)
  }

  lemma EntryNamed(e: Dirent)
    requires Listable(e) && !IsDot(e.name)
    ensures Named(true, ToData(e)) && Strip(ToData(e).name) == e.name && Rank(ToData(e)) > 0
    ensures KeyLess(UP, ToData(e)) && ToData(e).name != DIR_UP
  {
    if e.isDir {
      assert ToData(e).name == e.name + "/";
      assert (e.name + "/")[|e.name|] == '/';
    }
  }

  /** Different names have different keys. */
  lemma EntryKeys(e: Dirent, f: Dirent)
    requires Listable(e) && Listable(f) && !IsDot(e.name) && !IsDot(f.name) && e.name != f.name
    ensures KeyLess(ToData(e), ToData(f)) || KeyLess(ToData(f), ToData(e))
  {
    hide LexLess;
    EntryNamed(e);
    EntryNamed(f);
    KeyStrictWeakOrder(ToData(e), ToData(f), UP);
  }

  lemma UpAlone()
    ensures ListingOf([UP], {})
  {
  }

  lemma NewKey(t: Tree, p: Path, entries: seq<Dirent>, i: nat, s: seq<Data>)
    requires Snapshot(entries, t, p) && i < |entries| && !IsDot(entries[i].name)
    requires forall i :: 0 <= i < |entries| ==> Listable(entries[i])
    requires ListingOf(s, EntryData(entries[..i]))
    ensures CanJoin(true, s, ToData(entries[i]))
    ensures forall j :: 0 <= j < |s| ==> KeyLess(s[j], ToData(entries[i])) || KeyLess(ToData(entries[i]), s[j])
  {
    hide KeyLess, Named, ToData, Listable, Sorted, WellNamed, Distinct;
    EntryNamed(entries[i]);
    forall j | 0 <= j < |s|
      ensures KeyLess(s[j], ToData(entries[i])) || KeyLess(ToData(entries[i]), s[j])
    {
      assert s[j] in s;
      if s[j] != UP {
        var k :| 0 <= k < |entries[..i]| && !IsDot(entries[..i][k].name) && s[j] == ToData(entries[..i][k]);
        assert entries[..i][k].name in EntryNames(entries[..i]);
        EntryKeys(entries[k], entries[i]);
      }
    }
  }

  lemma JoinedListing(s: seq<Data>, data: set<Data>, e: Data)
    requires ListingOf(s, data) && CanJoin(true, s, e)
    requires forall j :: 0 <= j < |s| ==> KeyLess(s[j], e) || KeyLess(e, s[j])
    ensures ListingOf(Insert(s, e), data + {e}) && |Insert(s, e)| == |s| + 1
  {
    hide KeyLess, InsertAt, Sorted, WellNamed, Distinct, CanJoin;
    InsertKeepsOrder(true, s, e);
    InsertKeepsDistinct(s, e);
    InsertHolds(s, e);
  }

  /** Adding a stream's entries one by one to ".." gives a listing of them. */
  lemma {:induction false} ListedIsListing(t: Tree, p: Path, entries: seq<Dirent>, i: nat)
    requires Snapshot(entries, t, p) && i <= |entries|
    requires forall i :: 0 <= i < |entries| ==> Listable(entries[i])
    ensures ListingOf(Listed([UP], entries[..i]), EntryData(entries[..i]))
  {
    hide Snapshot, Insert, ToData, Listable, ListingOf, Listed, CanJoin, KeyLess;
    if i == 0 {
      ListedNothing([UP], entries);
      UpAlone();
      assert EntryData(entries[..0]) == {};
    } else {
      ListedIsListing(t, p, entries, i - 1);
      ListedNext([UP], entries, i - 1);
      EntryDataNext(entries, i - 1);
      if IsDot(entries[i - 1].name) {
        assert EntryData(entries[..i]) == EntryData(entries[..i - 1]);
      } else {
        var s := Listed([UP], entries[..i - 1]);
        NewKey(t, p, entries, i - 1, s);
        JoinedListing(s, EntryData(entries[..i - 1]), ToData(entries[i - 1]));
      }
    }
  }

  /** A listing built from an empty list does not depend on the order the device yields the entries in:
      it starts with "..", is in order, and holds ".." and the directory's entries, each once. */
  lemma ListingIsCanonical(t: Tree, p: Path, one: seq<Dirent>, other: seq<Dirent>)
    requires WellFormed(t) && ShortNames(t, p)
    requires Snapshot(one, t, p) && Snapshot(other, t, p)
    ensures Insert([], UP) == [UP]
    ensures var s := Listed([UP], one);
            && s == Listed([UP], other)
            && ListingOf(s, ChildData(t, p))
            && s != [] && s[0] == UP
  {
    hide Snapshot, Sorted, WellNamed, Distinct, KeyLess, WellFormed, Listed;
    SnapshotIsListable(t, p, one);
    SnapshotIsListable(t, p, other);
    SnapshotData(t, p, one);
    SnapshotData(t, p, other);
    ListedIsListing(t, p, one, |one|);
    ListedIsListing(t, p, other, |other|);
    assert one[..|one|] == one && other[..|other|] == other;
    SortedIsUnique(Listed([UP], one), Listed([UP], other));
    UpIsFirst(Listed([UP], one), ChildData(t, p));
  }

  /** What a listing says about a directory: for each entry its name, with a slash for a folder, whether it is one,
      and the size of a file; and nothing else but "..". */
  ghost predicate SaysOf(s: seq<Data>, t: Tree, p: Path) {
    && (forall n :: p + [n] in t ==>
          && n != ""
          && Data(if t[p + [n]].Dir? then n + "/" else n, t[p + [n]].Dir?,
                  if t[p + [n]].Dir? then 0 else |t[p + [n]].bytes|) in s)
    && (forall d :: d in s && d != Data("..", true, 0) ==>
          exists n :: p + [n] in t && n != "" && d.name == (if d.isFolder then n + "/" else n)
                      && d.isFolder == t[p + [n]].Dir?
                      && d.size == if d.isFolder then 0 else |t[p + [n]].bytes|)
  }

  lemma DataOfChild(t: Tree, p: Path, n: string)
    requires WellFormed(t) && ShortNames(t, p) && p + [n] in t
    ensures n != ""
    ensures DataAt(t, p + [n])
         == Data(if t[p + [n]].Dir? then n + "/" else n, t[p + [n]].Dir?,
                 if t[p + [n]].Dir? then 0 else |t[p + [n]].bytes|)
    ensures DataAt(t, p + [n]) in ChildData(t, p)
  {
    var x := p + [n];
    assert x[|p|] == n && IsName(n) && p <= x;
    ChildNamesHold(t, p, n);
    assert n[|n| - 1] in n;
  }

  lemma ListingSays(t: Tree, p: Path, s: seq<Data>)
    requires WellFormed(t) && ShortNames(t, p) && ListingOf(s, ChildData(t, p))
    ensures SaysOf(s, t, p)
  {
    hide WellFormed, ShortNames, Sorted, WellNamed, Distinct, DataAt;
    forall n | p + [n] in t
      ensures n != ""
      ensures Data(if t[p + [n]].Dir? then n + "/" else n, t[p + [n]].Dir?,
                   if t[p + [n]].Dir? then 0 else |t[p + [n]].bytes|) in s
    {
      DataOfChild(t, p, n);
    }
    forall d | d in s && d != Data("..", true, 0)
      ensures exists n :: p + [n] in t && n != "" && d.name == (if d.isFolder then n + "/" else n)
                          && d.isFolder == t[p + [n]].Dir?
                          && d.size == if d.isFolder then 0 else |t[p + [n]].bytes|
    {
      ChildOfData(t, p, d);
    }
  }

  lemma ChildOfData(t: Tree, p: Path, d: Data)
    requires WellFormed(t) && ShortNames(t, p) && d in ChildData(t, p)
    ensures exists n :: p + [n] in t && n != "" && d.name == (if d.isFolder then n + "/" else n)
                        && d.isFolder == t[p + [n]].Dir?
                        && d.size == if d.isFolder then 0 else |t[p + [n]].bytes|
  {
    hide WellFormed, ShortNames, DataAt;
    var x :| x in t && p <= x && |x| == |p| + 1 && x[|p|] != "" && d == DataAt(t, x);
    assert x == p + [x[|p|]];
    DataOfChild(t, p, x[|p|]);
  }

  lemma UpIsFirst(s: seq<Data>, data: set<Data>)
    requires ListingOf(s, data)
    ensures s != [] && s[0] == UP
  {
    hide LexLess;
    assert UP in s;
    var i :| 0 <= i < |s| && s[i] == UP;
    assert i > 0 ==> KeyLess(s[i], s[0]);
  }

  /** The list data of those of the first `i` mount points that exist. */
  ghost function Mounted(t: Tree, freeSizes: seq<nat>, i: nat): multiset<Data>
    requires i <= |MOUNT_POINTS| == |freeSizes|
  {
    if i == 0 then multiset{}
    else
      Mounted(t, freeSizes, i - 1)
      + if Components(MOUNT_POINTS[i - 1]) !in t then multiset{}
        else multiset{Data(MOUNT_POINTS[i - 1], true, freeSizes[i - 1])}
  }

  lemma MountPointName(i: nat)
    requires i < |MOUNT_POINTS|
    ensures '/' !in MOUNT_POINTS[i] && MOUNT_POINTS[i] != DIR_UP
  {
  }

  lemma MountPointJoins(s: seq<Data>, e: Data, i: nat)
    requires i < |MOUNT_POINTS| && e.name == MOUNT_POINTS[i] && e.isFolder
    ensures CanJoin(false, s, e)
  {
    MountPointName(i);
  }

  /** The first `i` mount points were added to `base`: all that exist, or some of them after a fault; an ordered
      listing stays one. */
  ghost predicate MountsListed(base: seq<Data>, s: seq<Data>, t: Tree, freeSizes: seq<nat>, i: nat, faulted: bool)
    requires i <= |MOUNT_POINTS| == |freeSizes|
  {
    && (Sorted(base) && WellNamed(false, base) ==> Sorted(s) && WellNamed(false, s))
    && multiset(base) <= multiset(s) <= multiset(base) + Mounted(t, freeSizes, i)
    && (!faulted ==> multiset(s) == multiset(base) + Mounted(t, freeSizes, i))
  }

  lemma NothingMounted(base: seq<Data>, t: Tree, freeSizes: seq<nat>, faulted: bool)
    requires |freeSizes| == |MOUNT_POINTS|
    ensures MountsListed(base, base, t, freeSizes, 0, faulted)
  {
  }

  /** A mount point that did not answer. */
  lemma MountSkipped(base: seq<Data>, s: seq<Data>, t: Tree, freeSizes: seq<nat>, i: nat, before: bool, after: bool)
    requires i < |MOUNT_POINTS| == |freeSizes| && MountsListed(base, s, t, freeSizes, i, before) && (before ==> after)
    requires after || Components(MOUNT_POINTS[i]) !in t
    ensures MountsListed(base, s, t, freeSizes, i + 1, after)
  {
    hide Sorted, WellNamed, Components;
  }

  lemma MountAdded(base: seq<Data>, s: seq<Data>, t: Tree, freeSizes: seq<nat>, i: nat, before: bool, after: bool)
    requires i < |MOUNT_POINTS| == |freeSizes| && MountsListed(base, s, t, freeSizes, i, before) && (before ==> after)
    requires Components(MOUNT_POINTS[i]) in t
    ensures MountsListed(base, Insert(s, Data(MOUNT_POINTS[i], true, freeSizes[i])), t, freeSizes, i + 1, after)
  {
    hide Sorted, WellNamed, Components, Insert, CanJoin;
    var d := Data(MOUNT_POINTS[i], true, freeSizes[i]);
    MountPointJoins(s, d, i);
    InsertIsPermutation(s, d);
    if Sorted(base) && WellNamed(false, base) {
      InsertKeepsOrder(false, s, d);
    }
  }

  /** Adds the mount points there are, without ".." and without slashes. The free sizes are what the devices
      report. */
  method GetMountPointEntries(fs: FileSystem, list: FileList, heap: Allocator, freeSizes: seq<nat>,
                              ghost others: set<Entry>)
    returns (ret: int)
    requires fs.Valid() && list.Valid() && |freeSizes| == |MOUNT_POINTS| && Holds(heap, list, others)
    modifies fs`faulted, list, list.Nodes(), heap
    ensures Holds(heap, list, others) && heap.freed == old(heap.freed)
    ensures ret == 0 && list.Valid() && (old(fs.faulted) ==> fs.faulted)
    ensures fresh(list.Nodes() - old(list.Nodes()))
    ensures list.length - list.folders == old(list.length - list.folders) && list.files == old(list.files)
    ensures MountsListed(old(list.Contents()), list.Contents(), fs.tree, freeSizes, |MOUNT_POINTS|, fs.faulted)
  {
    hide Linked, Datas, At, WellFormed, Insert, Components, MountsListed;
    var i := 0;
    ghost var base := list.Contents();
    NothingMounted(base, fs.tree, freeSizes, fs.faulted);
    while i < |MOUNT_POINTS|
      invariant i <= |MOUNT_POINTS| && list.Valid() && (old(fs.faulted) ==> fs.faulted)
      invariant Holds(heap, list, others) && heap.freed == old(heap.freed)
      invariant fresh(list.Nodes() - old(list.Nodes()))
      invariant list.length - list.folders == old(list.length - list.folders) && list.files == old(list.files)
      invariant MountsListed(base, list.Contents(), fs.tree, freeSizes, i, fs.faulted)
    {
      ghost var before := fs.faulted;
      var res, isDir, size := fs.Getstat(MOUNT_POINTS[i]);
      if res >= 0 {
        MountAdded(base, list.Contents(), fs.tree, freeSizes, i, before, fs.faulted);
        AddSorted(list, heap, Data(MOUNT_POINTS[i], true, freeSizes[i]), others);
        list.folders := list.folders + 1;
      } else {
        MountSkipped(base, list.Contents(), fs.tree, freeSizes, i, before, fs.faulted);
      }
      i := i + 1;
    }
    return 0;
  }

  /** s_fileListGetEntries: the home path adds the mount points, any other path its directory, to whatever the list
      holds. */
  method GetEntries(fs: FileSystem, list: FileList, heap: Allocator, path: string, freeSizes: seq<nat>,
                    ghost others: set<Entry>)
    returns (ret: int, ghost entries: seq<Dirent>, ghost read: nat)
    requires fs.Valid() && list.Valid() && |freeSizes| == |MOUNT_POINTS| && Holds(heap, list, others)
    requires path != HOME_PATH ==> ShortNames(fs.tree, Components(path))
    modifies fs`faulted, list, list.Nodes(), heap
    ensures list.Valid() && Holds(heap, list, others) && heap.freed == old(heap.freed)
    ensures old(fs.faulted) ==> fs.faulted
    ensures path == HOME_PATH ==>
              && ret == 0 && list.files == old(list.files)
              && list.length - list.folders == old(list.length - list.folders)
              && MountsListed(old(list.Contents()), list.Contents(), fs.tree, freeSizes, |MOUNT_POINTS|, fs.faulted)
    ensures path != HOME_PATH && ret < 0 ==>
              list.Contents() == old(list.Contents()) && (fs.faulted || !IsDir(fs.tree, Components(path)))
    ensures path != HOME_PATH && ret >= 0 ==>
              && list.length - list.files - list.folders == old(list.length - list.files - list.folders) + 1
              && FoldersIn(list.Contents()) - list.folders == old(FoldersIn(list.Contents()) - list.folders) + 1
              && Snapshot(entries, fs.tree, Components(path))
              && (forall i :: 0 <= i < |entries| ==> Listable(entries[i]))
              && read <= |entries| && (!fs.faulted ==> read == |entries|)
              && list.Contents() == Listed(Insert(old(list.Contents()), UP), entries[..read])
  {
    hide Linked, Datas, At, Listed, Insert, Components, WellFormed, ShortNames, Snapshot, MountsListed, FoldersIn;
    entries, read := [], 0;
    if path == HOME_PATH {
      ret := GetMountPointEntries(fs, list, heap, freeSizes, others);
    } else {
      ret, entries, read := GetDirectoryEntries(fs, list, heap, path, others);
    }
  }

  lemma NoData(spine: seq<Entry>)
    ensures Datas(spine) == [] <==> spine == []
  {
  }

  /** The mount points that answered, in order. */
  ghost predicate MountPointListing(fs: FileSystem, list: FileList, freeSizes: seq<nat>)
    requires |freeSizes| == |MOUNT_POINTS|
    reads fs, list
  {
    && list.length == list.folders && list.files == 0
    && Sorted(list.Contents()) && WellNamed(false, list.Contents())
    && multiset(list.Contents()) <= Mounted(fs.tree, freeSizes, |MOUNT_POINTS|)
    && (!fs.faulted ==> multiset(list.Contents()) == Mounted(fs.tree, freeSizes, |MOUNT_POINTS|))
  }

  /** ".." and the directory's entries, each once, in order, with the folders and the files counted; some of the
      entries after a fault. */
  ghost predicate DirectoryListing(fs: FileSystem, list: FileList, p: Path)
    reads fs, list
  {
    && list.length == list.files + list.folders + 1
    && FoldersIn(list.Contents()) == list.folders + 1
    && (exists data | data <= ChildData(fs.tree, p) ::
          ListingOf(list.Contents(), data) && (!fs.faulted ==> data == ChildData(fs.tree, p)))
    && (!fs.faulted ==> SaysOf(list.Contents(), fs.tree, p))
  }

  lemma MountsAlone(s: seq<Data>, t: Tree, freeSizes: seq<nat>, faulted: bool)
    requires |freeSizes| == |MOUNT_POINTS| && MountsListed([], s, t, freeSizes, |MOUNT_POINTS|, faulted)
    ensures Sorted(s) && WellNamed(false, s)
    ensures multiset(s) <= Mounted(t, freeSizes, |MOUNT_POINTS|)
    ensures !faulted ==> multiset(s) == Mounted(t, freeSizes, |MOUNT_POINTS|)
  {
    hide Mounted, KeyLess, Named;
    assert multiset{} + Mounted(t, freeSizes, |MOUNT_POINTS|) == Mounted(t, freeSizes, |MOUNT_POINTS|);
  }

  /** What was read before a fault is a listing of part of the directory. */
  lemma PartListed(t: Tree, p: Path, entries: seq<Dirent>, read: nat)
    requires WellFormed(t) && Snapshot(entries, t, p) && forall i :: 0 <= i < |entries| ==> Listable(entries[i])
    requires read <= |entries|
    ensures EntryData(entries[..read]) <= ChildData(t, p)
    ensures read == |entries| ==> EntryData(entries[..read]) == ChildData(t, p)
    ensures Insert([], UP) == [UP] && ListingOf(Listed([UP], entries[..read]), EntryData(entries[..read]))
  {
    hide Snapshot, Listed, ListingOf, Listable, WellFormed, ToData;
    ListedIsListing(t, p, entries, read);
    SnapshotData(t, p, entries);
    assert entries[..|entries|] == entries;
    forall i | 0 <= i < read && !IsDot(entries[i].name)
      ensures ToData(entries[i]) in EntryData(entries)
    {
    }
  }

  /** Listing anew, as a change of directory does: the old nodes are freed, each once, and whatever the list held
      before, it is the listing of `path` afterwards. No block is lost or freed twice. */
  method Refresh(fs: FileSystem, list: FileList, heap: Allocator, path: string, freeSizes: seq<nat>,
                 ghost others: set<Entry>)
    returns (ret: int)
    requires fs.Valid() && list.Valid() && |freeSizes| == |MOUNT_POINTS| && Holds(heap, list, others)
    requires path != HOME_PATH ==> ShortNames(fs.tree, Components(path))
    modifies fs`faulted, list, list.Nodes(), heap
    ensures list.Valid() && Holds(heap, list, others) && heap.freed == old(heap.freed) + old(list.spine)
    ensures old(fs.faulted) ==> fs.faulted
    ensures path == HOME_PATH ==> ret == 0 && MountPointListing(fs, list, freeSizes)
    ensures path != HOME_PATH ==> if ret < 0 then list.spine == [] && (fs.faulted || !IsDir(fs.tree, Components(path)))
                                  else DirectoryListing(fs, list, Components(path))
  {
    hide Linked, Datas, At, Listed, Insert, Components, WellFormed, ShortNames, Snapshot, MountsListed, ListingOf;
    hide Sorted, WellNamed, Mounted, SaysOf;
    list.Empty(heap);
    NoData(list.spine);
    assert FoldersIn(list.Contents()) == 0;
    ghost var entries, read;
    ret, entries, read := GetEntries(fs, list, heap, path, freeSizes, others);
    NoData(list.spine);
    if path == HOME_PATH {
      MountsAlone(list.Contents(), fs.tree, freeSizes, fs.faulted);
    } else if ret >= 0 {
      PartListed(fs.tree, Components(path), entries, read);
      if !fs.faulted {
        ListingSays(fs.tree, Components(path), list.Contents());
      }
    }
  }
}
