/** The doubly linked file list of psp2shell_m/source/file.c: sorted insertion and emptying. */
module FileLists {
  import opened Listings

  /** A node. Its name, kind and size are set before it is added and stay. */
  class Entry {
    var next: Entry?
    var previous: Entry?
    const data: Data

    constructor (data: Data)
      ensures this.data == data
    {
      this.data := data;
      next, previous := null, null;
    }
  }

  /** The blocks p2s_malloc gave out and p2s_free has not taken back. */
  class Allocator {
    ghost var live: set<Entry>
    ghost var freed: seq<Entry>

    constructor ()
      ensures live == {} && freed == []
    {
      live, freed := {}, [];
    }

    method Alloc(data: Data) returns (entry: Entry)
      modifies this
      ensures fresh(entry) && entry.data == data
      ensures live == old(live) + {entry} && freed == old(freed)
    {
      entry := new Entry(data);
      live := live + {entry};
    }

    method Free(entry: Entry)
      requires entry in live
      modifies this
      ensures live == old(live) - {entry} && freed == old(freed) + [entry]
    {
      live := live - {entry};
      freed := freed + [entry];
    }
  }

  /** The node at a position, null on either side. */
  ghost function At(spine: seq<Entry>, i: int): Entry? {
    if 0 <= i < |spine| then spine[i] else null
  }

  /** The nodes as a sequence, and what they must look like. */
  ghost predicate Linked(spine: seq<Entry>)
    reads spine
  {
    && (forall i, j :: 0 <= i < j < |spine| ==> spine[i] != spine[j])
    && (forall i {:trigger spine[i].next} :: 0 <= i < |spine| ==> spine[i].next == At(spine, i + 1))
    && (forall i {:trigger spine[i].previous} :: 0 <= i < |spine| ==> spine[i].previous == At(spine, i - 1))
  }

  ghost function Datas(spine: seq<Entry>): (s: seq<Data>)
    ensures |s| == |spine| && forall i :: 0 <= i < |s| ==> s[i] == spine[i].data
  {
    seq(|spine|, i requires 0 <= i < |spine| => spine[i].data)
  }

  function Inserted<T>(s: seq<T>, k: nat, x: T): (r: seq<T>)
    requires k <= |s|
    ensures |r| == |s| + 1
  {
    s[..k] + [x] + s[k..]
  }

  /** `entry` was linked in at position `k` of the nodes, and no other link changed. */
  ghost predicate Spliced(nodes: seq<Entry>, k: nat, entry: Entry)
    reads nodes, entry
  {
    && entry.next == At(nodes, k)
    && entry.previous == At(nodes, k - 1)
    && (forall i {:trigger nodes[i].next} :: 0 <= i < |nodes| ==>
         nodes[i].next == if i == k - 1 then entry else At(nodes, i + 1))
    && (forall i {:trigger nodes[i].previous} :: 0 <= i < |nodes| ==>
         nodes[i].previous == if i == k then entry else At(nodes, i - 1))
  }

  lemma SplicedIsLinked(nodes: seq<Entry>, k: nat, entry: Entry)
    requires k <= |nodes| && entry !in nodes && Spliced(nodes, k, entry)
    requires forall i, j :: 0 <= i < j < |nodes| ==> nodes[i] != nodes[j]
    ensures Linked(Inserted(nodes, k, entry))
  {
    hide At, Inserted;
    var s := Inserted(nodes, k, entry);
    InsertedDistinct(nodes, k, entry);
    forall i | 0 <= i < |s|
      ensures s[i].next == At(s, i + 1) && s[i].previous == At(s, i - 1)
    {
      AtInserted(nodes, k, entry, i - 1);
      AtInserted(nodes, k, entry, i);
      AtInserted(nodes, k, entry, i + 1);
    }
  }

  lemma AtInserted(nodes: seq<Entry>, k: nat, entry: Entry, j: int)
    requires k <= |nodes|
    ensures At(Inserted(nodes, k, entry), j)
         == if j < k then At(nodes, j) else if j == k then entry else At(nodes, j - 1)
    ensures 0 <= j <= |nodes| ==>
              Inserted(nodes, k, entry)[j] == if j < k then nodes[j] else if j == k then entry else nodes[j - 1]
  {
  }

  lemma InsertedHolds(nodes: seq<Entry>, k: nat, entry: Entry)
    requires k <= |nodes|
    ensures (set e | e in Inserted(nodes, k, entry)) == (set e | e in nodes) + {entry}
  {
    assert nodes == nodes[..k] + nodes[k..];
  }

  lemma InsertedDistinct(nodes: seq<Entry>, k: nat, entry: Entry)
    requires k <= |nodes| && entry !in nodes
    requires forall i, j :: 0 <= i < j < |nodes| ==> nodes[i] != nodes[j]
    ensures var s := Inserted(nodes, k, entry); forall i, j :: 0 <= i < j < |s| ==> s[i] != s[j]
  {
  }

  lemma InsertedDatas(nodes: seq<Entry>, k: nat, entry: Entry)
    requires k <= |nodes|
    ensures Datas(Inserted(nodes, k, entry)) == Inserted(Datas(nodes), k, entry.data)
    ensures k == InsertAt(Datas(nodes), entry.data) ==>
              Datas(Inserted(nodes, k, entry)) == Insert(Datas(nodes), entry.data)
    ensures k == |nodes| ==> Datas(Inserted(nodes, k, entry)) == Datas(nodes) + [entry.data]
  {
  }

  lemma NeighboursDiffer(spine: seq<Entry>)
    requires Linked(spine)
    ensures forall i, j :: 0 <= i < |spine| && 0 <= j < |spine| && spine[i] == spine[j] ==> i == j
  {
  }

  /** Setting the links between `previous`, `entry` and `p`, and no others, links `entry` in. */
  lemma LinksAround(nodes: seq<Entry>, k: nat, entry: Entry, previous: Entry?, p: Entry?)
    requires k <= |nodes| && forall i, j :: 0 <= i < j < |nodes| ==> nodes[i] != nodes[j]
    requires previous == At(nodes, k - 1) && p == At(nodes, k)
    requires entry.next == p && entry.previous == previous
    requires previous != null ==> previous.next == entry
    requires p != null ==> p.previous == entry
    requires forall i {:trigger nodes[i].next} :: 0 <= i < |nodes| && nodes[i] != previous ==>
              nodes[i].next == At(nodes, i + 1)
    requires forall i {:trigger nodes[i].previous} :: 0 <= i < |nodes| && nodes[i] != p ==>
              nodes[i].previous == At(nodes, i - 1)
    ensures Spliced(nodes, k, entry)
  {
  }

  class FileList {
    var head: Entry?
    var tail: Entry?
    var length: int
    var files: int
    var folders: int
    ghost var spine: seq<Entry>

    ghost predicate Valid()
      reads this, spine
    {
      && Linked(spine)
      && head == At(spine, 0)
      && tail == At(spine, |spine| - 1)
      && length == |spine|
    }

    ghost function Nodes(): set<Entry>
      reads this
    {
      set e | e in spine
    }

    ghost function Contents(): seq<Data>
      reads this
    {
      Datas(spine)
    }

    constructor ()
      ensures Valid() && spine == [] && files == 0 && folders == 0
    {
      head, tail, length, files, folders, spine := null, null, 0, 0, 0, [];
    }

    /** The insertion scan: the node the new entry goes in front of, which is number `at`, and the one before it. */
    method Scan(entry: Entry, ghost at: nat) returns (previous: Entry?, p: Entry?)
      requires Valid() && entry !in spine && at == InsertAt(Contents(), entry.data)
      ensures p == At(spine, at)
      ensures previous == At(spine, at - 1)
    {
      hide InsertAt, NameGoesBefore, Datas;
      p := head;
      previous := null;
      ghost var k := 0;
      while p != null
        invariant k <= |spine|
        invariant p == At(spine, k)
        invariant previous == At(spine, k - 1)
        invariant forall i :: 0 <= i < k ==> !StopsBefore(entry.data, spine[i].data)
        decreases |spine| - k
      {
        if entry.data.isFolder && !p.data.isFolder {
          break;
        }
        if entry.data.name == DIR_UP {
          break;
        }
        if p.data.name != DIR_UP {
          if entry.data.isFolder == p.data.isFolder {
            if NameGoesBefore(entry.data.name, p.data.name) {
              break;
            }
          }
        }
        assert spine[k].next == At(spine, k + 1);
        previous := p;
        p := p.next;
        k := k + 1;
      }
      FirstStop(Contents(), entry.data, k);
    }

    /** Links `entry` in where the scan ends: as the new head, the new tail, or between two nodes. */
    method LinkSorted(entry: Entry) returns (ghost k: nat)
      requires Valid() && entry !in spine && spine != []
      requires entry.next == null && entry.previous == null
      modifies this`head, this`tail
      modifies Nodes(), entry
      ensures k == InsertAt(old(Contents()), entry.data) <= |spine|
      ensures Spliced(spine, k, entry)
      ensures head == if k == 0 then entry else old(head)
      ensures tail == if k == |spine| then entry else old(tail)
    {
      hide InsertAt, Datas, Spliced;
      k := InsertAt(Contents(), entry.data);
      var previous, p := Scan(entry, k);
      if previous == null { // new head
        entry.next := p;
        p.previous := entry;
        head := entry;
      } else if previous.next == null { // new tail
        var last := tail;
        last.next := entry;
        entry.previous := last;
        tail := entry;
      } else { // in the middle
        previous.next := entry;
        entry.previous := previous;
        entry.next := p;
        p.previous := entry;
      }
      LinksAround(spine, k, entry, previous, p);
    }

    /** The ways of linking `entry` in: as the only node, in order, or at the end. */
    method LinkIn(entry: Entry, sort: bool) returns (ghost k: nat)
      requires Valid() && entry !in spine
      modifies this`head, this`tail
      modifies Nodes(), entry
      ensures k == (if sort then InsertAt(old(Contents()), entry.data) else |spine|) <= |spine|
      ensures Spliced(spine, k, entry)
      ensures head == if k == 0 then entry else old(head)
      ensures tail == if k == |spine| then entry else old(tail)
    {
      hide InsertAt, Datas;
      NeighboursDiffer(spine);
      entry.next := null;
      entry.previous := null;
      k := |spine|;
      if head == null {
        head := entry;
        tail := entry;
      } else if sort {
        k := LinkSorted(entry);
      } else {
        var last := tail;
        last.next := entry;
        entry.previous := last;
        tail := entry;
      }
    }

    /** Adds `entry`: at the place the scan finds, or at the end when no order is asked for. */
    method AddEntry(entry: Entry, sort: bool)
      requires Valid() && entry !in spine
      modifies this`head, this`tail, this`length, this`spine
      modifies Nodes(), entry
      ensures Valid()
      ensures spine == Inserted(old(spine), if sort then InsertAt(old(Contents()), entry.data) else |old(spine)|, entry)
      ensures Contents() == if sort then Insert(old(Contents()), entry.data) else old(Contents()) + [entry.data]
      ensures length == old(length) + 1
      ensures Nodes() == old(Nodes()) + {entry}
    {
      hide InsertAt, Datas, At, Inserted, Insert, Spliced;
      ghost var nodes := spine;
      ghost var k := LinkIn(entry, sort);
      InsertedDatas(nodes, k, entry);
      InsertedHolds(nodes, k, entry);
      AtInserted(nodes, k, entry, |nodes|);
      AtInserted(nodes, k, entry, 0);
      SplicedIsLinked(nodes, k, entry);
      length := length + 1;
      spine := Inserted(nodes, k, entry);
    }

    /** Frees every node and resets the list. */
    method Empty(heap: Allocator)
      requires Valid() && forall e :: e in spine ==> e in heap.live
      modifies this, heap
      ensures Valid() && spine == [] && files == 0 && folders == 0
      ensures heap.freed == old(heap.freed) + old(spine)
      ensures heap.live == old(heap.live) - (set e | e in old(spine))
    {
      var entry := head;
      ghost var nodes, k := spine, 0;
      while entry != null
        invariant k <= |nodes|
        invariant entry == At(nodes, k)
        invariant heap.freed == old(heap.freed) + nodes[..k]
        invariant heap.live == old(heap.live) - (set e | e in nodes[..k])
        decreases |nodes| - k
      {
        assert entry in heap.live; // not yet freed, so its link may be read
        assert nodes[k].next == At(nodes, k + 1);
        var next := entry.next;
        heap.Free(entry);
        entry := next;
        assert nodes[..k + 1] == nodes[..k] + [nodes[k]];
        k := k + 1;
      }
      head := null;
      tail := null;
      length := 0;
      files := 0;
      folders := 0;
      spine := [];
    }
  }

  lemma {:induction false} FirstStop(s: seq<Data>, e: Data, k: nat)
    requires k <= |s|
    requires forall i :: 0 <= i < k ==> !StopsBefore(e, s[i])
    requires k < |s| ==> StopsBefore(e, s[k])
    ensures InsertAt(s, e) == k
  {
    hide StopsBefore;
    var j := InsertAt(s, e);
  }
}
