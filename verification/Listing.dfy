/** The order of a file listing: the comparison in the insertion scan of s_fileListAddEntry, and the order it
    decides. */
module Listings {
  import opened Paths

  const DIR_UP := ".."

  /** What an s_FileListEntry says about its file. */
  datatype Data = Data(name: EntryName, isFolder: bool, size: nat)

  predicate EndsWithSlash(name: string) {
    name != "" && name[|name| - 1] == '/'
  }

  /** The name without a trailing slash. */
  function Strip(name: string): string {
    if EndsWithSlash(name) then name[..|name| - 1] else name
  }

  /** The sign of strncmp over the first `n` characters. */
  function Strncmp(a: string, b: string, n: nat): int
    requires n <= |a| && n <= |b|
  {
    if n == 0 then 0
    else if a[0] != b[0] then a[0] as int - b[0] as int
    else Strncmp(a[1..], b[1..], n - 1)
  }

  /** The name test of the scan: lengths cut to the shorter one, less a trailing slash. */
  predicate NameGoesBefore(a: EntryName, b: EntryName) {
    var shorter := if |a| < |b| then |a| else |b|;
    var len := if a[shorter - 1] == '/' || b[shorter - 1] == '/' then shorter - 1 else shorter;
    var diff := Strncmp(a, b, len);
    diff < 0 || (diff == 0 && |a| < |b|)
  }

  /** The five tests: whether the scan for `e` stops in front of `p`. */
  predicate StopsBefore(e: Data, p: Data) {
    || (e.isFolder && !p.isFolder)
    || e.name == DIR_UP
    || (p.name != DIR_UP && e.isFolder == p.isFolder && NameGoesBefore(e.name, p.name))
  }

  /** The names one listing holds: slashes only at the end, and on all folders but ".." or on none. */
  predicate Named(slashed: bool, d: Data) {
    && '/' !in d.name[..|d.name| - 1]
    && (d.name == DIR_UP ==> d.isFolder)
    && (d.name != DIR_UP ==> EndsWithSlash(d.name) == (d.isFolder && slashed))
  }

  predicate LexLess(a: string, b: string) {
    b != "" && (a == "" || a[0] < b[0] || (a[0] == b[0] && LexLess(a[1..], b[1..])))
  }

  /** "..", then folders, then files. */
  function Rank(d: Data): nat {
    if d.name == DIR_UP then 0 else if d.isFolder then 1 else 2
  }

  /** The order a listing is meant to have. */
  predicate KeyLess(d: Data, e: Data) {
    Rank(d) < Rank(e) || (Rank(d) == Rank(e) && LexLess(Strip(d.name), Strip(e.name)))
  }

  lemma {:induction false} LexIrreflexive(a: string)
    ensures !LexLess(a, a)
  {
    if a != "" {
      LexIrreflexive(a[1..]);
    }
  }

  lemma {:induction false} LexTransitive(a: string, b: string, c: string)
    requires LexLess(a, b) && LexLess(b, c)
    ensures LexLess(a, c)
  {
    if a != "" && a[0] == b[0] == c[0] {
      LexTransitive(a[1..], b[1..], c[1..]);
    }
  }

  lemma {:induction false} LexTotal(a: string, b: string)
    ensures LexLess(a, b) || LexLess(b, a) || a == b
  {
    if a != "" && b != "" && a[0] == b[0] {
      LexTotal(a[1..], b[1..]);
      assert a == [a[0]] + a[1..] && b == [b[0]] + b[1..];
    }
  }

  /** The order is a strict weak order: irreflexive, transitive, and so is its incomparability,
      which is equality of rank and stripped name. */
  lemma KeyStrictWeakOrder(d: Data, e: Data, f: Data)
    ensures !KeyLess(d, d)
    ensures KeyLess(d, e) && KeyLess(e, f) ==> KeyLess(d, f)
    ensures !KeyLess(d, e) && !KeyLess(e, f) ==> !KeyLess(d, f)
    ensures !KeyLess(d, e) && !KeyLess(e, d) <==> Rank(d) == Rank(e) && Strip(d.name) == Strip(e.name)
  {
    var a, b, c := Strip(d.name), Strip(e.name), Strip(f.name);
    LexIrreflexive(a);
    LexIrreflexive(b);
    LexTotal(a, b);
    LexTotal(b, c);
    if LexLess(a, b) && LexLess(b, c) {
      LexTransitive(a, b, c);
    }
    if LexLess(c, b) && LexLess(b, a) {
      LexTransitive(c, b, a);
    }
    if LexLess(a, c) && LexLess(c, a) {
      LexTransitive(a, c, a);
    }
    if LexLess(a, c) && LexLess(c, b) {
      LexTransitive(a, c, b);
    }
    if LexLess(b, a) && LexLess(a, c) {
      LexTransitive(b, a, c);
    }
  }

  /** strncmp over the shorter length, ties going to the shorter string, is the lexicographic order. */
  lemma {:induction false} StrncmpDecides(a: string, b: string)
    ensures var n := if |a| < |b| then |a| else |b|;
            (Strncmp(a, b, n) < 0 || (Strncmp(a, b, n) == 0 && |a| < |b|)) <==> LexLess(a, b)
  {
    if a != "" && b != "" && a[0] == b[0] {
      StrncmpDecides(a[1..], b[1..]);
    }
  }

  lemma {:induction false} StrncmpPrefix(a: string, b: string, x: string, y: string, n: nat)
    requires n <= |a| && n <= |b|
    ensures Strncmp(a + x, b + y, n) == Strncmp(a, b, n)
  {
    if n > 0 {
      assert (a + x)[1..] == a[1..] + x && (b + y)[1..] == b[1..] + y;
      StrncmpPrefix(a[1..], b[1..], x, y, n - 1);
    }
  }

  /** The slash-dropping comparison is the lexicographic order on stripped names. */
  lemma NameComparison(slashed: bool, d: Data, e: Data)
    requires Named(slashed, d) && Named(slashed, e) && d.isFolder == e.isFolder
    requires d.name != DIR_UP && e.name != DIR_UP
    ensures NameGoesBefore(d.name, e.name) <==> LexLess(Strip(d.name), Strip(e.name))
  {
    var a, b := Strip(d.name), Strip(e.name);
    StrncmpDecides(a, b);
    if d.isFolder && slashed {
      assert d.name == a + "/" && e.name == b + "/";
      StrncmpPrefix(a, b, "/", "/", if |a| < |b| then |a| else |b|);
    }
  }

  /** The five tests decide the order, for any two entries that are not both "..". */
  lemma ScanDecides(slashed: bool, e: Data, p: Data)
    requires Named(slashed, e) && Named(slashed, p)
    requires e.name != DIR_UP || p.name != DIR_UP
    ensures StopsBefore(e, p) <==> KeyLess(e, p)
  {
    if e.name != DIR_UP && p.name != DIR_UP && e.isFolder == p.isFolder {
      NameComparison(slashed, e, p);
    }
  }

  /** A listing's entries: named alike, and at most one "..". */
  ghost predicate WellNamed(slashed: bool, s: seq<Data>) {
    && (forall i :: 0 <= i < |s| ==> Named(slashed, s[i]))
    && (forall i, j :: 0 <= i < j < |s| ==> !(s[i].name == DIR_UP && s[j].name == DIR_UP))
  }

  ghost predicate CanJoin(slashed: bool, s: seq<Data>, e: Data) {
    && Named(slashed, e)
    && (forall i :: 0 <= i < |s| ==> !(s[i].name == DIR_UP && e.name == DIR_UP))
  }

  ghost predicate Sorted(s: seq<Data>) {
    forall i, j :: 0 <= i < j < |s| ==> !KeyLess(s[j], s[i])
  }

  /** Where the scan for `e` ends: the first entry it stops in front of, or the end. */
  function InsertAt(s: seq<Data>, e: Data): (k: nat)
    ensures k <= |s|
    ensures forall i :: 0 <= i < k ==> !StopsBefore(e, s[i])
    ensures k < |s| ==> StopsBefore(e, s[k])
  {
    if s == [] || StopsBefore(e, s[0]) then 0 else 1 + InsertAt(s[1..], e)
  }

  function Insert(s: seq<Data>, e: Data): seq<Data> {
    var k := InsertAt(s, e);
    s[..k] + [e] + s[k..]
  }

  /** In a sorted listing everything before the new entry is no greater, everything after it is greater:
      equals keep their order and the new one goes behind them. */
  lemma InsertPosition(slashed: bool, s: seq<Data>, e: Data)
    requires WellNamed(slashed, s) && CanJoin(slashed, s, e) && Sorted(s)
    ensures forall i :: 0 <= i < |s| ==> (KeyLess(e, s[i]) <==> InsertAt(s, e) <= i)
  {
    hide KeyLess, Named, StopsBefore;
    var k := InsertAt(s, e);
    forall i | 0 <= i < |s|
      ensures KeyLess(e, s[i]) <==> k <= i
    {
      ScanDecides(slashed, e, s[i]);
      if k < i {
        ScanDecides(slashed, e, s[k]);
        KeyStrictWeakOrder(e, s[i], s[k]);
      }
    }
  }

  lemma InsertKeepsSorted(slashed: bool, s: seq<Data>, e: Data)
    requires WellNamed(slashed, s) && CanJoin(slashed, s, e) && Sorted(s)
    ensures Sorted(Insert(s, e))
  {
    hide KeyLess, Named, InsertAt, WellNamed;
    InsertPosition(slashed, s, e);
    KeyStrictWeakOrder(e, e, e);
    var k := InsertAt(s, e);
    var r := Insert(s, e);
    forall i, j | 0 <= i < j < |r|
      ensures !KeyLess(r[j], r[i])
    {
      if i == k {
        KeyStrictWeakOrder(e, s[j - 1], e);
      }
    }
  }

  lemma InsertKeepsNames(slashed: bool, s: seq<Data>, e: Data)
    requires WellNamed(slashed, s) && CanJoin(slashed, s, e)
    ensures WellNamed(slashed, Insert(s, e))
  {
    hide KeyLess, Named, InsertAt;
  }

  lemma InsertIsPermutation(s: seq<Data>, e: Data)
    ensures multiset(Insert(s, e)) == multiset(s) + multiset{e}
  {
    hide InsertAt;
    var k := InsertAt(s, e);
    assert s == s[..k] + s[k..];
  }

  /** Inserting keeps a listing sorted and well named, and adds just the new entry. */
  lemma InsertKeepsOrder(slashed: bool, s: seq<Data>, e: Data)
    requires WellNamed(slashed, s) && CanJoin(slashed, s, e) && Sorted(s)
    ensures Sorted(Insert(s, e)) && WellNamed(slashed, Insert(s, e))
    ensures multiset(Insert(s, e)) == multiset(s) + multiset{e}
  {
    hide KeyLess, Named, InsertAt, Sorted, WellNamed, CanJoin;
    InsertKeepsSorted(slashed, s, e);
    InsertKeepsNames(slashed, s, e);
    InsertIsPermutation(s, e);
  }

  /** Entries with pairwise different keys. */
  ghost predicate Distinct(s: seq<Data>) {
    forall i, j :: 0 <= i < j < |s| ==> KeyLess(s[i], s[j]) || KeyLess(s[j], s[i])
  }

  lemma TailOfDistinct(s: seq<Data>)
    requires Distinct(s) && s != []
    ensures s[0] !in s[1..]
    ensures forall d :: d in s[1..] <==> d in s && d != s[0]
  {
    hide KeyLess;
    assert s == [s[0]] + s[1..];
    if s[0] in s[1..] {
      var i :| 1 <= i < |s| && s[i] == s[0];
      KeyStrictWeakOrder(s[0], s[i], s[0]);
    }
  }

  lemma LeastIsFirst(a: seq<Data>, b: seq<Data>)
    requires Sorted(a) && Sorted(b) && Distinct(a) && Distinct(b)
    requires a != [] && b != [] && a[0] in b && b[0] in a
    ensures a[0] == b[0]
  {
    hide KeyLess;
    var i :| 0 <= i < |b| && b[i] == a[0];
    var j :| 0 <= j < |a| && a[j] == b[0];
    KeyStrictWeakOrder(a[0], b[0], a[0]);
  }

  /** A sorted listing of entries with different keys is determined by which entries it holds. */
  lemma {:induction false} SortedIsUnique(a: seq<Data>, b: seq<Data>)
    requires Sorted(a) && Sorted(b) && Distinct(a) && Distinct(b)
    requires forall d :: d in a <==> d in b
    ensures a == b
  {
    hide KeyLess;
    if a != [] && b != [] {
      assert a[0] in b && b[0] in a;
      LeastIsFirst(a, b);
      TailOfDistinct(a);
      TailOfDistinct(b);
      assert a == [a[0]] + a[1..] && b == [b[0]] + b[1..];
      SortedIsUnique(a[1..], b[1..]);
    } else if a != [] {
      NoMembers(a);
    } else {
      NoMembers(b);
    }
  }

  lemma NoMembers(s: seq<Data>)
    ensures s == [] <==> forall d :: d !in s
  {
    if s != [] {
      assert s[0] in s;
    }
  }

  /** An entry with a new key can join. */
  lemma InsertKeepsDistinct(s: seq<Data>, e: Data)
    requires Distinct(s) && forall i :: 0 <= i < |s| ==> KeyLess(s[i], e) || KeyLess(e, s[i])
    ensures Distinct(Insert(s, e))
  {
    hide KeyLess, InsertAt;
  }

  lemma InsertHolds(s: seq<Data>, e: Data)
    ensures forall d :: d in Insert(s, e) <==> d in s || d == e
  {
    hide InsertAt;
    var k := InsertAt(s, e);
    assert s == s[..k] + s[k..];
  }
}
