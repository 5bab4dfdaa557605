/** Path strings, the component paths they denote, and the guard that copy and move run on the strings. */
module Paths {
  import opened Splitting

  /** A path as its components, mount point first: "ux0:/data" is ["ux0:", "data"]. */
  type Path = seq<string>

  type EntryName = n: string | n != "" witness "."

  predicate IsDot(name: string) {
    name == "." || name == ".."
  }

  /** What a directory can hold an entry under. */
  predicate IsName(name: string) {
    name != "" && '/' !in name && !IsDot(name)
  }

  function NonEmpty(tokens: seq<string>): Path {
    if tokens == [] then []
    else (if tokens[0] == "" then [] else [tokens[0]]) + NonEmpty(tokens[1..])
  }

  /** The components a path string denotes: repeated and trailing slashes count for nothing. */
  function Components(s: string): Path {
    NonEmpty(Split(s, '/'))
  }

  predicate HasEndSlash(s: string)
    requires s != ""
  {
    s[|s| - 1] == '/'
  }

  /** The string the tree walks build for a directory entry. */
  function Child(path: string, name: string): (s: string)
    requires path != ""
    ensures s != ""
  {
    path + (if HasEndSlash(path) then "" else "/") + name
  }

  lemma {:induction false} NonEmptyAppend(a: seq<string>, b: seq<string>)
    ensures NonEmpty(a + b) == NonEmpty(a) + NonEmpty(b)
  {
    if a == [] {
      assert a + b == b;
    } else {
      assert (a + b)[1..] == a[1..] + b;
      NonEmptyAppend(a[1..], b);
    }
  }

  lemma ComponentsAppend(a: string, b: string)
    ensures Components(a + "/" + b) == Components(a) + Components(b)
  {
    SplitAppend(a, b, '/');
    NonEmptyAppend(Split(a, '/'), Split(b, '/'));
  }

  lemma ComponentsEndSlash(a: string)
    ensures Components(a + "/") == Components(a)
  {
    ComponentsAppend(a, "");
    assert a + "/" + "" == a + "/";
    assert Components("") == [];
  }

  lemma OneComponent(name: string)
    requires '/' !in name
    ensures Components(name) == if name == "" then [] else [name]
  {
    SplitWithoutDelimiter(name, '/');
    assert [name][1..] == [];
    assert NonEmpty([name][1..]) == [];
  }

  /** Whatever slashes the directory's own string has, the child's string denotes the child. */
  lemma ChildComponents(path: string, name: string)
    requires path != "" && name != "" && '/' !in name
    ensures Components(Child(path, name)) == Components(path) + [name]
  {
    SplitWithoutDelimiter(name, '/');
    assert NonEmpty([name]) == [name] + NonEmpty([]);
    if HasEndSlash(path) {
      var a := path[..|path| - 1];
      assert path == a + "/";
      ComponentsEndSlash(a);
      ComponentsAppend(a, name);
      assert Child(path, name) == a + "/" + name;
    } else {
      ComponentsAppend(path, name);
    }
  }

  /** The guard at the head of copyFile, copyPath and movePath: -1 for identical strings,
      -2 for a destination string inside the source string, 0 otherwise. */
  function Guard(src: string, dst: string): (r: int)
    requires src != ""
    ensures -2 <= r <= 0
  {
    if src == dst then -1
    else if src <= dst && ((|src| < |dst| && dst[|src|] == '/') || dst[|src| - 1] == '/') then -2
    else 0
  }

  predicate Incomparable(p: Path, q: Path) {
    !(p <= q) && !(q <= p)
  }

  /** On any strings, when the guard fires the destination is the source or lies inside it. */
  lemma GuardSound(src: string, dst: string)
    requires src != "" && Guard(src, dst) != 0
    ensures Components(src) <= Components(dst)
  {
    if src != dst {
      if HasEndSlash(src) {
        var a, b := src[..|src| - 1], dst[|src|..];
        assert src == a + "/" && dst == a + "/" + b;
        ComponentsEndSlash(a);
        ComponentsAppend(a, b);
      } else {
        var b := dst[|src| + 1..];
        assert dst == src + "/" + b;
        ComponentsAppend(src, b);
      }
    }
  }

  /** A normalised path string: no empty component, except one trailing slash. */
  predicate Normal(s: string) {
    Components(s) != [] && (s == Join(Components(s), '/') || s == Join(Components(s), '/') + "/")
  }

  lemma {:induction false} NonEmptyIsSlashFree(t: seq<string>)
    requires DelimiterFree(t, '/')
    ensures DelimiterFree(NonEmpty(t), '/') && "" !in NonEmpty(t)
  {
    if t != [] {
      NonEmptyIsSlashFree(t[1..]);
    }
  }

  /** A proper extension of a component list extends its string past a slash. */
  lemma JoinPrefix(a: Path, b: Path)
    requires a != [] && a < b
    ensures Join(a, '/') + "/" <= Join(b, '/')
  {
    assert b == a + b[|a|..];
    JoinAppend(a, b[|a|..], '/');
  }

  lemma GuardCatchesInside(src: string, dst: string)
    requires src != "" && Normal(src) && Normal(dst)
    requires Components(src) < Components(dst)
    ensures Guard(src, dst) == -2
  {
    var a, b := Components(src), Components(dst);
    JoinPrefix(a, b);
    assert src <= Join(a, '/') + "/" <= dst;
    assert src == Join(a, '/') ==> dst[|src|] == '/';
  }

  /** On normalised strings the guard decides the component-prefix relation, but for one pair:
      a source that is the destination with a slash added. */
  lemma GuardDecides(src: string, dst: string)
    requires src != "" && Normal(src) && Normal(dst)
    ensures Guard(src, dst) != 0 <==> Components(src) <= Components(dst) && src != dst + "/"
  {
    if Guard(src, dst) != 0 {
      GuardSound(src, dst);
      assert |src| <= |dst|;
    } else if Components(src) == Components(dst) {
      assert src == dst + "/";
    } else if Components(src) < Components(dst) {
      GuardCatchesInside(src, dst);
    }
  }

  /** The pair at its smallest. */
  lemma SlashPairSlips()
    ensures Guard("ux0:/a/", "ux0:/a") == 0
    ensures Components("ux0:/a/") == Components("ux0:/a") == ["ux0:", "a"]
    ensures Normal("ux0:/a/") && Normal("ux0:/a")
  {
    hide Components;
    OneComponent("ux0:");
    OneComponent("a");
    ComponentsAppend("ux0:", "a");
    assert "ux0:" + "/" + "a" == "ux0:/a" && ["ux0:"] + ["a"] == ["ux0:", "a"];
    ComponentsEndSlash("ux0:/a");
    assert "ux0:/a" + "/" == "ux0:/a/";
    assert Join(["ux0:", "a"], '/') == "ux0:/a" by {
      assert ["ux0:", "a"][1..] == ["a"] && Join(["a"], '/') == "a";
      assert "ux0:" + ['/'] + "a" == "ux0:/a";
    }
  }

  /** Without trailing slashes the two error values tell the two cases apart. */
  lemma GuardTellsCasesApart(src: string, dst: string)
    requires src != "" && dst != "" && Normal(src) && Normal(dst)
    requires !HasEndSlash(src) && !HasEndSlash(dst)
    ensures Guard(src, dst) == -1 <==> Components(src) == Components(dst)
    ensures Guard(src, dst) == -2 <==> Components(src) < Components(dst)
  {
    GuardDecides(src, dst);
  }

  /** The strings of the recursive calls at relative path `rel` below a call on `path`. */
  function Descend(path: string, rel: Path): (s: string)
    requires path != ""
    ensures s != ""
    decreases rel
  {
    if rel == [] then path else Descend(Child(path, rel[0]), rel[1..])
  }

  lemma {:induction false} DescendComponents(path: string, rel: Path)
    requires path != "" && forall i :: 0 <= i < |rel| ==> IsName(rel[i])
    ensures Components(Descend(path, rel)) == Components(path) + rel
    decreases rel
  {
    if rel != [] {
      ChildComponents(path, rel[0]);
      DescendComponents(Child(path, rel[0]), rel[1..]);
      assert [rel[0]] + rel[1..] == rel;
    }
  }

  /** A guard passed at the top call is passed by every recursive call, at any depth, if and only if
      the source is not the destination with a slash added. */
  lemma GuardInherited(src: string, dst: string, rel: Path)
    requires src != "" && dst != "" && Normal(src) && Normal(dst) && Guard(src, dst) == 0
    requires rel != [] && forall i :: 0 <= i < |rel| ==> IsName(rel[i])
    ensures Guard(Descend(src, rel), Descend(dst, rel)) == 0 <==> src != dst + "/"
  {
    if src == dst + "/" {
      SlashedTwin(src, dst, rel);
    } else if Guard(Descend(src, rel), Descend(dst, rel)) != 0 {
      GuardBelow(src, dst, rel);
      GuardDecides(src, dst);
    }
  }

  /** On any strings: a guard that fires below fires for a destination at or inside the source. */
  lemma GuardBelow(src: string, dst: string, rel: Path)
    requires src != "" && dst != ""
    requires forall i :: 0 <= i < |rel| ==> IsName(rel[i])
    requires Guard(Descend(src, rel), Descend(dst, rel)) != 0
    ensures Components(src) <= Components(dst)
  {
    GuardSound(Descend(src, rel), Descend(dst, rel));
    DescendComponents(src, rel);
    DescendComponents(dst, rel);
    PrefixWithoutTail(Components(src), Components(dst), rel);
  }

  lemma PrefixWithoutTail(a: Path, b: Path, rel: Path)
    requires a + rel <= b + rel
    ensures a <= b
  {
    assert a == (a + rel)[..|a|];
    assert b == (b + rel)[..|b|];
  }

  /** Both strings build the same child strings. */
  lemma SlashedTwin(src: string, dst: string, rel: Path)
    requires dst != "" && Normal(dst) && src == dst + "/" && Normal(src) && rel != []
    ensures Descend(src, rel) == Descend(dst, rel)
  {
    NoDoubleSlash(dst);
    assert Child(src, rel[0]) == Child(dst, rel[0]);
  }

  lemma NoDoubleSlash(dst: string)
    requires dst != "" && Normal(dst) && Normal(dst + "/")
    ensures !HasEndSlash(dst)
  {
    ComponentsEndSlash(dst);
    JoinAfterSplit(dst, '/');
    NonEmptyIsSlashFree(Split(dst, '/'));
    JoinEnd(Components(dst));
  }

  lemma {:induction false} JoinEnd(a: Path)
    requires a != [] && DelimiterFree(a, '/') && "" !in a
    ensures Join(a, '/') != "" && !HasEndSlash(Join(a, '/'))
  {
    if |a| > 1 {
      JoinEnd(a[1..]);
    } else {
      assert a[0] in a;
    }
  }
}
