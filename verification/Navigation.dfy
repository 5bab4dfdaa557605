/** cmd_cd: how the shell's current path moves. */
module Navigations {
  import opened Basics
  import opened Paths
  import opened FileTrees

  /** p2s_removeEndSlash. */
  function RemoveEndSlash(path: string): string
    requires path != ""
  {
    if HasEndSlash(path) then path[..|path| - 1] else path
  }

  /** strrchr: the last index of `c`, -1 for none. */
  function LastIndexOf(s: string, c: char): (i: int)
    ensures -1 <= i < |s|
    ensures i >= 0 ==> s[i] == c
    ensures forall k :: i < k < |s| ==> s[k] != c
  {
    if s == "" then -1
    else if s[|s| - 1] == c then |s| - 1
    else LastIndexOf(s[..|s| - 1], c)
  }

  /** "..": cut behind the last slash, else behind the device's colon, else home. */
  function Up(path: string): (r: string)
    requires path != ""
    ensures r != ""
  {
    var p := RemoveEndSlash(path);
    var slash := LastIndexOf(p, '/');
    var colon := LastIndexOf(p, ':');
    if slash >= 0 then p[..slash + 1]
    else if colon >= 0 && |p| - (colon + 1) > 0 then p[..colon + 1]
    else HOME_PATH
  }

  predicate Exists(t: Tree, path: string) {
    Components(path) in t
  }

  /** Where `cd argument` leads from `path`. */
  function Destination(t: Tree, path: string, argument: string): string
    requires path != "" && argument != ""
  {
    var arg := RemoveEndSlash(argument);
    var here := RemoveEndSlash(path);
    if arg == ".." then Up(path)
    else if Exists(t, arg) then arg
    else if Exists(t, here + "/" + arg) then here + "/" + arg
    else here
  }

  predicate IsUp(argument: string) {
    argument == ".." || argument == "../"
  }

  /** Where an argument other than ".." leads: to what it names by itself, else to what it names below the current
      path, and nowhere only if there is neither. */
  ghost predicate LedTo(t: Tree, path: string, argument: string, d: string) {
    var p, a := Components(path), Components(argument);
    && (a in t ==> Components(d) == a)
    && (a !in t && p + a in t ==> Components(d) == p + a)
    && (a !in t && p + a !in t ==> d == path || d + "/" == path)
  }

  /** The current path of a client. */
  class CurrentPath {
    var path: string

    constructor ()
      ensures path == HOME_PATH
    {
      path := HOME_PATH;
    }

    /** cmd_cd, editing the path in place. */
    method ChangeDirectory(t: Tree, argument: string)
      requires path != "" && argument != ""
      modifies this
      ensures path == Destination(t, old(path), argument)
      ensures !IsUp(argument) ==> LedTo(t, old(path), argument, path)
      ensures IsUp(argument) ==> WentUp(old(path), path)
      ensures WellFormed(t) && (old(path) != "/" || Exists(t, RemoveEndSlash(argument))) ==> path != ""
    {
      hide LedTo, WentUp, IsUp, Components, WellFormed;
      LeadsTo(t, path, argument);
      UpIs(path);
      if WellFormed(t) {
        DestinationIs(t, path, argument);
      }
      var arg := RemoveEndSlash(argument);
      path := RemoveEndSlash(path);
      if arg == ".." {
        var p := LastIndexOf(path, '/');
        if p >= 0 {
          path := path[..p + 1];
        } else {
          p := LastIndexOf(path, ':');
          if p >= 0 {
            if |path| - (p + 1) > 0 {
              path := path[..p + 1];
            } else {
              path := HOME_PATH;
            }
          } else {
            path := HOME_PATH;
          }
        }
      } else if Exists(t, arg) {
        path := arg;
      } else {
        var tmp := path + "/" + arg;
        if Exists(t, tmp) {
          path := tmp;
        }
      }
    }
  }

  function UpTimes(path: string, k: nat): (r: string)
    requires path != ""
    ensures r != ""
    decreases k
  {
    if k == 0 then path else UpTimes(Up(path), k - 1)
  }

  /** A step up leads home or to a strictly shorter path. It shortens the path if and only if there is a slash to cut
      at, a device's colon with something behind it, or more to cut than "root" is long. */
  lemma UpShortens(path: string)
    requires path != ""
    ensures Up(path) == HOME_PATH || |Up(path)| < |path|
    ensures var p := RemoveEndSlash(path);
            |Up(path)| < |path| <==> '/' in p || (':' in p && p[|p| - 1] != ':') || |path| > |HOME_PATH|
  {
    var p := RemoveEndSlash(path);
    var slash, colon := LastIndexOf(p, '/'), LastIndexOf(p, ':');
    if slash >= 0 && !HasEndSlash(path) {
      assert p[|p| - 1] != '/' && '/' in p;
    }
  }

  lemma HomeStays(k: nat)
    ensures UpTimes(HOME_PATH, k) == HOME_PATH
  {
    assert Up(HOME_PATH) == HOME_PATH by {
      assert HOME_PATH == ['r', 'o', 'o', 't'];
    }
    if k > 0 {
      HomeStays(k - 1);
    }
  }

  /** Going up as often as the path is long leads home, and further steps stay there. */
  lemma {:induction false} UpLeadsHome(path: string, k: nat)
    requires path != "" && k >= |path|
    ensures UpTimes(path, k) == HOME_PATH
    decreases k
  {
    hide Up;
    UpShortens(path);
    if Up(path) == HOME_PATH {
      HomeStays(k - 1);
    } else {
      UpLeadsHome(Up(path), k - 1);
    }
  }

  /** Going up from a name that is no path at all makes it longer, from a bare device it may keep its length. */
  lemma LastStepHome()
    ensures Up("a") == HOME_PATH && |HOME_PATH| > |"a"|
    ensures Up("ux0:") == HOME_PATH && |HOME_PATH| == |"ux0:"|
  {
    var p := "ux0:";
    assert p == ['u', 'x', '0', ':'];
    assert RemoveEndSlash(p) == p;
    assert "a" == ['a'] && RemoveEndSlash("a") == "a";
  }

  /** Cutting at a slash drops the last component. */
  lemma UpDropsLast(path: string)
    requires path != "" && '/' in RemoveEndSlash(path)
    ensures var p := RemoveEndSlash(path);
            var last := p[LastIndexOf(p, '/') + 1..];
            Components(path) == Components(Up(path)) + if last == "" then [] else [last]
  {
    hide Components;
    var p := RemoveEndSlash(path);
    var k := LastIndexOf(p, '/');
    if HasEndSlash(path) {
      assert path == p + "/";
      ComponentsEndSlash(p);
    }
    var here, last := p[..k], p[k + 1..];
    assert p == here + "/" + last && Up(path) == here + "/";
    ComponentsEndSlash(here);
    ComponentsAppend(here, last);
    OneComponent(last);
  }

  /** One trailing slash changes nothing about what a string names. */
  lemma SlashRemoved(path: string)
    requires path != ""
    ensures var r := RemoveEndSlash(path);
            (path == r || path == r + "/") && Components(r) == Components(path) && (r == path ==> !HasEndSlash(path))
  {
    hide Components;
    if HasEndSlash(path) {
      var r := path[..|path| - 1];
      assert path == r + "/";
      ComponentsEndSlash(r);
    }
  }

  lemma LeadsTo(t: Tree, path: string, argument: string)
    requires path != "" && argument != ""
    ensures !IsUp(argument) ==> LedTo(t, path, argument, Destination(t, path, argument))
    ensures IsUp(argument) ==> Destination(t, path, argument) == Up(path)
  {
    hide Components, Up;
    SlashRemoved(path);
    SlashRemoved(argument);
    var here, arg := RemoveEndSlash(path), RemoveEndSlash(argument);
    ComponentsAppend(here, arg);
    if arg == ".." {
      assert IsUp(argument) by {
        assert ".." + "/" == "../";
      }
    }
    assert argument == "../" ==> RemoveEndSlash(argument) == "..";
  }

  /** What is left of a path, its trailing slash aside, when it goes up: everything through the last slash; with no
      slash, everything through the last colon if something stands behind it; otherwise home. */
  predicate WentUp(path: string, r: string) {
    var p := if path != "" && HasEndSlash(path) then path[..|path| - 1] else path;
    if '/' in p then r <= p && r != "" && r[|r| - 1] == '/' && '/' !in p[|r|..]
    else if ':' in p && p[|p| - 1] != ':' then r <= p && r != "" && r[|r| - 1] == ':' && ':' !in p[|r|..]
    else r == "root"
  }

  lemma UpIs(path: string)
    requires path != ""
    ensures WentUp(path, Up(path))
  {
    var p := RemoveEndSlash(path);
    var slash, colon := LastIndexOf(p, '/'), LastIndexOf(p, ':');
    if slash < 0 && colon >= 0 {
      assert colon == |p| - 1 <==> p[|p| - 1] == ':';
    }
  }

  /** Where a change of directory can lead: up, to a path that exists, or nowhere. The one way to an empty path is
      an argument that is not there, from "/". */
  lemma DestinationIs(t: Tree, path: string, argument: string)
    requires path != "" && argument != "" && WellFormed(t)
    ensures var d := Destination(t, path, argument);
            && ((RemoveEndSlash(argument) == ".." && d == Up(path)) || Exists(t, d) || d == RemoveEndSlash(path))
            && (d == "" <==> path == "/" && RemoveEndSlash(argument) != ".." && !Exists(t, RemoveEndSlash(argument)))
  {
    hide Components;
    OneComponent("");
    assert [] !in t;
    var arg, here := RemoveEndSlash(argument), RemoveEndSlash(path);
    if here == "" {
      assert path == "/";
      ComponentsAppend("", arg);
      assert Components("" + "/" + arg) == Components(arg);
      assert "" + "/" + arg == here + "/" + arg;
    }
  }

  /** Entering a child and going up returns to the same directory, with a slash at the end. */
  lemma EnterThenUp(t: Tree, path: string, name: string)
    requires path != "" && RemoveEndSlash(path) != "" && IsName(name)
    requires !Exists(t, name) && Exists(t, RemoveEndSlash(path) + "/" + name)
    ensures var child := Destination(t, path, name);
            && child != "" && Components(child) == Components(path) + [name]
            && Up(child) == RemoveEndSlash(path) + "/"
            && Components(Up(child)) == Components(path)
  {
    hide Components;
    var here := RemoveEndSlash(path);
    var child := here + "/" + name;
    assert !HasEndSlash(name) && RemoveEndSlash(name) == name;
    assert Destination(t, path, name) == child;
    assert child[|child| - 1] == name[|name| - 1];
    LastSlash(here, name);
    ComponentsEndSlash(here);
    if HasEndSlash(path) {
      assert path == here + "/";
    }
    assert child == here + "/" + name;
    ComponentsOfChild(here, name);
  }

  lemma {:induction false} LastSlash(here: string, name: string)
    requires '/' !in name
    ensures LastIndexOf(here + "/" + name, '/') == |here|
  {
    var s := here + "/" + name;
    if name == "" {
      assert s[|s| - 1] == '/';
    } else {
      assert s[|s| - 1] == name[|name| - 1];
      assert s[..|s| - 1] == here + "/" + name[..|name| - 1];
      LastSlash(here, name[..|name| - 1]);
    }
  }

  lemma ComponentsOfChild(here: string, name: string)
    requires here != "" && name != "" && '/' !in name
    ensures Components(here + "/" + name) == Components(here) + [name]
  {
    ChildComponents(here + "/", name);
    assert Child(here + "/", name) == here + "/" + name;
    ComponentsEndSlash(here);
  }
}
