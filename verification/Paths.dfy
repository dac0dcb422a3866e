/**
  The file tree, its path printer and its path resolver.
 */
module Paths {

  /** An entry of the tree. Name, parent and kind are fixed when it is created; a directory's list
      of entries changes in place. */
  class Entry {
    const name: string
    const parent: Entry?
    const isDirectory: bool
    ghost const depth: nat
    var entries: seq<Entry>

    constructor (name: string, parent: Entry?, isDirectory: bool)
      ensures this.name == name && this.parent == parent && this.isDirectory == isDirectory && entries == []
      ensures depth == if parent == null then 0 else parent.depth + 1
    {
      this.name, this.parent, this.isDirectory := name, parent, isDirectory;
      depth := if parent == null then 0 else parent.depth + 1;
      entries := [];
    }
  }

  /** What looking up a path can lead to. */
  datatype Lookup = Found(entry: Entry) | Missing | Panic

  predicate Plain(name: string) {
    name != "" && '/' !in name
  }

  /** A name that path components can refer to. */
  predicate GoodName(name: string) {
    Plain(name) && name != "." && name != ".."
  }

  /** The entries in `all` form a tree below `root`: parents and entry lists agree, names are good
      and unique within a directory. */
  ghost predicate Tree(root: Entry, all: set<Entry>)
    reads all`entries
  {
    && root in all && root.parent == null && root.name == "/" && root.isDirectory && root.depth == 0
    && (forall e :: e in all && e != root ==>
          e.parent != null && e.parent in all && e.depth == e.parent.depth + 1 && e in e.parent.entries
          && GoodName(e.name))
    && (forall d :: d in all ==> Children(all, d))
  }

  /** Only directories have entries, which know their parent and differ in their names. */
  ghost predicate Children(all: set<Entry>, d: Entry)
    reads d`entries
  {
    && (d.entries != [] ==> d.isDirectory)
    && (forall i :: 0 <= i < |d.entries| ==> d.entries[i] in all && d.entries[i].parent == d)
    && (forall i, j :: 0 <= i < j < |d.entries| ==> d.entries[i].name != d.entries[j].name)
  }

  // ---------------------------------------------------------------- printing

  /** get_path. */
  ghost function GetPath(root: Entry, all: set<Entry>, e: Entry): string
    requires Tree(root, all) && e in all
    reads all`entries
    decreases e.depth
  {
    if e.parent == null then e.name
    else if e.parent == root then GetPath(root, all, e.parent) + e.name
    else GetPath(root, all, e.parent) + "/" + e.name
  }

  /** The names on the way from the root down to `e`. */
  ghost function Names(root: Entry, all: set<Entry>, e: Entry): seq<string>
    requires Tree(root, all) && e in all
    reads all`entries
    decreases e.depth
  {
    if e == root then [] else Names(root, all, e.parent) + [e.name]
  }

  function Join(names: seq<string>): string {
    if names == [] then "" else if |names| == 1 then names[0] else names[0] + "/" + Join(names[1..])
  }

  lemma {:induction false} JoinLast(names: seq<string>, last: string)
    requires names != []
    ensures Join(names + [last]) == Join(names) + "/" + last
  {
    if |names| > 1 {
      assert (names + [last])[1..] == names[1..] + [last];
      JoinLast(names[1..], last);
    }
  }

  /** What get_path prints: a slash and the names from the root down, joined by slashes. */
  lemma {:induction false} PathIsNames(root: Entry, all: set<Entry>, e: Entry)
    requires Tree(root, all) && e in all
    ensures GetPath(root, all, e) == "/" + Join(Names(root, all, e))
    ensures e != root ==> Names(root, all, e) != []
    ensures forall n :: n in Names(root, all, e) ==> GoodName(n)
    decreases e.depth
  {
    if e != root {
      PathIsNames(root, all, e.parent);
      if e.parent != root {
        JoinLast(Names(root, all, e.parent), e.name);
      }
    }
  }

  // ---------------------------------------------------------------- resolving

  /** The entry of that name in a directory's list, if any. */
  function Named(entries: seq<Entry>, name: string): (e: Entry?)
    ensures e != null ==> e in entries && e.name == name
    ensures e == null ==> forall i :: 0 <= i < |entries| ==> entries[i].name != name
  {
    if entries == [] then null else if entries[0].name == name then entries[0] else Named(entries[1..], name)
  }

  /** resolve: a directory looks the name up, everything else knows no names. */
  function Child(d: Entry, name: string): Entry?
    reads d`entries
  {
    if !d.isDirectory then null
    else if name == "." then d
    else if name == ".." then d.parent
    else Named(d.entries, name)
  }

  function FirstSlash(s: string): nat
    ensures FirstSlash(s) <= |s| && '/' !in s[..FirstSlash(s)]
    ensures FirstSlash(s) < |s| ==> s[FirstSlash(s)] == '/'
  {
    if s == "" || s[0] == '/' then 0 else 1 + FirstSlash(s[1..])
  }

  /** The pieces getline yields: split at each slash, with nothing after a final slash. */
  function Components(s: string): seq<string> {
    var i := FirstSlash(s);
    if s == "" then [] else if i == |s| then [s] else [s[..i]] + Components(s[i + 1..])
  }

  /** Going down from `current` along the components. Directories only grow and shrink at their
      lists, so the walk reads the lists of the entries in `all`. */
  ghost function Walk(root: Entry, all: set<Entry>, current: Entry, names: seq<string>): Lookup
    requires Tree(root, all) && current in all
    reads all`entries
    decreases names
  {
    if names == [] then Found(current)
    else
      var next := Child(current, names[0]);
      ChildInTree(root, all, current, names[0]);
      if next == null then Missing else Walk(root, all, next, names[1..])
  }

  /** Where a path starts and what is left of it: None is the pattern the code gives up on. */
  datatype Start = Begin(entry: Entry, rest: string) | Unknown

  function StartOf(path: string, root: Entry, cwd: Entry): Start {
    if path != "" && path[0] == '.' then
      var up := |path| > 1 && path[1] == '.';
      var entry := if up && cwd.parent != null then cwd.parent else cwd;
      var rest := if up then path[2..] else path[1..];
      if rest == "" then Begin(entry, "")
      else if rest[0] == '/' then Begin(entry, rest[1..])
      else Unknown
    else if path != "" && path[0] == '/' then Begin(root, path[1..])
    else Begin(cwd, path)
  }

  ghost function Resolve(root: Entry, all: set<Entry>, path: string, cwd: Entry): Lookup
    requires Tree(root, all) && cwd in all
    reads all`entries
  {
    match StartOf(path, root, cwd)
    case Unknown => Panic
    case Begin(entry, rest) =>
      assert entry in all;
      Walk(root, all, entry, Components(rest))
  }

  /** The loop over a directory's entries. */
  method FindEntry(d: Entry, name: string) returns (e: Entry?)
    ensures e == Child(d, name)
  {
    if !d.isDirectory { return null; }
    if name == "." { return d; }
    if name == ".." { return d.parent; }
    var i := 0;
    while i < |d.entries|
      invariant i <= |d.entries|
      invariant Named(d.entries, name) == Named(d.entries[i..], name)
    {
      if d.entries[i].name == name {
        return d.entries[i];
      }
      i := i + 1;
    }
    return null;
  }

  /** path_to_entry, reading the path as a stream. */
  method PathToEntry(root: Entry, ghost all: set<Entry>, path: string, cwd: Entry) returns (r: Lookup)
    requires Tree(root, all) && cwd in all
    ensures r == Resolve(root, all, path, cwd)
  {
    hide Tree, Named, Walk, Components;
    var current, left := cwd, path;
    if left != "" && left[0] == '.' {
      left := left[1..];
      if left != "" && left[0] == '.' {
        left := left[1..];
        if current.parent != null {
          current := current.parent;
        }
      }
      if left != "" {
        if left[0] != '/' {
          return Panic;
        }
        left := left[1..];
      }
    } else if left != "" && left[0] == '/' {
      left := left[1..];
      current := root;
    }
    assert StartOf(path, root, cwd) == Begin(current, left);
    StartInTree(root, all, path, cwd);
    r := Found(current);
    while left != ""
      invariant current in all && r == Found(current)
      invariant Walk(root, all, current, Components(left)) == Resolve(root, all, path, cwd)
      decreases |left|
    {
      var i := FirstSlash(left);
      var next := FindEntry(current, left[..i]);
      WalkStep(root, all, current, left);
      if next == null {
        return Missing;
      }
      current := next;
      r := Found(current);
      left := if i == |left| then "" else left[i + 1..];
    }
    WalkEnd(root, all, current);
  }

  lemma WalkEnd(root: Entry, all: set<Entry>, current: Entry)
    requires Tree(root, all) && current in all
    ensures Walk(root, all, current, Components("")) == Found(current)
  {
  }

  lemma StartInTree(root: Entry, all: set<Entry>, path: string, cwd: Entry)
    requires Tree(root, all) && cwd in all
    ensures StartOf(path, root, cwd).Begin? ==> StartOf(path, root, cwd).entry in all
  {
  }

  lemma ChildInTree(root: Entry, all: set<Entry>, d: Entry, name: string)
    requires Tree(root, all) && d in all
    ensures Child(d, name) != null ==> Child(d, name) in all
  {
  }

  /** One turn of the resolver's loop against the walk. */
  lemma WalkStep(root: Entry, all: set<Entry>, current: Entry, rest: string)
    requires Tree(root, all) && current in all && rest != ""
    ensures var i := FirstSlash(rest);
      var next := Child(current, rest[..i]);
      var rest' := if i == |rest| then "" else rest[i + 1..];
      (next != null ==> next in all) &&
      Walk(root, all, current, Components(rest)) ==
        if next == null then Missing else Walk(root, all, next, Components(rest'))
  {
    hide Tree, Child;
    var i := FirstSlash(rest);
    ChildInTree(root, all, current, rest[..i]);
    if i == |rest| {
      assert rest[..i] == rest;
      assert Components("") == [];
    } else {
      assert Components(rest)[1..] == Components(rest[i + 1..]);
    }
  }

  // ---------------------------------------------------------------- printing and resolving undo each other

  lemma {:induction false} FirstSlashAt(n: string, rest: string)
    requires '/' !in n && (rest == "" || rest[0] == '/')
    ensures FirstSlash(n + rest) == |n|
  {
    if n == "" {
      assert n + rest == rest;
    } else {
      assert n[0] in n;
      assert (n + rest)[1..] == n[1..] + rest;
      FirstSlashAt(n[1..], rest);
    }
  }

  lemma {:induction false} ComponentsOfJoin(names: seq<string>)
    requires forall n :: n in names ==> Plain(n)
    ensures Components(Join(names)) == names
  {
    if |names| == 1 {
      assert Plain(names[0]);
      assert names[0] + "" == names[0];
      FirstSlashAt(names[0], "");
    } else if |names| > 1 {
      assert Plain(names[0]);
      var rest := "/" + Join(names[1..]);
      assert Join(names) == names[0] + rest;
      FirstSlashAt(names[0], rest);
      assert Join(names)[..|names[0]|] == names[0];
      assert Join(names)[|names[0]| + 1..] == Join(names[1..]);
      ComponentsOfJoin(names[1..]);
    }
  }

  lemma {:induction false} WalkAppend(root: Entry, all: set<Entry>, current: Entry, a: seq<string>, b: seq<string>)
    requires Tree(root, all) && current in all
    ensures Walk(root, all, current, a).Found? ==> Walk(root, all, current, a).entry in all
    ensures Walk(root, all, current, a + b) ==
            match Walk(root, all, current, a)
              case Found(x) => Walk(root, all, x, b)
              case other => other
    decreases a
  {
    hide Tree, Child;
    if a == [] {
      assert a + b == b;
    } else {
      assert (a + b)[1..] == a[1..] + b;
      ChildInTree(root, all, current, a[0]);
      var next := Child(current, a[0]);
      if next != null {
        WalkAppend(root, all, next, a[1..], b);
      }
    }
  }

  /** In a directory, a good name leads to exactly the entry of that name. */
  lemma ChildByName(root: Entry, all: set<Entry>, d: Entry, name: string)
    requires Tree(root, all) && d in all && GoodName(name)
    ensures forall e :: e in all && e.parent == d && e != root && e.name == name ==> Child(d, name) == e
    ensures Child(d, name) != null ==>
              Child(d, name) in all && Child(d, name) != root && Child(d, name).parent == d
              && Child(d, name).name == name
  {
    forall e | e in all && e.parent == d && e != root && e.name == name ensures Child(d, name) == e {
      assert e in d.entries;
      var i :| 0 <= i < |d.entries| && d.entries[i] == e;
      var c := Named(d.entries, name);
      var j :| 0 <= j < |d.entries| && d.entries[j] == c;
    }
    if Child(d, name) != null {
      assert Child(d, name) in d.entries;
    }
  }

  /** Following a run of good names from the root leads to e exactly when they are e's names. */
  lemma {:induction false} WalkIsNames(root: Entry, all: set<Entry>, names: seq<string>, e: Entry)
    requires Tree(root, all) && e in all && forall n :: n in names ==> GoodName(n)
    ensures Walk(root, all, root, names) == Found(e) <==> Names(root, all, e) == names
    decreases |names|
  {
    if names == [] {
      if e != root {
        assert Names(root, all, e) != [];
      }
    } else {
      var init, last := names[..|names| - 1], names[|names| - 1];
      assert names == init + [last];
      assert GoodName(last);
      WalkAppend(root, all, root, init, [last]);
      if Walk(root, all, root, init).Found? {
        var d := Walk(root, all, root, init).entry;
        WalkIsNames(root, all, init, d);
        ChildByName(root, all, d, last);
        WalkOne(root, all, d, last);
      }
      if e != root {
        WalkIsNames(root, all, init, e.parent);
        ChildByName(root, all, e.parent, last);
        WalkOne(root, all, e.parent, last);
      }
    }
  }

  lemma WalkOne(root: Entry, all: set<Entry>, d: Entry, name: string)
    requires Tree(root, all) && d in all
    ensures Walk(root, all, d, [name]) == if Child(d, name) == null then Missing else Found(Child(d, name))
  {
    ChildInTree(root, all, d, name);
  }

  /** An absolute path made of good names resolves to e exactly when get_path prints it for e; so
      what get_path prints for any entry resolves to that entry, from any directory. */
  lemma PathRoundTrip(root: Entry, all: set<Entry>, cwd: Entry, names: seq<string>, e: Entry)
    requires Tree(root, all) && cwd in all && e in all && forall n :: n in names ==> GoodName(n)
    ensures Resolve(root, all, "/" + Join(names), cwd) == Found(e) <==> GetPath(root, all, e) == "/" + Join(names)
    ensures Resolve(root, all, GetPath(root, all, e), cwd) == Found(e)
  {
    hide Tree;
    PathIsNames(root, all, e);
    ResolveAbsolute(root, all, cwd, names);
    ResolveAbsolute(root, all, cwd, Names(root, all, e));
    WalkIsNames(root, all, names, e);
    WalkIsNames(root, all, Names(root, all, e), e);
    if GetPath(root, all, e) == "/" + Join(names) {
      assert GetPath(root, all, e)[1..] == Join(Names(root, all, e)) && ("/" + Join(names))[1..] == Join(names);
      ComponentsOfJoin(names);
      ComponentsOfJoin(Names(root, all, e));
    }
  }

  lemma ResolveAbsolute(root: Entry, all: set<Entry>, cwd: Entry, names: seq<string>)
    requires Tree(root, all) && cwd in all && forall n :: n in names ==> Plain(n)
    ensures root in all && Resolve(root, all, "/" + Join(names), cwd) == Walk(root, all, root, names)
  {
    assert ("/" + Join(names))[1..] == Join(names);
    ComponentsOfJoin(names);
  }

  // ---------------------------------------------------------------- dots and relative paths

  /** The parent, or the root itself. */
  function Up(d: Entry): Entry {
    if d.parent == null then d else d.parent
  }

  /** Going from the root by an entry's names and then on is going on from the entry. */
  lemma FromEntry(root: Entry, all: set<Entry>, cwd: Entry, d: Entry, names: seq<string>)
    requires Tree(root, all) && cwd in all && d in all && forall n :: n in names ==> Plain(n)
    ensures Resolve(root, all, "/" + Join(Names(root, all, d) + names), cwd) == Walk(root, all, d, names)
  {
    hide Tree;
    PathIsNames(root, all, d);
    WalkIsNames(root, all, Names(root, all, d), d);
    ResolveAbsolute(root, all, cwd, Names(root, all, d) + names);
    WalkAppend(root, all, root, Names(root, all, d), names);
  }

  /** A path that begins with ".." goes on from the parent of the current directory, or from the root
      if that is the root: it resolves as the absolute path through that directory does. */
  lemma FromParent(root: Entry, all: set<Entry>, cwd: Entry, names: seq<string>)
    requires Tree(root, all) && cwd in all && forall n :: n in names ==> Plain(n)
    ensures Up(cwd) in all
    ensures Resolve(root, all, "../" + Join(names), cwd) ==
            Resolve(root, all, "/" + Join(Names(root, all, Up(cwd)) + names), cwd)
    ensures Resolve(root, all, "..", cwd) == Found(Up(cwd))
  {
    assert ("../" + Join(names))[3..] == Join(names);
    assert ("../" + Join(names))[2..][1..] == Join(names);
    ComponentsOfJoin(names);
    FromEntry(root, all, cwd, Up(cwd), names);
    WalkEnd(root, all, Up(cwd));
  }

  /** One that begins with "." goes on from the current directory. */
  lemma FromHere(root: Entry, all: set<Entry>, cwd: Entry, names: seq<string>)
    requires Tree(root, all) && cwd in all && forall n :: n in names ==> Plain(n)
    ensures Resolve(root, all, "./" + Join(names), cwd) ==
            Resolve(root, all, "/" + Join(Names(root, all, cwd) + names), cwd)
    ensures Resolve(root, all, ".", cwd) == Found(cwd)
  {
    assert ("./" + Join(names))[1..][1..] == Join(names);
    ComponentsOfJoin(names);
    FromEntry(root, all, cwd, cwd, names);
    WalkEnd(root, all, cwd);
  }

  /** And so does one of names alone, if it does not begin with a dot. */
  lemma FromNames(root: Entry, all: set<Entry>, cwd: Entry, names: seq<string>)
    requires Tree(root, all) && cwd in all && forall n :: n in names ==> Plain(n)
    requires Join(names) != "" ==> Join(names)[0] != '.'
    ensures Resolve(root, all, Join(names), cwd) ==
            Resolve(root, all, "/" + Join(Names(root, all, cwd) + names), cwd)
  {
    if names != [] {
      assert Plain(names[0]) && names[0][0] in names[0];
      assert Join(names)[0] == names[0][0] && Join(names) != "";
    }
    ComponentsOfJoin(names);
    FromEntry(root, all, cwd, cwd, names);
  }

  /** Inside a path ".." undoes the name before it, if that leads to a directory; otherwise nothing is
      found. */
  lemma DotsUndo(root: Entry, all: set<Entry>, cwd: Entry, a: seq<string>, name: string, b: seq<string>)
    requires Tree(root, all) && cwd in all && GoodName(name)
    requires (forall n :: n in a ==> Plain(n)) && (forall n :: n in b ==> Plain(n))
    ensures var r := Resolve(root, all, "/" + Join(a + [name]), cwd);
      Resolve(root, all, "/" + Join(a + [name, ".."] + b), cwd) ==
        if r.Found? && r.entry.isDirectory then Resolve(root, all, "/" + Join(a + b), cwd) else Missing
  {
    hide Tree;
    ResolveAbsolute(root, all, cwd, a + [name]);
    ResolveAbsolute(root, all, cwd, a + [name, ".."] + b);
    ResolveAbsolute(root, all, cwd, a + b);
    WalkAppend(root, all, root, a, [name]);
    WalkAppend(root, all, root, a, b);
    WalkAppend(root, all, root, a, [name, ".."] + b);
    assert a + [name, ".."] + b == a + ([name, ".."] + b);
    WalkKinds(root, all, root, a);
    if Walk(root, all, root, a).Found? {
      var d := Walk(root, all, root, a).entry;
      ChildByName(root, all, d, name);
      WalkOne(root, all, d, name);
      var e := Child(d, name);
      assert ([name, ".."] + b)[1..] == [".."] + b && ([".."] + b)[1..] == b;
      if e != null && e.isDirectory {
        assert Walk(root, all, e, [".."] + b) == Walk(root, all, d, b);
      }
    }
  }

  /** "." inside a path stays where it is, if that is a directory. */
  lemma DotStays(root: Entry, all: set<Entry>, cwd: Entry, a: seq<string>, b: seq<string>)
    requires Tree(root, all) && cwd in all
    requires (forall n :: n in a ==> Plain(n)) && (forall n :: n in b ==> Plain(n))
    ensures var r := Resolve(root, all, "/" + Join(a), cwd);
      Resolve(root, all, "/" + Join(a + ["."] + b), cwd) ==
        if r.Found? && r.entry.isDirectory then Resolve(root, all, "/" + Join(a + b), cwd) else Missing
  {
    hide Tree;
    ResolveAbsolute(root, all, cwd, a);
    ResolveAbsolute(root, all, cwd, a + ["."] + b);
    ResolveAbsolute(root, all, cwd, a + b);
    WalkAppend(root, all, root, a, b);
    WalkAppend(root, all, root, a, ["."] + b);
    assert a + ["."] + b == a + (["."] + b) && (["."] + b)[1..] == b;
    WalkKinds(root, all, root, a);
  }

  /** Above the root there is nothing, but only inside a path. */
  lemma NothingAboveRoot(root: Entry, all: set<Entry>, cwd: Entry, b: seq<string>)
    requires Tree(root, all) && cwd in all && forall n :: n in b ==> Plain(n)
    ensures Resolve(root, all, "/" + Join([".."] + b), cwd) == Missing
    ensures Resolve(root, all, "..", root) == Found(root)
  {
    ResolveAbsolute(root, all, cwd, [".."] + b);
    FromParent(root, all, root, []);
  }

  /** A walk finds something or does not. */
  lemma {:induction false} WalkKinds(root: Entry, all: set<Entry>, current: Entry, names: seq<string>)
    requires Tree(root, all) && current in all
    ensures !Walk(root, all, current, names).Panic?
    decreases names
  {
    if names != [] {
      ChildInTree(root, all, current, names[0]);
      if Child(current, names[0]) != null {
        WalkKinds(root, all, Child(current, names[0]), names[1..]);
      }
    }
  }

  /** The resolver gives up exactly on paths that go on, after one or two dots at the beginning, with
      something other than a slash. */
  lemma PanicExactly(root: Entry, all: set<Entry>, path: string, cwd: Entry)
    requires Tree(root, all) && cwd in all
    ensures Resolve(root, all, path, cwd) == Panic <==>
      && |path| > 1 && path[0] == '.'
      && if path[1] == '.' then |path| > 2 && path[2] != '/' else path[1] != '/'
  {
    hide Tree, Walk, Components;
    StartInTree(root, all, path, cwd);
    var start := StartOf(path, root, cwd);
    if start.Begin? {
      WalkKinds(root, all, start.entry, Components(start.rest));
    }
  }

  // ---------------------------------------------------------------- parent and leaf

  function LastSlash(s: string): (i: int)
    ensures -1 <= i < |s|
    ensures i >= 0 ==> s[i] == '/'
    ensures forall k :: i < k < |s| ==> s[k] != '/'
  {
    if s == "" then -1 else if s[|s| - 1] == '/' then |s| - 1 else LastSlash(s[..|s| - 1])
  }

  function GetFilename(path: string): string {
    path[LastSlash(path) + 1..]
  }

  function ParentPath(path: string): string {
    if LastSlash(path) < 0 then "" else path[..LastSlash(path)]
  }

  /** resolve_parent. */
  method ResolveParent(root: Entry, ghost all: set<Entry>, path: string, cwd: Entry) returns (r: Lookup)
    requires Tree(root, all) && cwd in all
    ensures r == Resolve(root, all, ParentPath(path), cwd)
  {
    r := PathToEntry(root, all, ParentPath(path), cwd);
  }

  /** What open and its like do: look the last component up in the parent. */
  ghost function InParent(root: Entry, all: set<Entry>, path: string, cwd: Entry): Lookup
    requires Tree(root, all) && cwd in all
    reads all`entries
  {
    var parent := Resolve(root, all, ParentPath(path), cwd);
    if !parent.Found? then parent
    else
      ResolveInTree(root, all, ParentPath(path), cwd);
      var e := Child(parent.entry, GetFilename(path));
      if e == null then Missing else Found(e)
  }

  lemma ResolveInTree(root: Entry, all: set<Entry>, path: string, cwd: Entry)
    requires Tree(root, all) && cwd in all
    ensures Resolve(root, all, path, cwd).Found? ==> Resolve(root, all, path, cwd).entry in all
  {
    var start := StartOf(path, root, cwd);
    if start.Begin? {
      WalkAppend(root, all, start.entry, Components(start.rest), []);
    }
  }

  lemma {:induction false} LastSlashAt(s: string, last: string)
    requires '/' !in last
    ensures LastSlash(s + "/" + last) == |s|
  {
    var t := s + "/" + last;
    if last == "" {
      assert t[|t| - 1] == '/';
    } else {
      var init := last[..|last| - 1];
      assert t[|t| - 1] == last[|last| - 1] && last[|last| - 1] in last;
      assert t[..|t| - 1] == s + "/" + init;
      LastSlashAt(s, init);
    }
  }

  /** The two halves of a path: everything up to the last slash and what follows it. */
  lemma PathSplit(path: string)
    ensures '/' !in GetFilename(path)
    ensures if '/' in path then path == ParentPath(path) + "/" + GetFilename(path)
            else ParentPath(path) == "" && GetFilename(path) == path
  {
    var i := LastSlash(path);
    if i >= 0 {
      assert path == path[..i] + "/" + path[i + 1..];
    }
  }

  /** The first component is what stands before the first slash. */
  lemma FirstComponent(u: string, v: string)
    requires '/' !in u
    ensures Components(u + "/" + v) == [u] + Components(v)
  {
    var s := u + "/" + v;
    assert s == u + ("/" + v);
    FirstSlashAt(u, "/" + v);
    assert s[..|u|] == u && s[|u| + 1..] == v;
  }

  /** Splitting at a slash that follows a component. */
  lemma {:induction false} ComponentsSplit(s: string, t: string)
    requires s != "" && s[|s| - 1] != '/'
    ensures Components(s + "/" + t) == Components(s) + Components(t)
    decreases |s|
  {
    hide Components;
    var i := FirstSlash(s);
    if i == |s| {
      assert s[..i] == s;
      FirstComponent(s, t);
      OneComponent(s);
    } else {
      var u, v := s[..i], s[i + 1..];
      assert s == u + "/" + v && s + "/" + t == u + "/" + (v + "/" + t);
      assert v != "" && v[|v| - 1] == s[|s| - 1];
      FirstComponent(u, v);
      FirstComponent(u, v + "/" + t);
      ComponentsSplit(v, t);
    }
  }

  lemma OneComponent(s: string)
    requires s != "" && '/' !in s
    ensures Components(s) == [s]
  {
    FirstSlashAt(s, "");
    assert s + "" == s;
  }

  /** Looking the last component up in the parent is looking the whole path up, absolute or not,
      whenever anything but slashes ends the part before it. */
  lemma LeafInParent(root: Entry, all: set<Entry>, cwd: Entry, before: string, last: string)
    requires Tree(root, all) && cwd in all && before != "" && before[|before| - 1] != '/' && Plain(last)
    ensures InParent(root, all, before + "/" + last, cwd) == Resolve(root, all, before + "/" + last, cwd)
  {
    hide Tree, Walk, Child, Components;
    var path := before + "/" + last;
    LastSlashAt(before, last);
    assert ParentPath(path) == before && GetFilename(path) == last;
    StartBefore(root, cwd, before, last);
    StartInTree(root, all, before, cwd);
    var start := StartOf(before, root, cwd);
    if start.Begin? {
      ComponentsOfLast(start.rest, last);
      WalkAppend(root, all, start.entry, Components(start.rest), [last]);
      WalkKinds(root, all, start.entry, Components(start.rest));
      var r := Walk(root, all, start.entry, Components(start.rest));
      if r.Found? {
        WalkOne(root, all, r.entry, last);
      }
    }
  }

  /** A path begins where the part before its last component does. */
  lemma StartBefore(root: Entry, cwd: Entry, before: string, last: string)
    requires before != "" && before[|before| - 1] != '/'
    ensures match StartOf(before, root, cwd)
            case Unknown => StartOf(before + "/" + last, root, cwd) == Unknown
            case Begin(entry, rest) =>
              && (rest != "" ==> rest[|rest| - 1] != '/')
              && StartOf(before + "/" + last, root, cwd) == Begin(entry, if rest == "" then last else rest + "/" + last)
  {
    var path := before + "/" + last;
    assert path[1..] == before[1..] + "/" + last;
    if |before| > 1 {
      assert path[2..] == before[2..] + "/" + last;
      assert before[2..] != "" ==> path[3..] == before[3..] + "/" + last;
    }
    assert ("/" + last)[1..] == last;
  }

  lemma ComponentsOfLast(rest: string, last: string)
    requires Plain(last) && (rest != "" ==> rest[|rest| - 1] != '/')
    ensures Components(if rest == "" then last else rest + "/" + last) == Components(rest) + [last]
  {
    ComponentsOfJoin([last]);
    if rest != "" {
      ComponentsSplit(rest, last);
    }
  }

  /** A name alone is looked up in the current directory, whichever way; but the resolver gives up on
      one that begins with a dot. */
  lemma NameAlone(root: Entry, all: set<Entry>, cwd: Entry, last: string)
    requires Tree(root, all) && cwd in all && GoodName(last)
    ensures InParent(root, all, last, cwd) == if Child(cwd, last) == null then Missing else Found(Child(cwd, last))
    ensures InParent(root, all, last, cwd) == Resolve(root, all, last, cwd) <==> last[0] != '.'
  {
    hide Tree, Child;
    PathSplit(last);
    WalkEnd(root, all, cwd);
    PanicExactly(root, all, last, cwd);
    ComponentsOfJoin([last]);
    assert last[0] in last;
    WalkOne(root, all, cwd, last);
  }

  /** A slash at the end changes nothing. */
  lemma SlashAtEnd(root: Entry, all: set<Entry>, cwd: Entry, path: string)
    requires Tree(root, all) && cwd in all && path != "" && path[|path| - 1] != '/'
    ensures Resolve(root, all, path + "/", cwd) == Resolve(root, all, path, cwd)
  {
    hide Tree, Walk, Child, Components;
    assert path + "/" + "" == path + "/";
    StartBefore(root, cwd, path, "");
    var start := StartOf(path, root, cwd);
    if start.Begin? && start.rest != "" {
      NoComponents();
      ComponentsSplit(start.rest, "");
      assert Components(start.rest) + [] == Components(start.rest);
    }
  }

  lemma NoComponents()
    ensures Components("") == []
  {
  }

  /** Looking the last component up in the parent is looking the whole path up: for every absolute
      path of at least two non-empty components, whatever is found or missing on the way. */
  lemma ParentAndLeaf(root: Entry, all: set<Entry>, cwd: Entry, names: seq<string>, last: string)
    requires Tree(root, all) && cwd in all && names != []
    requires Plain(last) && forall n :: n in names ==> Plain(n)
    ensures InParent(root, all, "/" + Join(names + [last]), cwd) == Resolve(root, all, "/" + Join(names + [last]), cwd)
  {
    hide Tree, Walk, Child;
    var path := "/" + Join(names + [last]);
    JoinLast(names, last);
    assert path == ("/" + Join(names)) + "/" + last;
    LastSlashAt("/" + Join(names), last);
    assert ParentPath(path) == "/" + Join(names);
    assert GetFilename(path) == last;
    ResolveAbsolute(root, all, cwd, names);
    ResolveAbsolute(root, all, cwd, names + [last]);
    WalkAppend(root, all, root, names, [last]);
    if Walk(root, all, root, names).Found? {
      WalkOne(root, all, Walk(root, all, root, names).entry, last);
    }
  }

  /** With a single component the parent path is empty and means the current directory: the parent
      found is the root exactly when the caller stands there, and what the lookup in it finds is what the
      whole path leads to exactly when both directories have the same entry, or none, of that name. */
  lemma SingleComponent(root: Entry, all: set<Entry>, cwd: Entry, last: string)
    requires Tree(root, all) && cwd in all && Plain(last)
    ensures ParentPath("/" + last) == ""
    ensures Resolve(root, all, ParentPath("/" + last), cwd) == Resolve(root, all, "/", cwd) <==> cwd == root
    ensures InParent(root, all, "/" + last, cwd) == Resolve(root, all, "/" + last, cwd) <==>
      Child(cwd, last) == Child(root, last)
  {
    assert "" + "/" + last == "/" + last;
    LastSlashAt("", last);
    WalkEnd(root, all, cwd);
    WalkEnd(root, all, root);
    assert GetFilename("/" + last) == last;
    assert Join([last]) == last;
    ResolveAbsolute(root, all, cwd, [last]);
    WalkOne(root, all, root, last);
  }

  /** So a caller elsewhere misses an entry of the root that its own directory does not have. */
  lemma SingleComponentMisses(root: Entry, all: set<Entry>, cwd: Entry, last: string)
    requires Tree(root, all) && cwd in all && Plain(last)
    requires Child(cwd, last) == null && Child(root, last) != null
    ensures InParent(root, all, "/" + last, cwd) == Missing
    ensures Resolve(root, all, "/" + last, cwd) == Found(Child(root, last))
  {
    hide Tree, Child;
    SingleComponent(root, all, cwd, last);
    WalkEnd(root, all, cwd);
    assert "" + "/" + last == "/" + last;
    LastSlashAt("", last);
    assert GetFilename("/" + last) == last;
    assert Join([last]) == last;
    ResolveAbsolute(root, all, cwd, [last]);
    WalkOne(root, all, root, last);
  }

  /** Such a tree: a root holding one empty directory, seen from that directory. */
  method SingleComponentFails() returns (root: Entry, cwd: Entry, ghost all: set<Entry>)
    ensures Tree(root, all) && cwd in all && cwd.parent == root && cwd.name == "a"
    ensures InParent(root, all, "/a", cwd) == Missing && Resolve(root, all, "/a", cwd) == Found(cwd)
  {
    hide Walk, Resolve, InParent, Components;
    root := new Entry("/", null, true);
    cwd := new Entry("a", root, true);
    root.entries := [cwd];
    all := {root, cwd};
    assert Child(root, "a") == cwd && Child(cwd, "a") == null;
    assert Tree(root, all);
    SingleComponentMisses(root, all, cwd, "a");
    assert "/" + "a" == "/a";
  }

  // ---------------------------------------------------------------- the tree over time

  lemma MoreEntries(all: set<Entry>, d: Entry, e: Entry)
    requires Children(all, d)
    ensures Children(all + {e}, d)
  {
  }

  /** An entry of a new name joins a directory's list. */
  lemma LongerList(all: set<Entry>, es: seq<Entry>, d: Entry, e: Entry)
    requires d.isDirectory && d.entries == es + [e] && e.parent == d && Named(es, e.name) == null
    requires forall i :: 0 <= i < |es| ==> es[i] in all && es[i].parent == d
    requires forall i, j :: 0 <= i < j < |es| ==> es[i].name != es[j].name
    ensures Children(all + {e}, d)
  {
  }

  /** Append an entry made for it to a directory's list. */
  method Attach(root: Entry, ghost all: set<Entry>, d: Entry, e: Entry)
    requires Tree(root, all) && d in all && d.isDirectory && e !in all && e.parent == d && e.entries == []
    requires e.depth == d.depth + 1
    modifies d`entries
    ensures d.entries == old(d.entries) + [e]
    ensures GoodName(e.name) && old(Named(d.entries, e.name)) == null ==> Tree(root, all + {e})
  {
    hide GoodName;
    ghost var es := d.entries;
    assert Children(all, d);
    d.entries := d.entries + [e];
    if GoodName(e.name) && Named(es, e.name) == null {
      ghost var all' := all + {e};
      assert e in d.entries;
      forall x | x in all' && x != root
        ensures x.parent != null && x.parent in all' && x.depth == x.parent.depth + 1 && x in x.parent.entries
          && GoodName(x.name)
      {
        assert x != e ==> x in old(x.parent.entries);
      }
      forall c | c in all' ensures Children(all', c) {
        if c == d {
          LongerList(all, es, d, e);
        } else if c == e {
          assert e.entries == [];
        } else {
          assert old(Children(all, c)) && c.entries == old(c.entries);
          MoreEntries(all, c, e);
        }
      }
    }
  }

  /** create_file, create_directory and create_symbolic_link. */
  method Create(root: Entry, ghost all: set<Entry>, d: Entry, name: string, isDirectory: bool) returns (e: Entry?)
    requires Tree(root, all) && d in all
    modifies d`entries
    ensures !d.isDirectory ==> e == null && d.entries == old(d.entries)
    ensures d.isDirectory ==>
      e != null && fresh(e) && e.name == name && e.parent == d && e.isDirectory == isDirectory && e.entries == []
      && d.entries == old(d.entries) + [e]
    ensures d.isDirectory && GoodName(name) && old(Named(d.entries, name)) == null ==> Tree(root, all + {e})
  {
    hide Tree, GoodName, Named;
    if !d.isDirectory {
      return null;
    }
    e := new Entry(name, d, isDirectory);
    Attach(root, all, d, e);
  }
}
