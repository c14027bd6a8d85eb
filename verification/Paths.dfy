/** Path strings of the mount (src/inode.rs) and the mount-root prefix (src/afc.rs),
    connected to the list of names a path stands for. */
module Paths {
  import opened Splitting

  type Names = seq<string>

  predicate ValidName(name: string) { Solid(name, '/') }

  predicate ValidNames(names: Names) { AllSolid(names, '/') }

  function Join(names: Names): string {
    if names == [] then "" else "/" + names[0] + Join(names[1..])
  }

  /** The path string of a list of names; the root is "/". */
  function Render(names: Names): string {
    if names == [] then "/" else Join(names)
  }

  /** The names a path string lists. */
  function Components(path: string): Names { Pieces(path, '/') }

  predicate Canonical(path: string) { Render(Components(path)) == path }

  // ----- The source's own string operations -----

  function Child(parent: string, name: string): string {
    if parent == "/" then "/" + name else parent + "/" + name
  }

  /** Index of the last '/' in s, or -1: what rsplit_once looks for. */
  function LastSlash(s: string): (i: int)
    ensures -1 <= i < |s|
  {
    if s == "" then -1
    else if s[|s| - 1] == '/' then |s| - 1
    else LastSlash(s[..|s| - 1])
  }

  function Parent(path: string): string {
    if path == "/" then "/"
    else
      var i := LastSlash(path);
      if i <= 0 then "/" else path[..i]
  }

  /** The test `p == from || p.starts_with(from + "/")` of rename and remove. */
  predicate InSubtree(path: string, from: string) {
    path == from || from + "/" <= path
  }

  /** `to` + suffix, for a path that starts with `from`. */
  function Image(from: string, to: string, path: string): string
    requires from <= path
  {
    to + path[|from|..]
  }

  function TrimEndSlashes(s: string): string {
    if s != "" && s[|s| - 1] == '/' then TrimEndSlashes(s[..|s| - 1]) else s
  }

  /** AfcTransport::path: the device path of a mount path. */
  function DevicePath(root: string, path: string): string {
    if root == "/" then
      if "/" <= path then path else "/" + path
    else if path == "/" || path == "" then root
    else TrimEndSlashes(root) + path
  }

  // ----- Names and strings determine each other -----

  lemma {:induction false} JoinConcat(a: Names, b: Names)
    ensures Join(a + b) == Join(a) + Join(b)
  {
    if a == [] {
      assert a + b == b;
    } else {
      assert (a + b)[1..] == a[1..] + b;
      JoinConcat(a[1..], b);
    }
  }

  lemma {:induction false} PiecesOfJoin(before: string, names: Names)
    requires ValidNames(names)
    ensures Pieces(before + Join(names), '/') == Pieces(before, '/') + names
    decreases |names|
  {
    if names == [] {
      assert before + Join(names) == before;
    } else {
      var name, rest := names[0], names[1..];
      assert ValidNames(rest) && Solid(name, '/');
      assert before + Join(names) == before + ['/'] + (name + Join(rest));
      PiecesAtSeparator(before, '/', name + Join(rest));
      PiecesOfJoin(name, rest);
      PiecesOfSolid(name, '/');
      assert [name] + rest == names;
    }
  }

  lemma PiecesOfNothing()
    ensures Pieces("", '/') == []
  {
    assert Split("", '/') == [[]];
    assert NonEmpty([""]) == NonEmpty([""][1..]);
  }

  /** Rendering then cutting gives the names back, so Render is injective. */
  lemma ComponentsOfRender(names: Names)
    requires ValidNames(names)
    ensures Components(Render(names)) == names && Canonical(Render(names))
  {
    if names == [] {
      PiecesOfNothing();
      PiecesAtSeparator("", '/', "");
      assert "/" == "" + ['/'] + "";
    } else {
      PiecesOfJoin("", names);
      assert "" + Join(names) == Join(names);
      PiecesOfNothing();
    }
  }

  lemma ComponentsAreValid(path: string)
    ensures ValidNames(Components(path))
  {
    PiecesAreSolid(path, '/');
  }

  lemma {:induction false} JoinNonRoot(names: Names)
    requires ValidNames(names) && names != []
    ensures |Join(names)| >= 2 && Join(names)[0] == '/' && Join(names)[|Join(names)| - 1] != '/'
    decreases |names|
  {
    assert Solid(names[0], '/');
    if names[1..] != [] {
      assert ValidNames(names[1..]);
      JoinNonRoot(names[1..]);
    }
  }

  // ----- child and parent -----

  /** child appends one name to the list. */
  lemma ChildOfRender(names: Names, name: string)
    requires ValidNames(names)
    ensures Child(Render(names), name) == Render(names + [name])
  {
    JoinConcat(names, [name]);
    assert Join([name]) == "/" + name;
    if names != [] {
      JoinNonRoot(names);
    }
  }

  lemma {:induction false} LastSlashOf(prefix: string, name: string)
    requires '/' !in name
    ensures LastSlash(prefix + "/" + name) == |prefix|
    decreases |name|
  {
    var s := prefix + "/" + name;
    if name == "" {
      assert s[|s| - 1] == '/';
    } else {
      var shorter := name[..|name| - 1];
      assert s[..|s| - 1] == prefix + "/" + shorter;
      assert s[|s| - 1] == name[|name| - 1] && name[|name| - 1] in name;
      LastSlashOf(prefix, shorter);
    }
  }

  /** parent drops the last name, and the root is its own parent. */
  lemma ParentOfRender(names: Names)
    requires ValidNames(names)
    ensures Parent(Render(names)) == Render(if names == [] then [] else names[..|names| - 1])
  {
    if names != [] {
      var init, last := names[..|names| - 1], names[|names| - 1];
      assert names == init + [last];
      assert ValidNames(init) && Solid(last, '/');
      JoinConcat(init, [last]);
      assert Join([last]) == "/" + last;
      assert Join(names) == Join(init) + "/" + last;
      LastSlashOf(Join(init), last);
      JoinNonRoot(names);
      if init != [] {
        JoinNonRoot(init);
      }
    }
  }

  /** parent undoes child on every canonical path and every legal name. */
  lemma ParentOfChild(path: string, name: string)
    requires Canonical(path) && ValidName(name)
    ensures Canonical(Child(path, name)) && Parent(Child(path, name)) == path
    ensures Components(Child(path, name)) == Components(path) + [name]
  {
    var names := Components(path);
    ComponentsAreValid(path);
    ChildOfRender(names, name);
    assert ValidNames(names + [name]);
    ComponentsOfRender(names + [name]);
    ParentOfRender(names + [name]);
    assert (names + [name])[..|names|] == names;
  }

  // ----- The subtree test -----

  /** The string test is the test on names. Only for the root itself does it fall short:
      "//" starts no canonical path, so there it selects the root alone. */
  lemma SubtreeIsPrefix(path: string, from: string)
    requires Canonical(path) && Canonical(from)
    ensures InSubtree(path, from) <==>
            if from == "/" then path == "/" else Components(from) <= Components(path)
  {
    var ps, fs := Components(path), Components(from);
    ComponentsAreValid(path);
    ComponentsAreValid(from);
    if from == "/" {
      if from + "/" <= path {
        assert path[1] == '/';
        JoinSecond(ps);
      }
    } else {
      if from + "/" <= path {
        var rest := path[|from| + 1..];
        assert path == from + ['/'] + rest;
        PiecesAtSeparator(from, '/', rest);
      }
      if fs <= ps {
        var rest := ps[|fs|..];
        assert ps == fs + rest;
        JoinConcat(fs, rest);
        if rest != [] {
          assert Join(rest) == "/" + (rest[0] + Join(rest[1..]));
          assert path == from + "/" + (rest[0] + Join(rest[1..]));
        } else {
          assert ps == fs;
        }
      }
    }
  }

  lemma JoinSecond(names: Names)
    requires ValidNames(names)
    ensures |Render(names)| >= 2 ==> Render(names)[1] != '/'
  {
    if names != [] {
      assert Solid(names[0], '/');
      assert Join(names)[1] == names[0][0];
    }
  }

  /** Replacing the string prefix replaces the names prefix. */
  lemma ImageIsSubstitution(from: string, to: string, path: string)
    requires Canonical(from) && Canonical(to) && Canonical(path)
    requires from != "/" && to != "/" && InSubtree(path, from)
    ensures from <= path && Components(from) <= Components(path)
    ensures Canonical(Image(from, to, path))
    ensures Components(Image(from, to, path)) == Components(to) + Components(path)[|Components(from)|..]
  {
    SubtreeIsPrefix(path, from);
    var ps, fs, ts := Components(path), Components(from), Components(to);
    var rest := ps[|fs|..];
    ComponentsAreValid(path);
    ComponentsAreValid(to);
    assert ps == fs + rest;
    JoinConcat(fs, rest);
    JoinConcat(ts, rest);
    assert ValidNames(ts + rest);
    assert fs != [] && ts != [];
    assert path == from + Join(rest);
    assert Image(from, to, path) == to + Join(rest) == Render(ts + rest);
    ComponentsOfRender(ts + rest);
  }

  // ----- The mount root -----

  lemma TrimCanonical(root: string)
    requires Canonical(root) && root != "/"
    ensures TrimEndSlashes(root) == root
  {
    ComponentsAreValid(root);
    JoinNonRoot(Components(root));
  }

  /** Mounting prepends the root's names. Everything the tree needs follows from this. */
  lemma DevicePathPrepends(root: string, path: string)
    requires Canonical(root) && Canonical(path)
    ensures Canonical(DevicePath(root, path))
    ensures Components(DevicePath(root, path)) == Components(root) + Components(path)
  {
    var rs, ps := Components(root), Components(path);
    ComponentsAreValid(root);
    ComponentsAreValid(path);
    assert ValidNames(rs + ps);
    ComponentsOfRender([]);
    if root == "/" {
      if ps != [] {
        JoinNonRoot(ps);
      }
      assert rs + ps == ps;
    } else if ps == [] {
      assert rs + ps == rs;
    } else {
      TrimCanonical(root);
      JoinConcat(rs, ps);
      JoinNonRoot(ps);
      assert DevicePath(root, path) == Render(rs + ps);
    }
    ComponentsOfRender(rs + ps);
  }

  lemma DevicePathInjective(root: string, p: string, q: string)
    requires Canonical(root) && Canonical(p) && Canonical(q)
    requires DevicePath(root, p) == DevicePath(root, q)
    ensures p == q
  {
    DevicePathPrepends(root, p);
    DevicePathPrepends(root, q);
    var n := |Components(root)|;
    assert (Components(root) + Components(p))[n..] == Components(p);
    assert (Components(root) + Components(q))[n..] == Components(q);
  }

  lemma DevicePathOfChild(root: string, path: string, name: string)
    requires Canonical(root) && Canonical(path) && ValidName(name)
    ensures DevicePath(root, Child(path, name)) == Child(DevicePath(root, path), name)
  {
    ParentOfChild(path, name);
    DevicePathPrepends(root, path);
    DevicePathPrepends(root, Child(path, name));
    ParentOfChild(DevicePath(root, path), name);
    assert Components(root) + (Components(path) + [name]) == Components(root) + Components(path) + [name];
  }

  /** Device-side and mount-side subtree tests agree, except that the test for the mount's own root
      selects one path on the mount and the whole tree below a non-trivial device root. */
  lemma DevicePathKeepsSubtrees(root: string, path: string, from: string)
    requires Canonical(root) && Canonical(path) && Canonical(from)
    ensures (InSubtree(DevicePath(root, path), DevicePath(root, from)) <==> InSubtree(path, from))
            <==> (from != "/" || root == "/" || path == "/")
  {
    DevicePathPrepends(root, path);
    DevicePathPrepends(root, from);
    SubtreeIsPrefix(path, from);
    SubtreeIsPrefix(DevicePath(root, path), DevicePath(root, from));
    ComponentsOfRender([]);
    var rs, ps, fs := Components(root), Components(path), Components(from);
    if fs <= ps {
      assert rs + ps == (rs + fs) + ps[|fs|..];
    }
    if rs + fs <= rs + ps {
      assert (rs + ps)[|rs|..] == ps && (rs + ps)[|rs|..|rs| + |fs|] == (rs + fs)[|rs|..] == fs;
      assert fs <= ps;
    }
    if from != "/" {
      assert fs != [];
    }
  }

  /** Renaming in the table and renaming on the device move the same entries to the same places: mapping the image of a
      path to the device is taking the image of its device path. */
  lemma DevicePathOfImage(root: string, from: string, to: string, path: string)
    requires Canonical(root) && Canonical(from) && Canonical(to) && Canonical(path)
    requires from != "/" && to != "/" && InSubtree(path, from)
    ensures InSubtree(DevicePath(root, path), DevicePath(root, from))
    ensures DevicePath(root, from) <= DevicePath(root, path)
    ensures DevicePath(root, Image(from, to, path)) == Image(DevicePath(root, from), DevicePath(root, to), DevicePath(root, path))
  {
    hide DevicePath, Image, InSubtree, Canonical, Components;
    var rs, fs, ts, ps := Components(root), Components(from), Components(to), Components(path);
    DevicePathKeepsSubtrees(root, path, from);
    ImageIsSubstitution(from, to, path);
    DevicePathPrepends(root, path);
    DevicePathPrepends(root, from);
    DevicePathPrepends(root, to);
    DevicePathPrepends(root, Image(from, to, path));
    DeviceRootIsTop(root, from);
    DeviceRootIsTop(root, to);
    ImageIsSubstitution(DevicePath(root, from), DevicePath(root, to), DevicePath(root, path));
    assert (rs + ps)[|rs + fs|..] == ps[|fs|..];
    assert rs + (ts + ps[|fs|..]) == (rs + ts) + ps[|fs|..];
    SameNames(DevicePath(root, Image(from, to, path)),
              Image(DevicePath(root, from), DevicePath(root, to), DevicePath(root, path)));
  }

  lemma DeviceRootIsTop(root: string, path: string)
    requires Canonical(root) && Canonical(path)
    ensures DevicePath(root, path) == "/" ==> path == "/"
  {
    DevicePathPrepends(root, path);
    ComponentsOfRender([]);
  }

  lemma SameNames(p: string, q: string)
    requires Canonical(p) && Canonical(q) && Components(p) == Components(q)
    ensures p == q
  {
  }

  /** Trimming takes away exactly the slashes at the end. */
  lemma {:induction false} TrimmedIsPrefix(s: string)
    ensures TrimEndSlashes(s) <= s
    ensures TrimEndSlashes(s) != "" ==> TrimEndSlashes(s)[|TrimEndSlashes(s)| - 1] != '/'
    ensures forall i | |TrimEndSlashes(s)| <= i < |s| :: s[i] == '/'
    decreases |s|
  {
    if s != "" && s[|s| - 1] == '/' {
      TrimmedIsPrefix(s[..|s| - 1]);
    }
  }

  /** The device path of any string at all: under the root "/" an absolute path is itself and a relative one is made
      absolute; under another root the root comes first, without its trailing slashes, and alone for "/" or nothing. */
  lemma DevicePathOfAny(root: string, path: string)
    ensures root == "/" && path != "" && path[0] == '/' ==> DevicePath(root, path) == path
    ensures root == "/" && (path == "" || path[0] != '/') ==> DevicePath(root, path) == "/" + path
    ensures root != "/" && (path == "/" || path == "") ==> DevicePath(root, path) == root
    ensures root != "/" && path != "/" && path != "" ==>
              exists bare ::
                && DevicePath(root, path) == bare + path && bare <= root
                && (bare != "" ==> bare[|bare| - 1] != '/') && forall i | |bare| <= i < |root| :: root[i] == '/'
  {
    TrimmedIsPrefix(root);
  }
}
