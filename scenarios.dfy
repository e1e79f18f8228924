/** The documented behaviour of the project-path functions on concrete
    shapes of path, stated for arbitrary names so that each covers every
    path of that shape. */
module ProjectPathScenarios {
  import opened Wrappers
  import opened PosixPath
  import opened ProjectPath

  lemma NameStart(name: string)
    requires IsName(name)
    ensures name[0] != Sep && !StartsWithSlash(name)
  {
    assert name[0] in name;
  }

  /** The rationalised shape of `/a`, `/a/b` and `/a/b/c`. */
  lemma ComposeNames(a: string, b: string, c: string)
    ensures Compose(false, [a], false) == "/" + a
    ensures Compose(false, [a, b], false) == "/" + a + "/" + b
    ensures Compose(false, [a, b, c], false) == "/" + a + "/" + b + "/" + c
  {
    assert [a, b][..1] == [a];
    assert JoinWith([a, b]) == a + [Sep] + b;
    assert [a, b, c][..2] == [a, b];
    assert JoinWith([a, b, c]) == JoinWith([a, b]) + [Sep] + c;
  }

  /** `/a/b/../c/` is its pieces joined by `/`. */
  lemma DotDotJoin(a: string, b: string, c: string)
    ensures JoinWith(["", a, b, "..", c, ""]) == "/" + a + "/" + b + "/../" + c + "/"
  {
    var pieces := ["", a, b, "..", c, ""];
    assert pieces[..5][..4] == pieces[..4] && pieces[..4][..3] == pieces[..3];
    assert pieces[..3][..2] == pieces[..2] && pieces[..2][..1] == pieces[..1];
    assert JoinWith(pieces[..2]) == "/" + a;
    assert JoinWith(pieces[..3]) == "/" + a + "/" + b;
    assert JoinWith(pieces[..4]) == "/" + a + "/" + b + "/..";
    assert JoinWith(pieces[..5]) == "/" + a + "/" + b + "/../" + c;
  }

  /** The pieces of `/a/b/../c/`. */
  lemma DotDotPieces(a: string, b: string, c: string)
    requires IsName(a) && IsName(b) && IsName(c)
    ensures Split("/" + a + "/" + b + "/../" + c + "/") == ["", a, b, "..", c, ""]
  {
    DotDotJoin(a, b, c);
    SplitJoinWith(["", a, b, "..", c, ""]);
  }

  /** `normpath`'s loop on the pieces of `/a/b/../c/` keeps `a` and `c`. */
  lemma DotDotCollapse(a: string, b: string, c: string)
    requires IsName(a) && IsName(b) && IsName(c)
    ensures Collapse(["", a, b, "..", c, ""], true) == [a, c]
  {
    assert Collapse(["", a, b], true) == [a, b] by {
      CollapseEmpty([""], true);
      CollapseNames([""], [a, b], true);
      assert [""] + [a, b] == ["", a, b];
    }
    assert Collapse(["", a, b, ".."], true) == [a] by {
      assert ["", a, b, ".."][..3] == ["", a, b];
    }
    assert Collapse(["", a, b, "..", c], true) == [a, c] by {
      assert ["", a, b, "..", c][..4] == ["", a, b, ".."];
    }
    assert ["", a, b, "..", c, ""][..5] == ["", a, b, "..", c];
  }

  /** The rooted form of `a/b/../c/` starts with one `/`, ends with `/`, and
      holds the names `a` and `c`. */
  lemma DotDotNames(a: string, b: string, c: string)
    requires IsName(a) && IsName(b) && IsName(c)
    ensures var input := a + "/" + b + "/../" + c + "/";
            && Names(input) == [a, c]
            && InitialSlashes(Rooted(input)) == "/"
            && EndsWithSlash(Rooted(input))
  {
    var input := a + "/" + b + "/../" + c + "/";
    var rooted := "/" + a + "/" + b + "/../" + c + "/";
    NameStart(a);
    assert Rooted(input) == rooted by {
      assert input[0] == a[0];
      assert rooted == "/" + input;
    }
    DotDotPieces(a, b, c);
    DotDotCollapse(a, b, c);
    assert rooted[1] == a[0];
  }

  /** `a/b/../c/` is rooted, the `..` cancels `b`, and the trailing `/` stays:
      `/a/c/`. */
  lemma RationaliseCollapsesDotDot(a: string, b: string, c: string)
    requires IsName(a) && IsName(b) && IsName(c)
    ensures Rationalise(a + "/" + b + "/../" + c + "/") == "/" + a + "/" + c + "/"
  {
    var input := a + "/" + b + "/../" + c + "/";
    calc {
      Rationalise(input);
      { RationaliseForm(input); DotDotNames(a, b, c); }
      Compose(false, [a, c], true);
      { assert JoinWith([a, c]) == a + [Sep] + c; }
      "/" + a + "/" + c + "/";
    }
  }

  /** `project_relative_path("/a/", "/a/b/c")` is `b/c`. */
  lemma RelativePathBelowRoot(a: string, b: string, c: string)
    requires IsName(a) && IsName(b) && IsName(c)
    ensures RelativePath("/" + a + "/", "/" + a + "/" + b + "/" + c) == Success(b + "/" + c)
  {
    var root, path := Compose(false, [a], true), Compose(false, [a, b, c], false);
    ComposeNames(a, b, c);
    assert root == "/" + a + "/";
    assert [a] + [b, c] == [a, b, c];
    RelativePathOfDescendant(false, [a], [b, c], false);
    assert RelativePath(Compose(false, [a], true), Compose(false, [a] + [b, c], false)) == Success(JoinWith([b, c]) + "");
    assert Compose(false, [a] + [b, c], false) == path;
    assert JoinWith([b, c]) + "" == JoinWith([b, c]);
    assert RelativePath(root, path) == Success(JoinWith([b, c]));
    assert JoinWith([b, c]) == b + "/" + c by {
      assert [b, c][..1] == [b];
    }
  }

  /** The root `/a/` is not a string prefix of `/x/y` when the names differ. */
  lemma OtherNameNotUnder(a: string, x: string, y: string)
    requires IsName(a) && IsName(x) && a != x
    ensures !("/" + a + "/" <= "/" + x + "/" + y)
  {
    var root, path := "/" + a + "/", "/" + x + "/" + y;
    var k: nat;
    if |a| < |x| {
      k := |a| + 1;
      assert x[|a|] in x;
    } else if |a| > |x| {
      k := |x| + 1;
      assert a[|x|] in a;
    } else {
      var i :| 0 <= i < |a| && a[i] != x[i];
      k := i + 1;
    }
    assert k < |root| && k < |path| && root[k] != path[k];
  }

  /** `project_relative_path("/a/", "/x/y")` raises `ValueError` when the
      first names differ. */
  lemma RelativePathOutsideRoot(a: string, x: string, y: string)
    requires IsName(a) && IsName(x) && IsName(y) && a != x
    ensures RelativePath("/" + a + "/", "/" + x + "/" + y).Failure?
  {
    ComposeNames(a, "", "");
    ComposeNames(x, y, "");
    assert Compose(false, [a], true) == "/" + a + "/";
    RationaliseCompose(false, [a], true);
    RationaliseCompose(false, [x, y], false);
    OtherNameNotUnder(a, x, y);
  }

  /** The ancestors of `/a/b/c` are `/`, `/a/` and `/a/b/`. */
  lemma AncestorsOfThree(a: string, b: string, c: string)
    ensures Ancestors([a, b, c]) == ["/", "/" + a + "/", "/" + a + "/" + b + "/"]
  {
    var names := [a, b, c];
    ComposeNames(a, b, c);
    assert names[..0] == [] && names[..1] == [a] && names[..2] == [a, b];
    var dirs := Ancestors(names);
    assert dirs[0] == Compose(false, [], true) == "/";
    assert dirs[1] == Compose(false, [a], true) == "/" + a + "/";
    assert dirs[2] == Compose(false, [a, b], true) == "/" + a + "/" + b + "/";
  }

  /** `project_parent_directories("/a/b/c.txt")` is `["/", "/a/", "/a/b/"]`. */
  lemma ParentDirectoriesOfNestedFile(a: string, b: string, c: string)
    requires IsName(a) && IsName(b) && IsName(c)
    ensures ParentDirectoryList("/" + a + "/" + b + "/" + c) == ["/", "/" + a + "/", "/" + a + "/" + b + "/"]
  {
    ComposeNames(a, b, c);
    ParentDirectoryListCompose([a, b, c], false);
    AncestorsOfThree(a, b, c);
  }

  /** `project_parent_directory("/")` is `None`. */
  lemma ParentDirectoryOfRoot()
    ensures ParentDirectory("/") == None
  {
    assert Compose(false, [], false) == "/";
    ParentDirectoryCompose(false, [], false);
  }

  /** `project_parent_directory("/a/b/")` is `/a`: the trailing `/` marks a
      directory, whose parent is taken. */
  lemma ParentDirectoryOfDirectory(a: string, b: string)
    requires IsName(a) && IsName(b)
    ensures ParentDirectory("/" + a + "/" + b + "/") == Some("/" + a)
  {
    ComposeNames(a, b, "");
    assert Compose(false, [a, b], true) == "/" + a + "/" + b + "/";
    assert [a, b][..1] == [a];
    ParentDirectoryCompose(false, [a, b], true);
  }

  /** POSIX keeps exactly two leading slashes, so `//` is its own
      rationalisation and its parent is the empty string. */
  lemma DoubleSlashRoot()
    ensures Rationalise("//") == "//"
    ensures ParentDirectory("//") == Some("")
  {
    assert Compose(true, [], false) == "//";
    RationaliseCompose(true, [], false);
    ParentDirectoryCompose(true, [], false);
  }

  /** The parent of a name under `//` is `//`, which ends in `/` without
      being the root `/`. */
  lemma DoubleSlashParent(name: string)
    requires IsName(name)
    ensures ParentDirectory("//" + name) == Some("//")
  {
    assert Compose(true, [name], false) == "//" + name;
    ParentDirectoryCompose(true, [name], false);
  }

  /** A name under `//` meets the same flaw as a top-level file: its dirname
      `//` splits into three empty pieces, so the list as written ends with
      `///`, which is not a prefix of the path; the corrected list is `/`. */
  lemma DoubleSlashTopLevelFile(name: string)
    requires IsName(name)
    ensures ParentDirectoryList("//" + name) == ["/", "//", "///"]
    ensures !("///" <= Rationalise("//" + name))
    ensures AncestorDirectoryList("//" + name) == ["/"]
  {
    assert Compose(true, [name], false) == "//" + name;
    RationaliseCompose(true, [name], false);
    ParentOfCompose(true, [name], false);
    assert ParentOf("//" + name) == "//";
    DoubleRootPrefixes();
    assert name[0] != Sep by { assert name[0] in name; }
    assert RStrip("//") == "" by { RStripAllSlashes("//"); }
    EmptyPrefixes();
  }

  /** Under `//`, both lists hold `/` and `//` before the directory of the
      first name: the path `//a/b` lists `/`, `//` and `//a/`. */
  lemma DoubleSlashNestedFile(a: string, b: string)
    requires IsName(a) && IsName(b)
    ensures ParentDirectoryList("//" + a + "/" + b) == ["/", "//", "//" + a + "/"]
    ensures AncestorDirectoryList("//" + a + "/" + b) == ["/", "//", "//" + a + "/"]
  {
    assert ParentOf("//" + a + "/" + b) == "//" + a by {
      DoubleSlashNestedParent(a, b);
    }
    assert RStrip("//" + a) == "//" + a by {
      assert a[|a| - 1] in a;
    }
    DoublePrefixesOfName(a);
  }

  /** The dirname of `//a/b` is `//a`. */
  lemma DoubleSlashNestedParent(a: string, b: string)
    requires IsName(a) && IsName(b)
    ensures ParentOf("//" + a + "/" + b) == "//" + a
  {
    assert Compose(true, [a, b], false) == "//" + a + "/" + b;
    RationaliseCompose(true, [a, b], false);
    ParentOfCompose(true, [a, b], false);
    assert [a, b][..1] == [a];
  }

  /** The prefixes of `//a` are `/`, `//` and `//a/`. */
  lemma DoublePrefixesOfName(a: string)
    requires IsName(a)
    ensures DirectoryPrefixes("//" + a) == ["/", "//", "//" + a + "/"]
  {
    var parts := Split("//" + a);
    assert parts == ["", "", a] by {
      assert "//" + a == "/" + [Sep] + a;
      SplitAround("/", a);
      SplitName(a);
      SplitAbsolute("/");
      assert "/"[1..] == "";
    }
    assert parts[..1] == [""] && parts[..2] == ["", ""] && parts[..3] == parts;
    assert JoinWith(["", ""]) == JoinWith([""]) + [Sep] + "";
    assert JoinWith(["", "", a]) == JoinWith(["", ""]) + [Sep] + a;
    var dirs := DirectoryPrefixes("//" + a);
    assert |dirs| == 3;
    assert dirs[0] == JoinWith(parts[..1]) + "/" == "/";
    assert dirs[1] == JoinWith(parts[..2]) + "/" == "//";
    assert dirs[2] == JoinWith(parts[..3]) + "/" == "//" + a + "/";
  }
}
