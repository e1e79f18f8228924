/** The project-path algebra of `faculty/datasets/path.py`: paths inside a
    dataset project are POSIX-style strings rooted at `/`. */
module ProjectPath {
  import opened Wrappers
  import opened PosixPath

  /** The `ValueError` that `project_relative_path` raises, with its message. */
  datatype Error = ValueError(message: string)

  // ------------------------------------------------------ rationalise_projectpath

  /** `rationalise_projectpath`: root the path at `/`, normalise it, and keep
      a trailing `/` that normalisation dropped. */
  function Rationalise(path: string): (r: string)
    ensures StartsWithSlash(r)
  {
    var rooted := Rooted(path);
    var normed := NormPath(rooted);
    if EndsWithSlash(rooted) && !EndsWithSlash(normed) then
      assert (normed + "/")[0] == normed[0];
      normed + "/"
    else
      normed
  }

  /** The path rooted at `/`, as `rationalise_projectpath` first computes it. */
  function Rooted(path: string): (rooted: string)
    ensures StartsWithSlash(rooted)
  {
    Join("/", path)
  }

  /** The names a rationalised path holds, in order. */
  function Names(path: string): seq<string> {
    Collapse(Split(Rooted(path)), true)
  }

  /** The shape of every rationalised path: `/` (or exactly `//`), names joined
      by `/`, and a trailing `/` only after at least one name. */
  function Compose(double: bool, names: seq<string>, trailing: bool): string {
    (if double then "//" else "/") + JoinWith(names) + (if trailing && names != [] then "/" else "")
  }

  /** A rationalised path is made of `/` or `//`, valid names and an optional
      trailing `/`; the double slash survives only when the rooted path
      began with exactly two. */
  lemma RationaliseForm(path: string)
    ensures AllNames(Names(path))
    ensures Rationalise(path) == Compose(InitialSlashes(Rooted(path)) == "//", Names(path), EndsWithSlash(Rooted(path)))
  {
    var rooted := Rooted(path);
    NormPathAbsolute(rooted);
    var names := Names(path);
    var lead := InitialSlashes(rooted);
    var double := lead == "//";
    var trailing := EndsWithSlash(rooted);
    var normed := NormPath(rooted);
    assert lead == (if double then "//" else "/");
    assert normed == lead + JoinWith(names);
    var r := Rationalise(path);
    assert r == if trailing && !EndsWithSlash(normed) then normed + "/" else normed;
    if names != [] {
      JoinWithNames(names);
      assert !EndsWithSlash(normed);
      assert r == Compose(double, names, trailing);
    } else {
      assert normed == lead;
      assert r == Compose(double, names, trailing);
    }
  }

  /** The pieces a path of the rationalised shape splits into. */
  function ComposePieces(double: bool, names: seq<string>, trailing: bool): seq<string> {
    if names == [] then (if double then ["", "", ""] else ["", ""])
    else (if double then ["", ""] else [""]) + names + (if trailing then [""] else [])
  }

  lemma SplitRoot(double: bool)
    ensures Split(Compose(double, [], false)) == ComposePieces(double, [], false)
  {
    var s := Compose(double, [], false);
    if double {
      assert s == "//";
      SplitAbsolute(s);
      SplitAbsolute(s[1..]);
      assert s[1..][1..] == "";
    } else {
      assert s == "/";
      SplitAbsolute(s);
      assert s[1..] == "";
    }
  }

  lemma SplitFront(double: bool, names: seq<string>)
    requires AllNames(names) && names != []
    ensures Split(Compose(double, names, false)) == ComposePieces(double, names, false)
  {
    var body := JoinWith(names);
    var s := Compose(double, names, false);
    if double {
      assert s == [Sep] + ([Sep] + body);
      assert Split(s) == [""] + ([""] + names) by {
        SplitNames(names);
        SplitSlashFront(body);
        SplitSlashFront([Sep] + body);
      }
      assert ComposePieces(double, names, false) == [""] + ([""] + names);
    } else {
      assert s == [Sep] + body;
      assert Split(s) == [""] + names by {
        SplitNames(names);
        SplitSlashFront(body);
      }
      assert ComposePieces(double, names, false) == [""] + names;
    }
  }

  lemma SplitCompose(double: bool, names: seq<string>, trailing: bool)
    requires AllNames(names)
    ensures Split(Compose(double, names, trailing)) == ComposePieces(double, names, trailing)
  {
    if names == [] {
      assert Compose(double, names, trailing) == Compose(double, [], false);
      SplitRoot(double);
    } else {
      var front := Compose(double, names, false);
      SplitFront(double, names);
      if trailing {
        assert Compose(double, names, trailing) == front + [Sep] + "";
        SplitAround(front, "");
      }
    }
  }

  lemma InitialSlashesCompose(double: bool, names: seq<string>, trailing: bool)
    requires AllNames(names)
    ensures InitialSlashes(Compose(double, names, trailing)) == if double then "//" else "/"
  {
    var s := Compose(double, names, trailing);
    if names != [] {
      JoinWithNames(names);
      var body := JoinWith(names);
      if double {
        assert s[2] == body[0];
      } else {
        assert s[1] == body[0];
      }
    } else {
      assert s == if double then "//" else "/";
    }
  }

  /** `normpath`'s loop on the pieces of a path of the rationalised shape
      gives back its names. */
  lemma CollapseComposePieces(double: bool, names: seq<string>, trailing: bool)
    requires AllNames(names)
    ensures Collapse(ComposePieces(double, names, trailing), true) == names
  {
    var pieces := ComposePieces(double, names, trailing);
    if names == [] {
      CollapseEmpty(pieces, true);
    } else {
      var empties := if double then ["", ""] else [""];
      assert Collapse(empties + names, true) == names by {
        CollapseEmpty(empties, true);
        CollapseNames(empties, names, true);
      }
      if trailing {
        assert pieces == (empties + names) + [""];
        CollapseEmptyLast(empties + names, true);
      } else {
        assert pieces == empties + names;
      }
    }
  }

  /** Normalising a path that already has the rationalised shape drops only
      its trailing `/`. */
  lemma NormPathCompose(double: bool, names: seq<string>, trailing: bool)
    requires AllNames(names)
    ensures NormPath(Compose(double, names, trailing)) == Compose(double, names, false)
  {
    var s := Compose(double, names, trailing);
    SplitCompose(double, names, trailing);
    InitialSlashesCompose(double, names, trailing);
    CollapseComposePieces(double, names, trailing);
    NormPathAbsolute(s);
  }

  /** A path of the rationalised shape ends in `/` exactly when it holds no
      name or asks for the trailing `/`, and is all slashes exactly when it
      holds no name. */
  lemma ComposeEnds(double: bool, names: seq<string>, trailing: bool)
    requires AllNames(names)
    ensures EndsWithSlash(Compose(double, names, trailing)) <==> names == [] || trailing
    ensures AllSlashes(Compose(double, names, trailing)) <==> names == []
  {
    var s := Compose(double, names, trailing);
    if names != [] {
      JoinWithNames(names);
      var k := if double then 2 else 1;
      assert s[k] == JoinWith(names)[0];
      if !trailing {
        assert s[|s| - 1] == JoinWith(names)[|JoinWith(names)| - 1];
      }
    } else {
      assert s == if double then "//" else "/";
    }
  }

  /** The trailing `/` of the rooted path is kept; without one the result is
      exactly what `normpath` gives. */
  lemma RationaliseTrailingSlash(path: string)
    ensures EndsWithSlash(Rationalise(path)) <==> EndsWithSlash(Rooted(path)) || AllSlashes(Rationalise(path))
    ensures !EndsWithSlash(Rooted(path)) ==> Rationalise(path) == NormPath(Rooted(path))
    ensures EndsWithSlash(Rooted(path)) ==> Rationalise(path) in {NormPath(Rooted(path)), NormPath(Rooted(path)) + "/"}
  {
    RationaliseForm(path);
    ComposeEnds(InitialSlashes(Rooted(path)) == "//", Names(path), EndsWithSlash(Rooted(path)));
  }

  /** `rationalise_projectpath` of the empty path is the root. */
  lemma RationaliseEmpty()
    ensures Rationalise("") == "/"
  {
    assert Compose(false, [], false) == "/";
    RationaliseCompose(false, [], false);
  }

  /** Split into pieces, a path of the rationalised shape has no `.` or `..`
      piece, and no empty one except the first, the second of a leading `//`
      and the last. */
  lemma ComposeSegments(double: bool, names: seq<string>, trailing: bool)
    requires AllNames(names)
    ensures var s := Compose(double, names, trailing);
            var parts := Split(s);
            && parts[0] == ""
            && (forall i | 0 <= i < |parts| :: parts[i] != "." && parts[i] != "..")
            && (forall i | 0 < i < |parts| - 1 :: parts[i] == "" ==> i == 1 && |s| >= 2 && s[1] == Sep)
  {
    SplitCompose(double, names, trailing);
    PiecesSegments(double, names, trailing);
    assert double ==> Compose(double, names, trailing)[..2] == "//";
  }

  /** The pieces of the rationalised shape: an empty first piece, no `.` or
      `..`, and an empty inner piece only second, after a leading `//`. */
  lemma PiecesSegments(double: bool, names: seq<string>, trailing: bool)
    requires AllNames(names)
    ensures var parts := ComposePieces(double, names, trailing);
            && parts[0] == ""
            && (forall i | 0 <= i < |parts| :: parts[i] != "." && parts[i] != "..")
            && (forall i | 0 < i < |parts| - 1 :: parts[i] == "" ==> i == 1 && double)
  {
    var parts := ComposePieces(double, names, trailing);
    if names != [] {
      var k := if double then 2 else 1;
      forall j | k <= j < k + |names| ensures parts[j] == names[j - k] && IsName(parts[j]) {
        assert IsName(names[j - k]);
      }
    }
  }

  /** Split into pieces, a rationalised path has no `.` or `..` piece, and no
      empty one except the leading one, the second of a leading `//`, and a
      last one after a trailing `/`. */
  lemma RationaliseSegments(path: string)
    ensures var r := Rationalise(path);
            var parts := Split(r);
            && parts[0] == ""
            && (forall i | 0 <= i < |parts| :: parts[i] != "." && parts[i] != "..")
            && (forall i | 0 < i < |parts| - 1 :: parts[i] == "" ==> i == 1 && |r| >= 2 && r[1] == Sep)
  {
    RationaliseForm(path);
    ComposeSegments(InitialSlashes(Rooted(path)) == "//", Names(path), EndsWithSlash(Rooted(path)));
  }

  /** A `.` piece changes nothing: `p/.` holds the names of `p`. */
  lemma NamesDot(path: string)
    ensures Names(path + "/" + ".") == Names(path)
  {
    if path == "" {
      calc {
        Names(path + "/" + ".");
        { assert path + "/" + "." == "/" + "."; }
        Names("/" + ".");
        { NamesSlash("."); SplitDots(); }
        Collapse([""] + ["."], true);
        { CollapseDot([""], true); CollapseEmpty([""], true); }
        [];
        { RootedEmpty(); }
        Names(path);
      }
    } else {
      calc {
        Names(path + "/" + ".");
        { NamesAppend(path, "."); SplitDots(); }
        Collapse(Split(Rooted(path)) + ["."], true);
        { CollapseDot(Split(Rooted(path)), true); }
        Names(path);
      }
    }
  }

  /** A `..` piece cancels the name before it: `p/x/..` holds the names of `p`. */
  lemma NamesDotDot(path: string, name: string)
    requires IsName(name)
    ensures Names(path + "/" + name + "/" + "..") == Names(path)
  {
    var tail := name + "/" + "..";
    SplitNameDotDot(name);
    assert path + "/" + name + "/" + ".." == path + "/" + tail;
    if path == "" {
      assert path + "/" + tail == "/" + tail;
      NamesSlash(tail);
      CollapseDotDotName([""], name, true);
      CollapseEmpty([""], true);
      RootedEmpty();
    } else {
      NamesAppend(path, tail);
      CollapseDotDotName(Split(Rooted(path)), name, true);
    }
  }

  /** A name followed by `/..` splits into that name and `..`. */
  lemma SplitNameDotDot(name: string)
    requires IsName(name)
    ensures Split(name + "/" + "..") == [name, ".."]
  {
    SplitAround(name, "..");
    SplitName(name);
    SplitDots();
  }

  /** `.` and `..` are single pieces. */
  lemma SplitDots()
    ensures Split(".") == ["."] && Split("..") == [".."]
  {
    var dot: string := ['.'];
    var dotdot: string := ['.', '.'];
    assert Sep !in dot && Sep !in dotdot;
    SplitName(dot);
    SplitName(dotdot);
    assert dot == "." && dotdot == "..";
  }

  /** The names of `p/tail`, for a non-empty `p`: the loop over the pieces
      of the rooted `p`, then those of `tail`. */
  lemma NamesAppend(path: string, tail: string)
    requires path != ""
    ensures Names(path + "/" + tail) == Collapse(Split(Rooted(path)) + Split(tail), true)
  {
    assert path + "/" + tail == path + ("/" + tail);
    RootedAppend(path, "/" + tail);
    var rooted := Rooted(path);
    assert rooted + ("/" + tail) == rooted + [Sep] + tail;
    SplitAround(rooted, tail);
  }

  /** The names of `/tail`: the loop over an empty piece and those of `tail`. */
  lemma NamesSlash(tail: string)
    ensures Names("/" + tail) == Collapse([""] + Split(tail), true)
  {
    assert Rooted("/" + tail) == "/" + tail;
    SplitSlashFront(tail);
  }

  /** The empty path is rooted at `/`, which holds no name. */
  lemma RootedEmpty()
    ensures Rooted("") == "/"
    ensures Names("") == []
  {
    SplitSlashFront("");
    CollapseEmpty(["", ""], true);
  }

  /** Rooting a non-empty path commutes with appending to it. */
  lemma RootedAppend(path: string, more: string)
    requires path != ""
    ensures Rooted(path + more) == Rooted(path) + more
  {
    if StartsWithSlash(path) {
      assert (path + more)[0] == path[0];
    } else {
      assert (path + more)[0] == path[0];
    }
  }

  /** A path of the rationalised shape is its own rationalisation. */
  lemma RationaliseCompose(double: bool, names: seq<string>, trailing: bool)
    requires AllNames(names)
    ensures Rationalise(Compose(double, names, trailing)) == Compose(double, names, trailing)
  {
    var s := Compose(double, names, trailing);
    assert Rooted(s) == s;
    NormPathCompose(double, names, trailing);
    ComposeEnds(double, names, trailing);
    ComposeEnds(double, names, false);
  }

  /** `rationalise_projectpath` is idempotent. */
  lemma RationaliseIdempotent(path: string)
    ensures Rationalise(Rationalise(path)) == Rationalise(path)
  {
    RationaliseForm(path);
    RationaliseCompose(InitialSlashes(Rooted(path)) == "//", Names(path), EndsWithSlash(Rooted(path)));
  }

  // ------------------------------------------------------ project_relative_path

  /** The steps of `project_relative_path` after both arguments are
      rationalised: the string-prefix test, then the removal of the root and
      of the separators that follow it. */
  function StripRoot(root: string, path: string): (res: Result<string, Error>)
    ensures res.Failure? <==> !(root <= path)
  {
    if !(root <= path) then
      Failure(ValueError(path + " is not a sub path of " + root))
    else
      Success(LStrip(path[|root|..]))
  }

  /** `rel` is the end of `path`, does not start with a separator, and only
      separators lie between `root` and it. */
  predicate RelativeTail(root: string, path: string, rel: string) {
    && !StartsWithSlash(rel)
    && |root| + |rel| <= |path|
    && rel == path[|path| - |rel|..]
    && AllSlashes(path[|root|..|path| - |rel|])
  }

  /** What `StripRoot` returns is the end of the path, does not start with
      a separator, and only separators lie between the root and it. */
  lemma StripRootSuccess(root: string, path: string)
    requires root <= path
    ensures RelativeTail(root, path, StripRoot(root, path).value)
  {
    var tail := path[|root|..];
    var rel := LStrip(tail);
    LStripSlashes(tail);
    assert path[|root|..|path| - |rel|] == tail[..|tail| - |rel|];
  }

  /** `project_relative_path`: the path with the root and the separators after
      it removed, or a `ValueError` when the rationalised root is not a string
      prefix of the rationalised path. */
  function RelativePath(root: string, path: string): (res: Result<string, Error>)
    ensures res.Failure? <==> !(Rationalise(root) <= Rationalise(path))
  {
    StripRoot(Rationalise(root), Rationalise(path))
  }

  /** On success, `project_relative_path` returns the end of the
      rationalised path, without a leading separator, separated from the
      rationalised root by separators only. */
  lemma RelativePathSuccess(root: string, path: string)
    requires RelativePath(root, path).Success?
    ensures RelativeTail(Rationalise(root), Rationalise(path), RelativePath(root, path).value)
  {
    var r, p := Rationalise(root), Rationalise(path);
    assert RelativePath(root, path) == StripRoot(r, p);
    StripRootSuccess(r, p);
  }

  /** A path is the root of itself. */
  lemma RelativePathToItself(path: string)
    ensures RelativePath(path, path) == Success("")
  {
  }

  /** The string steps of `project_relative_path` on `/a` and `/ab`. */
  lemma StripRootOfLongerName(name: string, more: string)
    requires IsName(more)
    ensures StripRoot("/" + name, "/" + name + more) == Success(more)
  {
    var root, path := "/" + name, "/" + name + more;
    assert path[|root|..] == more;
    assert more[0] in more;
    assert LStrip(more) == more;
  }

  /** The sub-path test compares strings, not names: `/ab` lies under `/a`,
      with `b` as the relative path. */
  lemma RelativePathIsStringPrefix(name: string, more: string)
    requires IsName(name) && IsName(more) && IsName(name + more)
    ensures RelativePath("/" + name, "/" + name + more) == Success(more)
  {
    assert Compose(false, [name], false) == "/" + name;
    assert Compose(false, [name + more], false) == "/" + name + more;
    RationaliseCompose(false, [name], false);
    RationaliseCompose(false, [name + more], false);
    StripRootOfLongerName(name, more);
  }

  /** A path of the rationalised shape with more names after a prefix of
      them is that prefix's directory, followed by the remaining names. */
  lemma ComposeAppend(double: bool, prefix: seq<string>, rest: seq<string>, trailing: bool)
    requires rest != []
    ensures Compose(double, prefix + rest, trailing) ==
              Compose(double, prefix, true) + JoinWith(rest) + (if trailing then "/" else "")
  {
    if prefix != [] {
      JoinWithAppend(prefix, rest);
    } else {
      assert prefix + rest == rest;
    }
  }

  /** Names before more names are all names. */
  lemma AllNamesAppend(prefix: seq<string>, rest: seq<string>)
    requires AllNames(prefix) && AllNames(rest)
    ensures AllNames(prefix + rest)
  {
    forall i | 0 <= i < |prefix + rest| ensures IsName((prefix + rest)[i]) {
      if i >= |prefix| { assert (prefix + rest)[i] == rest[i - |prefix|]; }
    }
  }

  /** The string steps of `project_relative_path` on a directory and a
      path below it, both of the rationalised shape. */
  lemma StripRootOfDescendant(double: bool, prefix: seq<string>, rest: seq<string>, trailing: bool)
    requires AllNames(rest) && rest != []
    ensures StripRoot(Compose(double, prefix, true), Compose(double, prefix + rest, trailing)) ==
              Success(JoinWith(rest) + (if trailing then "/" else ""))
  {
    var root := Compose(double, prefix, true);
    var rel := JoinWith(rest) + (if trailing then "/" else "");
    assert Compose(double, prefix + rest, trailing) == root + rel by {
      ComposeAppend(double, prefix, rest, trailing);
    }
    assert !StartsWithSlash(rel) by {
      JoinWithNames(rest);
      assert rel[0] == JoinWith(rest)[0];
    }
    StripRootOfAppended(root, rel);
  }

  /** A root followed by a string that does not start with a separator
      leaves exactly that string. */
  lemma StripRootOfAppended(root: string, rel: string)
    requires !StartsWithSlash(rel)
    ensures StripRoot(root, root + rel) == Success(rel)
  {
    assert (root + rel)[|root|..] == rel;
  }

  /** Below a rationalised directory, the relative path is the remaining
      names joined by `/`, with the trailing `/` the path had. */
  lemma RelativePathOfDescendant(double: bool, prefix: seq<string>, rest: seq<string>, trailing: bool)
    requires AllNames(prefix) && AllNames(rest) && rest != []
    ensures RelativePath(Compose(double, prefix, true), Compose(double, prefix + rest, trailing)) ==
              Success(JoinWith(rest) + (if trailing then "/" else ""))
  {
    AllNamesAppend(prefix, rest);
    RationaliseCompose(double, prefix, true);
    RationaliseCompose(double, prefix + rest, trailing);
    StripRootOfDescendant(double, prefix, rest, trailing);
  }

  // ------------------------------------------------------ project_parent_directories

  /** The directory that both parent functions list the ancestors of: the
      `dirname` of the rationalised path without its trailing separators. */
  function ParentOf(path: string): (dirname: string)
    ensures dirname == "" || StartsWithSlash(dirname)
    ensures dirname <= Rationalise(path)
  {
    var stripped := RStrip(Rationalise(path));
    assert stripped == "" || stripped[0] == Rationalise(path)[0];
    DirName(stripped)
  }

  /** For every leading run of the pieces of `dirname`, those pieces joined
      by `/` and followed by `/`. */
  function DirectoryPrefixes(dirname: string): (dirs: seq<string>)
    ensures |dirs| == |Split(dirname)|
    ensures dirs[|dirs| - 1] == dirname + "/"
  {
    var parts := Split(dirname);
    JoinWithSplit(dirname);
    assert parts[..|parts|] == parts;
    seq(|parts|, i requires 0 <= i < |parts| => JoinWith(parts[..i + 1]) + "/")
  }

  /** The list `project_parent_directories` returns: one entry per piece of
      the dirname (its first and last entries are in `ParentDirectoriesShape`). */
  function ParentDirectoryList(path: string): (dirs: seq<string>)
    ensures |dirs| == |Split(ParentOf(path))|
  {
    DirectoryPrefixes(ParentOf(path))
  }

  /** `project_parent_directories`: the rationalised path's dirname, then
      the list of its directory prefixes. */
  method ParentDirectories(path: string) returns (directories: seq<string>)
    ensures directories == ParentDirectoryList(path)
  {
    var projectPath := Rationalise(path);
    var dirname := DirName(RStrip(projectPath));
    directories := AppendPrefixes(dirname);
  }

  /** The loop of `project_parent_directories`: for each count of leading
      pieces of the dirname, append those pieces joined by `/` and followed
      by `/`. */
  method AppendPrefixes(dirname: string) returns (directories: seq<string>)
    ensures directories == DirectoryPrefixes(dirname)
  {
    directories := [];
    var parts := Split(dirname);
    ghost var expected := DirectoryPrefixes(dirname);
    for iLast := 1 to |parts| + 1
      invariant directories == expected[..iLast - 1]
    {
      directories := directories + [JoinWith(parts[..iLast]) + "/"];
    }
    assert directories == expected;
  }

  /** Each prefix extends the one before, and all but the last are prefixes
      of the dirname itself. */
  lemma DirectoryPrefixesChain(dirname: string)
    ensures var dirs := DirectoryPrefixes(dirname);
            forall i | 0 <= i < |dirs| - 1 :: dirs[i] <= dirs[i + 1] && dirs[i] <= dirname
  {
    var parts := Split(dirname);
    var dirs := DirectoryPrefixes(dirname);
    assert JoinWith(parts) == dirname by {
      JoinWithSplit(dirname);
    }
    forall i | 0 <= i < |dirs| - 1 ensures dirs[i] <= dirs[i + 1] && dirs[i] <= dirname {
      PrefixStep(parts, i);
    }
  }

  /** The first `i + 1` pieces joined and followed by `/` start both the
      next such prefix and the whole join. */
  lemma PrefixStep(parts: seq<string>, i: nat)
    requires i + 1 < |parts|
    ensures JoinWith(parts[..i + 1]) + "/" <= JoinWith(parts[..i + 2]) + "/"
    ensures JoinWith(parts[..i + 1]) + "/" <= JoinWith(parts)
  {
    var next := parts[..i + 2];
    assert next[..i + 1] == parts[..i + 1];
    JoinWithPrefix(next, i + 1);
    JoinWithPrefix(parts, i + 1);
  }

  /** The prefixes of an absolute dirname (or of the empty one) start at `/`,
      all end in `/`, each extends the one before, all but the last are
      prefixes of the dirname itself, and the last is the dirname followed
      by `/`. */
  lemma DirectoryPrefixesShape(dirname: string)
    requires dirname == "" || StartsWithSlash(dirname)
    ensures var dirs := DirectoryPrefixes(dirname);
            && |dirs| >= 1
            && dirs[0] == "/"
            && dirs[|dirs| - 1] == dirname + "/"
            && (forall i | 0 <= i < |dirs| :: EndsWithSlash(dirs[i]))
            && (forall i | 0 <= i < |dirs| - 1 :: dirs[i] <= dirs[i + 1] && dirs[i] <= dirname)
  {
    FirstPrefix(dirname);
    DirectoryPrefixesChain(dirname);
  }

  /** The first prefix of an absolute or empty dirname is the root. */
  lemma FirstPrefix(dirname: string)
    requires dirname == "" || StartsWithSlash(dirname)
    ensures DirectoryPrefixes(dirname)[0] == "/"
  {
    var parts := Split(dirname);
    assert parts[0] == "" by {
      if dirname != "" {
        SplitAbsolute(dirname);
      }
    }
    assert parts[..1] == [""];
    assert JoinWith([""]) == "";
  }

  /** The properties of `project_parent_directories`: the list starts at
      the root, every entry ends in `/`, each entry extends the one before,
      there is one entry per piece of the dirname, and the last is the
      dirname followed by `/`. */
  lemma ParentDirectoriesShape(path: string)
    ensures var dirs := ParentDirectoryList(path);
            && |dirs| == |Split(ParentOf(path))| >= 1
            && dirs[0] == "/"
            && dirs[|dirs| - 1] == ParentOf(path) + "/"
            && (forall i | 0 <= i < |dirs| :: EndsWithSlash(dirs[i]))
            && (forall i | 0 <= i < |dirs| - 1 :: dirs[i] <= dirs[i + 1] && dirs[i] <= Rationalise(path))
  {
    var d := ParentOf(path);
    var dirs := DirectoryPrefixes(d);
    assert ParentDirectoryList(path) == dirs;
    DirectoryPrefixesShape(d);
    forall i | 0 <= i < |dirs| - 1 ensures dirs[i] <= Rationalise(path) {
      PrefixTransitive(dirs[i], d, Rationalise(path));
    }
  }

  /** A prefix of a prefix is a prefix. */
  lemma PrefixTransitive(a: string, b: string, c: string)
    requires a <= b && b <= c
    ensures a <= c
  {
    assert b[..|a|] == c[..|a|];
  }

  /** The prefixes of a rationalised directory with a single leading `/`
      and at least one name are the root and then each of its ancestors in
      turn down to itself, each followed by `/`. */
  lemma DirectoryPrefixesCompose(names: seq<string>)
    requires AllNames(names) && names != []
    ensures DirectoryPrefixes(Compose(false, names, false)) ==
              seq(|names| + 1, i requires 0 <= i <= |names| => Compose(false, names[..i], true))
  {
    var parts := Split(Compose(false, names, false));
    assert parts == [""] + names by {
      SplitCompose(false, names, false);
    }
    forall i | 0 <= i <= |names|
      ensures JoinWith(parts[..i + 1]) + "/" == Compose(false, names[..i], true)
    {
      assert parts[..i + 1] == [""] + names[..i];
      RootedPrefix(names, i);
    }
  }

  /** The root piece and the first `i` names, joined and followed by `/`. */
  lemma RootedPrefix(names: seq<string>, i: nat)
    requires i <= |names|
    ensures JoinWith([""] + names[..i]) + "/" == Compose(false, names[..i], true)
  {
    if i > 0 {
      JoinWithAppend([""], names[..i]);
    } else {
      assert [""] + names[..i] == [""];
    }
  }

  /** For a file at the top level, the dirname is `/`, which splits into two
      empty pieces, so the list holds `//` after `/`: an entry that is not
      a directory containing the file. */
  lemma TopLevelFileListsDoubleSlash(name: string)
    requires IsName(name)
    ensures ParentDirectoryList("/" + name) == ["/", "//"]
    ensures !("//" <= Rationalise("/" + name))
  {
    assert Compose(false, [name], false) == "/" + name;
    RationaliseCompose(false, [name], false);
    ParentOfCompose(false, [name], false);
    RootPrefixes();
    assert name[0] != Sep by { assert name[0] in name; }
  }

  /** `//` splits into three empty pieces, whose prefixes are `/`, `//`
      and `///`. */
  lemma DoubleRootPrefixes()
    ensures DirectoryPrefixes("//") == ["/", "//", "///"]
  {
    assert "//" == "/" + [Sep] + "";
    SplitAround("/", "");
    RootPrefixes();
    var parts := Split("//");
    assert parts == ["", "", ""];
    assert parts[..1] == [""] && parts[..2] == ["", ""] && parts[..3] == parts;
    assert JoinWith(["", ""]) == JoinWith([""]) + [Sep] + "";
    assert JoinWith(["", "", ""]) == JoinWith(["", ""]) + [Sep] + "";
    var dirs := DirectoryPrefixes("//");
    assert |dirs| == 3;
    assert dirs[0] == JoinWith(parts[..1]) + "/" == "/";
    assert dirs[1] == JoinWith(parts[..2]) + "/" == "//";
    assert dirs[2] == JoinWith(parts[..3]) + "/" == "///";
  }

  /** `/` splits into two empty pieces, whose prefixes are `/` and `//`. */
  lemma RootPrefixes()
    ensures DirectoryPrefixes("/") == ["/", "//"]
  {
    SplitAbsolute("/");
    assert "/"[1..] == "";
    var parts := Split("/");
    assert parts == ["", ""];
    assert parts[..1] == [""] && parts[..2] == ["", ""];
    assert JoinWith(["", ""]) == JoinWith([""]) + [Sep] + "";
    var dirs := DirectoryPrefixes("/");
    assert |dirs| == 2;
    assert dirs[0] == JoinWith(parts[..1]) + "/" == "/";
    assert dirs[1] == JoinWith(parts[..2]) + "/" == "//";
  }

  /** The evidently intended list: the same prefixes, taken of the dirname
      without its trailing separators, so that the root yields `/` alone. */
  function AncestorDirectoryList(path: string): (dirs: seq<string>)
    ensures |dirs| == |Split(RStrip(ParentOf(path)))|
  {
    DirectoryPrefixes(RStrip(ParentOf(path)))
  }

  /** The parent of an absolute path, taken without its trailing
      separators and followed by `/`, is a prefix of the path. */
  lemma StrippedParentBound(r: string)
    requires StartsWithSlash(r)
    ensures var d := RStrip(DirName(RStrip(r)));
            d + "/" <= r && (d == "" || StartsWithSlash(d))
  {
    var stripped := RStrip(r);
    var dirname := DirName(stripped);
    var d := RStrip(dirname);
    if Sep in stripped {
      DirNameStripped(stripped);
      assert stripped[0] == r[0];
      if d != "" {
        assert d[0] == dirname[0];
      }
    } else {
      assert dirname == "";
    }
  }

  /** The prefixes of a directory that, followed by `/`, is a prefix of `r`
      start at the root, and every one ends in `/` and is a prefix of `r`. */
  lemma DirectoryPrefixesBelow(d: string, r: string)
    requires (d == "" || StartsWithSlash(d)) && d + "/" <= r
    ensures var dirs := DirectoryPrefixes(d);
            && |dirs| >= 1 && dirs[0] == "/"
            && forall i | 0 <= i < |dirs| :: EndsWithSlash(dirs[i]) && dirs[i] <= r
  {
    DirectoryPrefixesShape(d);
    var dirs := DirectoryPrefixes(d);
    forall i | 0 <= i < |dirs| ensures dirs[i] <= r {
      if i < |dirs| - 1 {
        assert dirs[i] <= d;
      }
    }
  }

  /** The prefixes of the parent of an absolute path, taken without its
      trailing separators, start at the root, and every one ends in `/` and
      is a prefix of the path. */
  lemma StrippedParentPrefixes(r: string)
    requires StartsWithSlash(r)
    ensures var dirs := DirectoryPrefixes(RStrip(DirName(RStrip(r))));
            && |dirs| >= 1 && dirs[0] == "/"
            && forall i | 0 <= i < |dirs| :: EndsWithSlash(dirs[i]) && dirs[i] <= r
  {
    StrippedParentBound(r);
    DirectoryPrefixesBelow(RStrip(DirName(RStrip(r))), r);
  }

  /** The corrected list starts at the root, and every entry ends in `/`
      and is a prefix of the rationalised path: each is a directory that
      contains it. */
  lemma AncestorDirectoryListShape(path: string)
    ensures var dirs := AncestorDirectoryList(path);
            && |dirs| >= 1 && dirs[0] == "/"
            && forall i | 0 <= i < |dirs| :: EndsWithSlash(dirs[i]) && dirs[i] <= Rationalise(path)
  {
    StrippedParentPrefixes(Rationalise(path));
  }

  /** The corrected list differs from the one the source builds only when
      the dirname is made of separators, that is, for a top-level file and
      for the roots. */
  lemma AncestorsAgreeBelowTopLevel(path: string)
    requires !AllSlashes(ParentOf(path))
    ensures AncestorDirectoryList(path) == ParentDirectoryList(path)
  {
    var dirname := ParentOf(path);
    assert dirname == DirName(RStrip(Rationalise(path)));
    assert !EndsWithSlash(dirname);
  }

  /** The ancestors of a path of the rationalised shape with a single
      leading `/`: the root, then the path cut after each of its names in
      turn, each followed by `/`, up to but not including the path itself. */
  function Ancestors(names: seq<string>): (dirs: seq<string>)
    ensures |dirs| == |names|
  {
    seq(|names|, i requires 0 <= i < |names| => Compose(false, names[..i], true))
  }

  /** The dirname of a path of the rationalised shape with at least two
      names lists exactly its ancestors. */
  lemma PrefixesOfParentCompose(names: seq<string>, trailing: bool)
    requires AllNames(names) && |names| >= 2
    ensures DirectoryPrefixes(DirName(RStrip(Compose(false, names, trailing)))) == Ancestors(names)
  {
    var init := names[..|names| - 1];
    ParentOfCompose(false, names, trailing);
    DirectoryPrefixesCompose(init);
    forall i | 0 <= i < |names| ensures init[..i] == names[..i] { }
  }

  /** The empty dirname has the root as its one prefix. */
  lemma EmptyPrefixes()
    ensures DirectoryPrefixes("") == ["/"]
  {
    assert Split("") == [""];
    assert [""][..1] == [""];
    var dirs := DirectoryPrefixes("");
    assert |dirs| == 1;
    assert dirs[0] == JoinWith([""]) + "/";
    assert JoinWith([""]) == "";
    assert dirs[0] == "/";
  }

  /** A single name lists the root as its one ancestor. */
  lemma AncestorsOfName(names: seq<string>)
    requires |names| == 1
    ensures Ancestors(names) == ["/"]
  {
    assert names[..0] == [];
    assert Ancestors(names)[0] == Compose(false, [], true);
    assert Compose(false, [], true) == "/";
  }

  /** The dirname without its trailing separators of a path of the
      rationalised shape with at least one name lists exactly its
      ancestors. */
  lemma PrefixesOfStrippedParentCompose(names: seq<string>, trailing: bool)
    requires AllNames(names) && names != []
    ensures DirectoryPrefixes(RStrip(DirName(RStrip(Compose(false, names, trailing))))) == Ancestors(names)
  {
    ParentOfCompose(false, names, trailing);
    if |names| == 1 {
      assert RStrip("/") == "";
      EmptyPrefixes();
      AncestorsOfName(names);
    } else {
      var init := names[..|names| - 1];
      ComposeEnds(false, init, false);
      assert RStrip(Compose(false, init, false)) == Compose(false, init, false);
      PrefixesOfParentCompose(names, trailing);
    }
  }

  /** Below the top level, `project_parent_directories` lists exactly the
      ancestors of the path: the root and each directory that contains it,
      each followed by `/`. */
  lemma ParentDirectoryListCompose(names: seq<string>, trailing: bool)
    requires AllNames(names) && |names| >= 2
    ensures ParentDirectoryList(Compose(false, names, trailing)) == Ancestors(names)
  {
    RationaliseCompose(false, names, trailing);
    PrefixesOfParentCompose(names, trailing);
  }

  /** The corrected list holds exactly the ancestors of every path with at
      least one name, a top-level file included. */
  lemma AncestorDirectoryListCompose(names: seq<string>, trailing: bool)
    requires AllNames(names) && names != []
    ensures AncestorDirectoryList(Compose(false, names, trailing)) == Ancestors(names)
  {
    RationaliseCompose(false, names, trailing);
    PrefixesOfStrippedParentCompose(names, trailing);
  }

  /** With the correction, a top-level file lists the root alone. */
  lemma TopLevelFileAncestors(name: string)
    requires IsName(name)
    ensures AncestorDirectoryList("/" + name) == ["/"]
  {
    assert Compose(false, [name], false) == "/" + name;
    AncestorDirectoryListCompose([name], false);
    AncestorsOfName([name]);
  }

  // ------------------------------------------------------ project_parent_directory

  /** `project_parent_directory`: `None` for the root, otherwise the
      `dirname` of the rationalised path without its trailing separators. */
  function ParentDirectory(path: string): (parent: Option<string>)
    ensures parent.None? <==> Rationalise(path) == "/"
    ensures parent.Some? ==> parent.value <= Rationalise(path) && |parent.value| < |Rationalise(path)|
    ensures parent.Some? && EndsWithSlash(parent.value) ==> AllSlashes(parent.value)
    ensures parent.Some? && parent.value != "" ==> StartsWithSlash(parent.value)
  {
    var projectPath := Rationalise(path);
    if projectPath == "/" then None
    else
      var stripped := RStrip(projectPath);
      assert stripped == "" || stripped[0] == projectPath[0];
      assert stripped != "" ==> |DirName(stripped)| < |stripped| by {
        if stripped != "" {
          assert stripped[|stripped| - 1] != Sep;
        }
      }
      Some(DirName(stripped))
  }

  /** Stripping trailing separators from a path of the rationalised shape
      with at least one name drops only the trailing `/`. */
  lemma RStripCompose(double: bool, names: seq<string>, trailing: bool)
    requires AllNames(names) && names != []
    ensures RStrip(Compose(double, names, trailing)) == Compose(double, names, false)
  {
    var s := Compose(double, names, trailing);
    var plain := Compose(double, names, false);
    ComposeEnds(double, names, false);
    if trailing {
      assert s == plain + "/";
      assert s[..|s| - 1] == plain;
    }
  }

  /** The `dirname` of a path of the rationalised shape without a trailing
      `/`: the root for a single name, the path without its last name
      otherwise. */
  lemma DirNameCompose(double: bool, names: seq<string>)
    requires AllNames(names) && names != []
    ensures DirName(Compose(double, names, false)) ==
              if |names| == 1 then (if double then "//" else "/")
              else Compose(double, names[..|names| - 1], false)
  {
    var lead := if double then "//" else "/";
    var plain := Compose(double, names, false);
    var n := |names|;
    var last := names[n - 1];
    assert IsName(last);
    if n == 1 {
      var p := lead[..|lead| - 1];
      assert plain == p + [Sep] + last;
      assert AllSlashes(p);
      DirNameLast(p, last);
    } else {
      var init := names[..n - 1];
      assert AllNames(init);
      var p := Compose(double, init, false);
      assert JoinWith(names) == JoinWith(init) + [Sep] + last;
      assert plain == p + [Sep] + last;
      ComposeEnds(double, init, false);
      DirNameLast(p, last);
    }
  }

  /** The parent of a path of the rationalised shape: nothing for a bare
      root, the root itself (`/` or `//`) for a single name, and otherwise
      the path without its last name. */
  lemma ParentOfCompose(double: bool, names: seq<string>, trailing: bool)
    requires AllNames(names)
    ensures DirName(RStrip(Compose(double, names, trailing))) ==
              if names == [] then ""
              else if |names| == 1 then (if double then "//" else "/")
              else Compose(double, names[..|names| - 1], false)
  {
    ComposeEnds(double, names, trailing);
    if names == [] {
      RStripAllSlashes(Compose(double, names, trailing));
    } else {
      RStripCompose(double, names, trailing);
      DirNameCompose(double, names);
    }
  }

  /** `project_parent_directory` removes the last name of the rationalised
      path; a bare `/` has no parent, while a bare `//` has the empty string
      as its parent and a single name under `//` has `//`. */
  lemma ParentDirectoryDropsLastName(path: string)
    ensures var names, double := Names(path), InitialSlashes(Rooted(path)) == "//";
            ParentDirectory(path) ==
              if names == [] then (if double then Some("") else None)
              else if |names| == 1 then Some(if double then "//" else "/")
              else Some(Compose(double, names[..|names| - 1], false))
  {
    var names, double := Names(path), InitialSlashes(Rooted(path)) == "//";
    var trailing := EndsWithSlash(Rooted(path));
    RationaliseForm(path);
    ParentOfCompose(double, names, trailing);
    ComposeIsRoot(double, names, trailing);
  }

  /** `project_parent_directory` of a path of the rationalised shape removes
      its last name. */
  lemma ParentDirectoryCompose(double: bool, names: seq<string>, trailing: bool)
    requires AllNames(names)
    ensures ParentDirectory(Compose(double, names, trailing)) ==
              if names == [] then (if double then Some("") else None)
              else if |names| == 1 then Some(if double then "//" else "/")
              else Some(Compose(double, names[..|names| - 1], false))
  {
    RationaliseCompose(double, names, trailing);
    ParentOfCompose(double, names, trailing);
    ComposeIsRoot(double, names, trailing);
  }

  /** The only path of the rationalised shape that is the root `/` is the
      one with a single leading `/` and no name. */
  lemma ComposeIsRoot(double: bool, names: seq<string>, trailing: bool)
    requires AllNames(names)
    ensures Compose(double, names, trailing) == "/" <==> names == [] && !double
  {
    if names != [] {
      JoinWithNames(names);
    }
  }

  /** The last directory `project_parent_directories` lists is the one
      `project_parent_directory` returns, followed by `/` (the root for a
      path without a parent). */
  lemma ParentDirectoriesEndAtParent(path: string)
    ensures var dirs := ParentDirectoryList(path);
            dirs[|dirs| - 1] == match ParentDirectory(path) { case None => "/" case Some(d) => d + "/" }
  {
    ParentDirectoriesShape(path);
    if Rationalise(path) == "/" {
      assert RStrip("/") == "";
      assert ParentOf(path) == "";
    }
  }

  /** A trailing `/` on a non-empty input is a trailing `/` on the rooted
      path. */
  lemma RootedAddSlash(path: string)
    requires path != ""
    ensures Rooted(path + "/") == Rooted(path) + "/"
  {
    if !StartsWithSlash(path) {
      assert !StartsWithSlash(path + "/");
    }
  }

  /** Rooting keeps a character that is not a separator. */
  lemma RootedNotAllSlashes(path: string)
    requires !AllSlashes(path)
    ensures !AllSlashes(Rooted(path))
  {
    var rooted := Rooted(path);
    var k :| 0 <= k < |path| && path[k] != Sep;
    var j := |rooted| - |path| + k;
    assert rooted[j] == path[k];
  }

  /** One more trailing `/` leaves the leading separators of a path with a
      non-separator character unchanged. */
  lemma InitialSlashesAddSlash(s: string)
    requires !AllSlashes(s)
    ensures InitialSlashes(s + "/") == InitialSlashes(s)
  {
    if |s| == 2 && s[0] == Sep {
      assert s[1] != Sep;
    } else if |s| < 2 {
      assert s[0] != Sep;
    }
  }

  /** One more trailing `/` adds an empty last piece, which `normpath`'s loop
      drops. */
  lemma CollapseAddSlash(s: string, absolute: bool)
    ensures Collapse(Split(s + "/"), absolute) == Collapse(Split(s), absolute)
  {
    SplitSnoc(s, Sep);
    CollapseEmptyLast(Split(s), absolute);
  }

  /** Normalising a path with one more trailing `/` gives the same root and
      names, as long as the path holds something besides separators. */
  lemma NamesIgnoreTrailingSlash(path: string)
    requires !AllSlashes(path)
    ensures Names(path + "/") == Names(path)
    ensures InitialSlashes(Rooted(path + "/")) == InitialSlashes(Rooted(path))
  {
    RootedAddSlash(path);
    RootedNotAllSlashes(path);
    CollapseAddSlash(Rooted(path), true);
    InitialSlashesAddSlash(Rooted(path));
  }

  /** A trailing `/` on the input changes neither the parent directory nor
      the list of parent directories, unless the input is made of
      separators only (`/` has no parent, `//` has the empty one). */
  lemma ParentIgnoresTrailingSlash(path: string)
    requires !AllSlashes(path)
    ensures ParentDirectory(path + "/") == ParentDirectory(path)
    ensures ParentDirectoryList(path + "/") == ParentDirectoryList(path)
  {
    NamesIgnoreTrailingSlash(path);
    ParentDirectoryDropsLastName(path);
    ParentDirectoryDropsLastName(path + "/");
    var names, double := Names(path), InitialSlashes(Rooted(path)) == "//";
    RationaliseForm(path);
    RationaliseForm(path + "/");
    ParentOfCompose(double, names, EndsWithSlash(Rooted(path)));
    ParentOfCompose(double, names, EndsWithSlash(Rooted(path + "/")));
  }
}
