# Project paths of faculty datasets

A Dafny model of the project-path algebra in `faculty/datasets/path.py`.
A dataset project holds files at POSIX-style virtual paths rooted at `/`.
Four functions work on those paths:

- `rationalise_projectpath` roots a path at `/` and normalises it, keeping a trailing `/`.
- `project_relative_path` removes a root from a path, or raises `ValueError`.
- `project_parent_directories` lists the directories above a path.
- `project_parent_directory` gives the directory just above a path, or `None` at the root.

The model has four files:

- `wrappers.dfy` holds the `Option` and `Result` datatypes.
- `posix.dfy` (module `PosixPath`) holds the pieces of Python that these functions call, on text strings with `/` as the separator.
  - From `str`: `lstrip("/")`, `rstrip("/")`, `rfind("/")`, `split("/")` and `"/".join`.
  - From `posixpath`: `join`, `normpath` and `dirname`.
- `project_path.dfy` (module `ProjectPath`) holds the four functions and the properties proved about them.
- `scenarios.dfy` (module `ProjectPathScenarios`) holds the documented behaviour on concrete shapes of path. Each is stated for arbitrary names, so one lemma covers every path of that shape.

`project_parent_directories` builds its list by appending in a loop. It is modelled as a `method` with that loop, proved against the function `DirectoryPrefixes`. The other three are pure and are modelled as functions. `ValueError` is the `Failure` case of a `Result`, and `None` is the `None` case of an `Option`.

The proofs rest on one observation. Every rationalised path has the form `Compose(double, names, trailing)`:

- it starts with `/`, or with exactly `//`;
- then come valid names joined by `/`;
- then a `/` only if there is at least one name and the rooted input ended in `/`.

`RationaliseForm` proves that `rationalise_projectpath` always yields this form. The remaining lemmas work on the form directly.

## Model

| member | source | states |
|---|---|---|
| PosixPath.StartsWithSlashPrefix | faculty/datasets/path.py:25-27 | `StartsWithSlash`, the `startswith("/")` test that `posixpath.join` and `normpath` make, holds exactly when `/` is a prefix of the string |
| PosixPath.EndsWithSlashSuffix | faculty/datasets/path.py:29 | `EndsWithSlash`, the `endswith("/")` test, holds exactly when `/` is the last one-character suffix of the string |
| PosixPath.LStrip | faculty/datasets/path.py:48 | `lstrip("/")` returns a suffix of its input that does not start with `/` |
| PosixPath.LStripSlashes | faculty/datasets/path.py:48 | what `lstrip("/")` removes consists of `/` characters only |
| PosixPath.RStrip | faculty/datasets/path.py:72 | `rstrip("/")` returns a prefix of its input that does not end with `/`, and removes only `/` characters |
| PosixPath.RStripAllSlashes | faculty/datasets/path.py:72 | `rstrip("/")` of a string made only of `/` is empty |
| PosixPath.RFind | faculty/datasets/path.py:72 | the index of the last `/`, or -1; no `/` comes after it |
| PosixPath.RFindLast | faculty/datasets/path.py:72 | in `p/x`, where `x` has no `/`, the last `/` is the one just before `x` |
| PosixPath.Split | faculty/datasets/path.py:76 | `split("/")` never returns an empty list |
| PosixPath.SplitSeparatorFree | faculty/datasets/path.py:76 | no piece of `split("/")` contains `/` |
| PosixPath.SplitAround | faculty/datasets/path.py:76 | splitting `a + "/" + b` gives the pieces of `a` followed by the pieces of `b` |
| PosixPath.SplitName | faculty/datasets/path.py:76 | a string without `/` splits into itself alone |
| PosixPath.SplitJoinWith | faculty/datasets/path.py:76-78 | splitting the join of pieces that contain no `/` gives those pieces back |
| PosixPath.JoinWithSplit | faculty/datasets/path.py:76-78 | joining the pieces of a split gives the string back |
| PosixPath.JoinWithEnds | faculty/datasets/path.py:78 | `JoinWith` (`"/".join`) starts with the first piece and ends with the last; with SplitJoinWith and JoinWithSplit it is the inverse of `split("/")` |
| PosixPath.JoinWithPrefix | faculty/datasets/path.py:78 | the join of the first `k` pieces is a prefix of the join of all of them; followed by `/` when pieces remain |
| PosixPath.JoinWithAppend | faculty/datasets/path.py:78 | joining two non-empty lists puts exactly one `/` between their joins |
| PosixPath.JoinWithNames | faculty/datasets/path.py:78 | names joined by `/` are non-empty and neither start nor end with `/` |
| PosixPath.Join | faculty/datasets/path.py:25 | `posixpath.join(a, b)` ends with `b`, and starts with `/` when `a` does |
| PosixPath.DirName | faculty/datasets/path.py:72 | `dirname` is a prefix of its input; it is empty exactly when the input has no `/`; it ends with `/` only when made only of `/`; it keeps a leading `/` |
| PosixPath.DirNameLast | faculty/datasets/path.py:72 | `dirname` of `p/x`, where `x` has no `/`: `p/` when `p` is made only of `/`, otherwise `p` without its trailing `/`s |
| PosixPath.DirNameStripped | faculty/datasets/path.py:72 | the `dirname` of a path containing `/`, without its trailing `/`s and followed by one `/`, is a prefix of the path |
| PosixPath.InitialSlashes | faculty/datasets/path.py:27 | `normpath` keeps no leading `/` on a relative path, exactly `//` when the path starts with exactly two `/`, and `/` otherwise |
| PosixPath.NormPath | faculty/datasets/path.py:27 | `normpath` never returns the empty string, and keeps an absolute path absolute |
| PosixPath.NormPathAbsolute | faculty/datasets/path.py:27 | on an absolute path, `normpath` is its leading `/` or `//` followed by the names its loop keeps, which are all valid names |
| PosixPath.CollapseSeparatorFree | faculty/datasets/path.py:27 | `normpath`'s loop never keeps an empty or `.` piece, nor a `..` on an absolute path |
| PosixPath.CollapseSnoc | faculty/datasets/path.py:27 | `Collapse`, `normpath`'s loop over the pieces, handles each piece with `NormStep` after all the pieces before it |
| PosixPath.NormStepName | faculty/datasets/path.py:27 | `NormStep`, one turn of `normpath`'s loop, keeps a name |
| PosixPath.CollapseEmpty | faculty/datasets/path.py:27 | a list made only of empty pieces collapses to nothing |
| PosixPath.CollapseEmptyLast | faculty/datasets/path.py:27 | `normpath`'s loop drops an empty last piece |
| PosixPath.CollapseDot | faculty/datasets/path.py:27 | `normpath`'s loop drops a `.` piece, whatever comes before it |
| PosixPath.CollapseDotDotName | faculty/datasets/path.py:27 | a name followed by `..` cancels out, whatever comes before them, on absolute and relative paths |
| PosixPath.CollapseDotDotRoot | faculty/datasets/path.py:27 | on an absolute path, a `..` at the root is dropped |
| PosixPath.CollapseDotDotKept | faculty/datasets/path.py:27 | on a relative path, a `..` is kept when nothing is kept before it or the last piece kept is itself `..` |
| PosixPath.CollapseNames | faculty/datasets/path.py:27 | `normpath`'s loop keeps names that follow other pieces, unchanged and in order |
| ProjectPath.Rooted | faculty/datasets/path.py:25 | joining onto `/` always gives a path that starts with `/` |
| ProjectPath.Rationalise | faculty/datasets/path.py:22-32 | the result always starts with `/` |
| ProjectPath.RationaliseForm | faculty/datasets/path.py:22-32 | the result is `/` or `//`, then valid names joined by `/`, then a `/` only when the rooted input ended in `/` and at least one name remains |
| ProjectPath.RationaliseEmpty | faculty/datasets/path.py:25-27 | the empty path rationalises to `/` |
| ProjectPath.RationaliseTrailingSlash | faculty/datasets/path.py:29-32 | the result ends with `/` exactly when the rooted input does or the result is all `/`s; without a trailing `/` on the input, the result is exactly `normpath`'s |
| ProjectPath.RationaliseSegments | faculty/datasets/path.py:27-30 | the result has no `.` or `..` piece, and no empty piece except the first, the second of a leading `//`, and the last |
| ProjectPath.NamesDot | faculty/datasets/path.py:25-27 | for every path `p`, `p/.` holds the same names as `p` |
| ProjectPath.NamesDotDot | faculty/datasets/path.py:25-27 | for every path `p` and name `x`, `p/x/..` holds the same names as `p` |
| ProjectPath.RootedEmpty | faculty/datasets/path.py:25-27 | the empty path is rooted at `/` and holds no name |
| ProjectPath.NormPathCompose | faculty/datasets/path.py:27 | normalising a path that already has the rationalised form drops only its trailing `/` |
| ProjectPath.RationaliseCompose | faculty/datasets/path.py:22-32 | every path of the rationalised form is its own rationalisation |
| ProjectPath.RationaliseIdempotent | faculty/datasets/path.py:22-32 | rationalising twice gives the same result as rationalising once |
| ProjectPath.NamesIgnoreTrailingSlash | faculty/datasets/path.py:25-27 | one more trailing `/` on an input that has a character other than `/` changes neither the names nor the leading `/` or `//` |
| ProjectPath.StripRoot | faculty/datasets/path.py:40-48 | fails exactly when the root is not a string prefix of the path |
| ProjectPath.StripRootSuccess | faculty/datasets/path.py:45-48 | the result is the end of the path and does not start with `/`; only `/` characters lie between the root and it |
| ProjectPath.RelativePath | faculty/datasets/path.py:35-42 | `ValueError` exactly when the rationalised root is not a string prefix of the rationalised path |
| ProjectPath.RelativePathSuccess | faculty/datasets/path.py:44-50 | on success: the result does not start with `/`; the rationalised path is the rationalised root, then only `/`s, then the result |
| ProjectPath.RelativePathToItself | faculty/datasets/path.py:35-50 | every path relative to itself is the empty string |
| ProjectPath.RelativePathIsStringPrefix | faculty/datasets/path.py:40 | the test compares strings, not names: `/ab` lies under `/a`, with relative path `b` |
| ProjectPath.RelativePathOfDescendant | faculty/datasets/path.py:35-50 | below a rationalised directory, the relative path is the remaining names joined by `/`, with the path's trailing `/` |
| ProjectPath.ParentOf | faculty/datasets/path.py:72 | the `dirname` of the stripped rationalised path is empty or absolute, and is a prefix of the rationalised path |
| ProjectPath.DirectoryPrefixes | faculty/datasets/path.py:76-78 | one entry per piece of the dirname, the last being the whole dirname followed by `/` |
| ProjectPath.ParentDirectoryList | faculty/datasets/path.py:53-80 | the list `project_parent_directories` returns has one entry per piece of the dirname; its first and last entries and its order are stated by ParentDirectoriesShape |
| ProjectPath.ParentDirectories | faculty/datasets/path.py:53-80 | the method's list is `DirectoryPrefixes` of the `dirname` of the rationalised path without its trailing `/`s |
| ProjectPath.AppendPrefixes | faculty/datasets/path.py:74-79 | the append loop builds exactly `DirectoryPrefixes` of the dirname |
| ProjectPath.EmptyPrefixes | faculty/datasets/path.py:74-78 | an empty dirname (a path with no `/` left after stripping) lists only the root `/` |
| ProjectPath.RootPrefixes | faculty/datasets/path.py:74-78 | the dirname `/` lists `/` and then `//` |
| ProjectPath.DoubleRootPrefixes | faculty/datasets/path.py:74-78 | the dirname `//` lists `/`, `//` and then `///` |
| ProjectPath.DirectoryPrefixesChain | faculty/datasets/path.py:76-78 | each entry is a prefix of the next, and every entry but the last is a prefix of the dirname |
| ProjectPath.DirectoryPrefixesShape | faculty/datasets/path.py:76-78 | for an empty or absolute dirname: the list is non-empty, starts with `/`, and ends with the dirname followed by `/`; every entry ends with `/`; every entry but the last is a prefix of the next and of the dirname |
| ProjectPath.ParentDirectoriesShape | faculty/datasets/path.py:68-80 | the list of `project_parent_directories` has one entry per piece of the dirname; it starts with `/`, ends with the dirname followed by `/`, and every entry ends with `/`; every entry but the last is a prefix of the next and of the rationalised path |
| ProjectPath.DirectoryPrefixesCompose | faculty/datasets/path.py:76-78 | a rationalised dirname with a single leading `/` and at least one name lists the root, then each ancestor down to itself, each followed by `/` |
| ProjectPath.ParentDirectoryListCompose | faculty/datasets/path.py:68-80 | for a path whose rationalisation starts with a single `/` and holds at least two names, `project_parent_directories` lists exactly its ancestors: the root, then the path cut after each name except the last, each followed by `/` |
| ProjectPath.TopLevelFileListsDoubleSlash | faculty/datasets/path.py:72-78 | as written, a file at the top level lists `["/", "//"]`; `//` is not a prefix of its path |
| ProjectPath.Ancestors | faculty/datasets/path.py:53-65 | the directories containing a path with the given names: one per name, the root and then each proper ancestor, each followed by `/` |
| ProjectPath.AncestorDirectoryList | faculty/datasets/path.py:72-78 | the corrected list has one entry per piece of the dirname without its trailing `/`s; its first entry and its bounds are stated by AncestorDirectoryListShape |
| ProjectPath.AncestorDirectoryListShape | faculty/datasets/path.py:72-78 | the corrected list starts with `/`; every entry ends with `/` and is a prefix of the rationalised path |
| ProjectPath.AncestorDirectoryListCompose | faculty/datasets/path.py:72-78 | for every path whose rationalisation starts with a single `/` and holds at least one name, the corrected list holds exactly the path's ancestors, top-level files included |
| ProjectPath.AncestorsAgreeBelowTopLevel | faculty/datasets/path.py:72-78 | the corrected list equals the source's list whenever the dirname is not made only of `/` |
| ProjectPath.TopLevelFileAncestors | faculty/datasets/path.py:72-78 | with the correction, a file at the top level lists `["/"]` alone |
| ProjectPath.ParentDirectory | faculty/datasets/path.py:83-107 | `None` exactly when the rationalised path is `/`; otherwise a proper prefix of the rationalised path, which is empty or starts with `/`, and ends with `/` only when made only of `/` |
| ProjectPath.ParentDirectoryCompose | faculty/datasets/path.py:100-107 | for a path of the rationalised form: no name gives `None` (or `""` under `//`); one name gives `/` (or `//`); more names give the path without its last name |
| ProjectPath.ParentDirectoryDropsLastName | faculty/datasets/path.py:100-107 | `project_parent_directory` of any path removes the last name of its rationalisation, with the same cases as above |
| ProjectPath.ParentDirectoriesEndAtParent | faculty/datasets/path.py:72-107 | the last entry of `project_parent_directories` is `project_parent_directory` followed by `/` (the root when there is no parent) |
| ProjectPath.ParentIgnoresTrailingSlash | faculty/datasets/path.py:70-72 | one more trailing `/` on an input that has a character other than `/` changes neither `project_parent_directory` nor `project_parent_directories` |
| ProjectPathScenarios.RationaliseCollapsesDotDot | faculty/datasets/path.py:22-32 | `a/b/../c/` rationalises to `/a/c/` |
| ProjectPathScenarios.RelativePathBelowRoot | faculty/datasets/path.py:35-50 | `project_relative_path("/a/", "/a/b/c")` is `b/c` |
| ProjectPathScenarios.RelativePathOutsideRoot | faculty/datasets/path.py:40-42 | `project_relative_path("/a/", "/x/y")` with `a` different from `x` raises `ValueError` |
| ProjectPathScenarios.ParentDirectoriesOfNestedFile | faculty/datasets/path.py:53-80 | `project_parent_directories("/a/b/c")` is `["/", "/a/", "/a/b/"]` |
| ProjectPathScenarios.ParentDirectoryOfRoot | faculty/datasets/path.py:104-105 | `project_parent_directory("/")` is `None` |
| ProjectPathScenarios.ParentDirectoryOfDirectory | faculty/datasets/path.py:100-107 | `project_parent_directory("/a/b/")` is `/a` |
| ProjectPathScenarios.DoubleSlashRoot | faculty/datasets/path.py:22-32 | `//` is its own rationalisation, and its parent is the empty string |
| ProjectPathScenarios.DoubleSlashParent | faculty/datasets/path.py:100-107 | the parent of a name under `//` is `//`, which ends with `/` without being `/` |
| ProjectPathScenarios.DoubleSlashTopLevelFile | faculty/datasets/path.py:72-78 | as written, a name directly under `//` lists `["/", "//", "///"]`, and `///` is not a prefix of its path; the corrected list is `["/"]` |
| ProjectPathScenarios.DoubleSlashNestedFile | faculty/datasets/path.py:72-78 | both lists for `//a/b` are `["/", "//", "//a/"]` |

## Left out

- `DatasetsError` (faculty/datasets/path.py:18-19) is an empty exception class, so there is nothing in it to model.
- The rest of the package (the session and access-token cache, the environment client, the file-transfer functions) is not part of this model. The path functions above call none of it.
- Paths are text strings with `/` as the only separator. Bytes paths, Windows paths, `os.fspath` conversion and non-string arguments are not modelled.
- Raising `ValueError` is modelled as a `Failure` result carrying the message. Python's exception propagation is not modelled.
- `posixpath.normpath` is modelled after its pure-Python definition in `posixpath`. Faster implementations of the same function are not modelled.
- `project_parent_directories` appends to a Python list, which is modelled as a sequence value. No aliasing of the list is possible, since it is created inside the function.
- ProjectPath.ParentIgnoresTrailingSlash: only inputs with a character other than `/` are covered. An input made only of `/` really does change: `/` has no parent, while `//` has the empty string as its parent.
- ProjectPath.ParentDirectoryListCompose: only paths whose rationalisation starts with a single `/` are covered. Under a leading `//` the list holds both `/` and `//` before the directory of the first name: `//a/b` gives `["/", "//", "//a/"]` (ProjectPathScenarios.DoubleSlashNestedFile). A name directly under `//` gives `["/", "//", "///"]` (ProjectPathScenarios.DoubleSlashTopLevelFile).
- ProjectPath.AncestorDirectoryListCompose: only paths whose rationalisation starts with a single `/` are covered. Under a leading `//` the corrected list also holds `/` and then `//` (`//a/b` gives `["/", "//", "//a/"]`), which is not the `Ancestors` shape. The correction removes the `///` entry of a name directly under `//`, but a model of which of the two roots `/` and `//` should be listed is not attempted.
- ProjectPath.ParentDirectoryList: its own contract gives only the number of entries; the rest of what the source promises about the list is stated by ProjectPath.ParentDirectoriesShape and ProjectPath.ParentDirectoryListCompose.
- ProjectPath.ParentDirectory: "no trailing `/` unless the parent is `/`" is stated as "a trailing `/` only when the parent is made only of `/`". The parent of a name under `//` is `//` (ProjectPathScenarios.DoubleSlashParent).

## Findings

| source | as written | input that shows it | evidently intended | confidence | as-written member | corrected member |
|---|---|---|---|---|---|---|
| faculty/datasets/path.py:72-78 | the dirname of a top-level file is `/`, which `split("/")` turns into two empty pieces, so the list gets `//` after `/` | `project_parent_directories("/a.txt")` returns `["/", "//"]` | the directories that contain the file: `["/"]` (strip the trailing `/`s of the dirname before splitting) | not executed | ProjectPath.TopLevelFileListsDoubleSlash | ProjectPath.AncestorDirectoryListCompose |

`ProjectPath.ParentDirectories` keeps the list as the source builds it. `ProjectPath.AncestorDirectoryList` is the corrected list. It is proved to hold exactly the ancestors of every path with a name whose rationalisation starts with a single `/` (`AncestorDirectoryListCompose`), to contain only directories that contain the path, for every path (`AncestorDirectoryListShape`), and to agree with the source whenever the dirname is not made only of `/` (`AncestorsAgreeBelowTopLevel`). The same flaw shows under a leading `//`: a name directly under `//` lists `["/", "//", "///"]`, and the corrected list is `["/"]` (`ProjectPathScenarios.DoubleSlashTopLevelFile`).
