/** The fragments of Python's `str` methods and of the `posixpath` module that
    the project-path functions call, on text strings, with `/` as the only
    separator. */
module PosixPath {

  const Sep: char := '/'

  /** `s` holds nothing but separators (true of the empty string). */
  predicate AllSlashes(s: string) {
    forall i | 0 <= i < |s| :: s[i] == Sep
  }

  /** `s.startswith("/")` */
  predicate StartsWithSlash(s: string) {
    |s| > 0 && s[0] == Sep
  }

  /** `s.endswith("/")` */
  predicate EndsWithSlash(s: string) {
    |s| > 0 && s[|s| - 1] == Sep
  }

  /** `startswith("/")` is a test for the one-character prefix `/`. */
  lemma StartsWithSlashPrefix(s: string)
    ensures StartsWithSlash(s) <==> "/" <= s
  {
  }

  /** `endswith("/")` is a test for the one-character suffix `/`. */
  lemma EndsWithSlashSuffix(s: string)
    ensures EndsWithSlash(s) <==> |s| >= 1 && s[|s| - 1..] == "/"
  {
    if |s| >= 1 && s[|s| - 1..] == "/" {
      assert s[|s| - 1] == s[|s| - 1..][0];
    }
  }

  /** `s.lstrip("/")`: what is left after the leading separators. */
  function LStrip(s: string): (r: string)
    ensures |r| <= |s| && r == s[|s| - |r|..]
    ensures !StartsWithSlash(r)
    decreases |s|
  {
    if StartsWithSlash(s) then LStrip(s[1..]) else s
  }

  /** What `lstrip` removes is separators only. */
  lemma {:induction false} LStripSlashes(s: string)
    ensures AllSlashes(s[..|s| - |LStrip(s)|])
    decreases |s|
  {
    if StartsWithSlash(s) {
      LStripSlashes(s[1..]);
      var k := |s| - |LStrip(s)|;
      assert s[..k] == [Sep] + s[1..][..k - 1];
    }
  }

  /** `s.rstrip("/")`: what is left before the trailing separators. */
  function RStrip(s: string): (r: string)
    ensures r <= s
    ensures AllSlashes(s[|r|..])
    ensures !EndsWithSlash(r)
    decreases |s|
  {
    if EndsWithSlash(s) then RStrip(s[..|s| - 1]) else s
  }

  /** `s.rfind("/")`: the index of the last separator, or -1 when there is none. */
  function RFind(s: string): (i: int)
    ensures -1 <= i < |s|
    ensures i >= 0 ==> s[i] == Sep
    ensures forall j | i < j < |s| :: s[j] != Sep
    decreases |s|
  {
    if s == [] then -1
    else if s[|s| - 1] == Sep then |s| - 1
    else RFind(s[..|s| - 1])
  }

  /** `s.split("/")`: the pieces between the separators; never an empty list. */
  function Split(s: string): (parts: seq<string>)
    ensures |parts| >= 1
    decreases |s|
  {
    if s == [] then [""]
    else
      var init := Split(s[..|s| - 1]);
      if s[|s| - 1] == Sep then init + [""]
      else init[..|init| - 1] + [init[|init| - 1] + [s[|s| - 1]]]
  }

  /** `"/".join(parts)` */
  function JoinWith(parts: seq<string>): string
    decreases |parts|
  {
    if |parts| == 0 then ""
    else if |parts| == 1 then parts[0]
    else JoinWith(parts[..|parts| - 1]) + [Sep] + parts[|parts| - 1]
  }

  /** `posixpath.join(a, b)`: an absolute `b` replaces `a`; otherwise `b` is
      appended after a separator, unless `a` is empty or already ends in one. */
  function Join(a: string, b: string): (r: string)
    ensures |b| <= |r| && r[|r| - |b|..] == b
    ensures StartsWithSlash(a) ==> StartsWithSlash(r)
  {
    if StartsWithSlash(b) then b
    else if a == "" || EndsWithSlash(a) then a + b
    else a + [Sep] + b
  }

  /** `posixpath.dirname(p)`: everything up to the last separator, with the
      trailing separators dropped unless nothing but separators would be left. */
  function DirName(p: string): (head: string)
    ensures head <= p
    ensures head == "" <==> Sep !in p
    ensures EndsWithSlash(head) ==> AllSlashes(head)
    ensures StartsWithSlash(p) ==> StartsWithSlash(head)
  {
    var i := RFind(p) + 1;
    var head := p[..i];
    if head != "" && !AllSlashes(head) then RStrip(head) else head
  }

  /** The leading separators that `posixpath.normpath` keeps: POSIX gives two
      leading slashes a meaning of their own, while one, or three or more,
      mean the root. */
  function InitialSlashes(path: string): (lead: string)
    ensures lead == "" <==> !StartsWithSlash(path)
    ensures lead == "//" <==> |path| >= 2 && path[..2] == "//" && (|path| == 2 || path[2] != Sep)
    ensures lead == "" || lead == "/" || lead == "//"
  {
    if !StartsWithSlash(path) then ""
    else if |path| >= 2 && path[1] == Sep && (|path| == 2 || path[2] != Sep) then "//"
    else "/"
  }

  /** One turn of `normpath`'s loop over the pieces: empty and `.` pieces are
      dropped; `..` removes the previous piece, except that it is kept at the
      start of a relative path or after another kept `..`, and dropped at the
      root of an absolute path. */
  function NormStep(acc: seq<string>, comp: string, absolute: bool): seq<string> {
    if comp == "" || comp == "." then acc
    else if comp != ".." || (!absolute && acc == []) || (acc != [] && acc[|acc| - 1] == "..") then acc + [comp]
    else if acc != [] then acc[..|acc| - 1]
    else acc
  }

  /** `normpath`'s loop over all pieces, from left to right. */
  function Collapse(comps: seq<string>, absolute: bool): seq<string>
    decreases |comps|
  {
    if comps == [] then []
    else NormStep(Collapse(comps[..|comps| - 1], absolute), comps[|comps| - 1], absolute)
  }

  /** `posixpath.normpath(path)` */
  function NormPath(path: string): (r: string)
    ensures r != ""
    ensures StartsWithSlash(path) ==> StartsWithSlash(r)
  {
    if path == "" then "."
    else
      var lead := InitialSlashes(path);
      var normed := lead + JoinWith(Collapse(Split(path), lead != ""));
      if normed == "" then "." else normed
  }

  /** A name that an absolute normalised path can hold between its separators. */
  predicate IsName(c: string) {
    c != "" && c != "." && c != ".." && Sep !in c
  }

  /** No piece is empty, `.` or holds a separator. */
  predicate KeptPieces(r: seq<string>) {
    forall i | 0 <= i < |r| :: r[i] != "" && r[i] != "." && Sep !in r[i]
  }

  predicate AllNames(names: seq<string>) {
    forall i | 0 <= i < |names| :: IsName(names[i])
  }

  // ---------------------------------------------------------------- lemmas

  /** Appending one character either starts a new piece or extends the last. */
  lemma SplitSnoc(s: string, c: char)
    ensures var init := Split(s);
            Split(s + [c]) == if c == Sep then init + [""] else init[..|init| - 1] + [init[|init| - 1] + [c]]
  {
    assert (s + [c])[..|s|] == s;
  }

  /** No piece of a split holds a separator. */
  lemma {:induction false} SplitSeparatorFree(s: string)
    ensures forall i | 0 <= i < |Split(s)| :: Sep !in Split(s)[i]
    decreases |s|
  {
    if s != [] {
      SplitSeparatorFree(s[..|s| - 1]);
    }
  }

  /** Splitting around one separator splits both sides. */
  lemma {:induction false} SplitAround(a: string, b: string)
    ensures Split(a + [Sep] + b) == Split(a) + Split(b)
    decreases |b|
  {
    if b == [] {
      SplitSnoc(a, Sep);
      assert a + [Sep] + b == a + [Sep];
    } else {
      var b' := b[..|b| - 1];
      var c := b[|b| - 1];
      assert a + [Sep] + b == (a + [Sep] + b') + [c];
      assert b == b' + [c];
      SplitAround(a, b');
      SplitAroundStep(a, b', c);
    }
  }

  /** The inductive step of `SplitAround`: one more character after the separator. */
  lemma SplitAroundStep(a: string, b: string, c: char)
    requires Split(a + [Sep] + b) == Split(a) + Split(b)
    ensures Split(a + [Sep] + b + [c]) == Split(a) + Split(b + [c])
  {
    SplitSnoc(a + [Sep] + b, c);
    SplitSnoc(b, c);
    if c != Sep {
      SplitExtendLast(Split(a), Split(b), c);
    }
  }

  /** Extending the last piece of two lists of pieces put together extends
      the last piece of the second. */
  lemma SplitExtendLast(A: seq<string>, B: seq<string>, c: char)
    requires |B| >= 1
    ensures var init := A + B;
            init[..|init| - 1] + [init[|init| - 1] + [c]] == A + (B[..|B| - 1] + [B[|B| - 1] + [c]])
  {
    var init := A + B;
    assert init[..|init| - 1] == A + B[..|B| - 1];
    assert init[|init| - 1] == B[|B| - 1];
  }

  /** A string without separators is one piece. */
  lemma {:induction false} SplitName(s: string)
    requires Sep !in s
    ensures Split(s) == [s]
    decreases |s|
  {
    if s != [] {
      var s' := s[..|s| - 1];
      assert Sep !in s' by {
        forall k | 0 <= k < |s'| ensures s'[k] != Sep { assert s'[k] == s[k]; }
      }
      SplitName(s');
      assert s == s' + [s[|s| - 1]];
    }
  }

  /** `"/".join(parts)` starts with the first piece and ends with the last. */
  lemma {:induction false} JoinWithEnds(parts: seq<string>)
    requires parts != []
    ensures parts[0] <= JoinWith(parts)
    ensures var last := parts[|parts| - 1];
            |last| <= |JoinWith(parts)| && JoinWith(parts)[|JoinWith(parts)| - |last|..] == last
    decreases |parts|
  {
    if |parts| > 1 {
      var init := parts[..|parts| - 1];
      var last := parts[|parts| - 1];
      JoinWithEnds(init);
      assert init[0] == parts[0];
      assert JoinWith(parts) == JoinWith(init) + ([Sep] + last);
    }
  }

  /** Joining then splitting gives the pieces back. */
  lemma {:induction false} SplitJoinWith(parts: seq<string>)
    requires |parts| >= 1
    requires forall i | 0 <= i < |parts| :: Sep !in parts[i]
    ensures Split(JoinWith(parts)) == parts
    decreases |parts|
  {
    if |parts| == 1 {
      SplitName(parts[0]);
    } else {
      var init := parts[..|parts| - 1];
      SplitJoinWith(init);
      SplitAround(JoinWith(init), parts[|parts| - 1]);
      SplitName(parts[|parts| - 1]);
      assert parts == init + [parts[|parts| - 1]];
    }
  }

  /** Splitting then joining gives the string back. */
  lemma {:induction false} JoinWithSplit(s: string)
    ensures JoinWith(Split(s)) == s
    decreases |s|
  {
    if s != [] {
      var s' := s[..|s| - 1];
      var c := s[|s| - 1];
      JoinWithSplit(s');
      assert s == s' + [c];
      JoinWithSnoc(s', c);
    }
  }

  /** Joining the pieces of `s` and one more character gives the join of
      the pieces of `s` and that character. */
  lemma JoinWithSnoc(s: string, c: char)
    ensures JoinWith(Split(s + [c])) == JoinWith(Split(s)) + [c]
  {
    var init := Split(s);
    SplitSnoc(s, c);
    if c == Sep {
      assert (init + [""])[..|init|] == init;
    } else if |init| > 1 {
      var parts := init[..|init| - 1] + [init[|init| - 1] + [c]];
      assert parts[..|parts| - 1] == init[..|init| - 1];
    }
  }

  /** Names joined by `/` split back into the names. */
  lemma SplitNames(names: seq<string>)
    requires AllNames(names) && names != []
    ensures Split(JoinWith(names)) == names
  {
    assert forall i | 0 <= i < |names| :: Sep !in names[i] by {
      forall i | 0 <= i < |names| ensures Sep !in names[i] { assert IsName(names[i]); }
    }
    SplitJoinWith(names);
  }

  /** A separator in front adds an empty first piece. */
  lemma SplitSlashFront(body: string)
    ensures Split([Sep] + body) == [""] + Split(body)
  {
    assert [Sep] + body == "" + [Sep] + body;
    SplitAround("", body);
  }

  /** A path that starts with a separator splits into an empty first piece. */
  lemma SplitAbsolute(s: string)
    requires StartsWithSlash(s)
    ensures Split(s) == [""] + Split(s[1..])
  {
    assert s == "" + [Sep] + s[1..];
    SplitAround("", s[1..]);
  }

  /** A list of pieces joins into a string that starts with each shorter
      list's join, followed by a separator when pieces remain. */
  lemma {:induction false} JoinWithPrefix(parts: seq<string>, k: nat)
    requires 1 <= k <= |parts|
    ensures JoinWith(parts[..k]) <= JoinWith(parts)
    ensures k < |parts| ==> JoinWith(parts[..k]) + [Sep] <= JoinWith(parts)
    decreases |parts|
  {
    var n := |parts|;
    if k < n {
      var init := parts[..n - 1];
      assert init[..k] == parts[..k];
      if k < n - 1 {
        JoinWithPrefix(init, k);
      }
      assert JoinWith(parts) == JoinWith(init) + [Sep] + parts[n - 1];
    } else {
      assert parts[..k] == parts;
    }
  }

  /** Joining two non-empty lists of pieces puts one separator between
      their joins. */
  lemma {:induction false} JoinWithAppend(xs: seq<string>, ys: seq<string>)
    requires |xs| >= 1 && |ys| >= 1
    ensures JoinWith(xs + ys) == JoinWith(xs) + [Sep] + JoinWith(ys)
    decreases |ys|
  {
    var all := xs + ys;
    var n := |ys|;
    if n == 1 {
      assert all[..|all| - 1] == xs;
    } else {
      var init := ys[..n - 1];
      assert all[..|all| - 1] == xs + init;
      JoinWithAppend(xs, init);
    }
  }

  /** Names joined by separators begin and end with a name character. */
  lemma {:induction false} JoinWithNames(names: seq<string>)
    requires |names| >= 1 && AllNames(names)
    ensures JoinWith(names) != ""
    ensures JoinWith(names)[0] != Sep && JoinWith(names)[|JoinWith(names)| - 1] != Sep
    decreases |names|
  {
    if |names| > 1 {
      var init := names[..|names| - 1];
      JoinWithNames(init);
      var last := names[|names| - 1];
      assert IsName(last);
      assert last[|last| - 1] in last;
    } else {
      assert names[0][0] in names[0];
      assert names[0][|names[0]| - 1] in names[0];
    }
  }

  /** Pieces that are all empty collapse to nothing. */
  lemma {:induction false} CollapseEmpty(comps: seq<string>, absolute: bool)
    requires forall i | 0 <= i < |comps| :: comps[i] == ""
    ensures Collapse(comps, absolute) == []
    decreases |comps|
  {
    if comps != [] {
      CollapseEmpty(comps[..|comps| - 1], absolute);
    }
  }

  /** `normpath`'s loop keeps a name it meets. */
  lemma NormStepName(acc: seq<string>, name: string, absolute: bool)
    requires IsName(name)
    ensures NormStep(acc, name, absolute) == acc + [name]
  {
  }

  /** Names that follow other pieces are kept as they are. */
  lemma {:induction false} CollapseNames(pre: seq<string>, names: seq<string>, absolute: bool)
    requires AllNames(names)
    ensures Collapse(pre + names, absolute) == Collapse(pre, absolute) + names
    decreases |names|
  {
    if names == [] {
      assert pre + names == pre;
    } else {
      var init := names[..|names| - 1];
      var last := names[|names| - 1];
      assert AllNames(init) by {
        forall i | 0 <= i < |init| ensures IsName(init[i]) { assert init[i] == names[i]; }
      }
      assert pre + names == (pre + init) + [last];
      calc {
        Collapse(pre + names, absolute);
        { CollapseSnoc(pre + init, last, absolute); }
        NormStep(Collapse(pre + init, absolute), last, absolute);
        { CollapseNames(pre, init, absolute); NormStepName(Collapse(pre, absolute) + init, last, absolute); }
        Collapse(pre, absolute) + init + [last];
        { assert names == init + [last]; }
        Collapse(pre, absolute) + names;
      }
    }
  }

  /** `normpath`'s loop handles the last piece after all the others. */
  lemma CollapseSnoc(comps: seq<string>, comp: string, absolute: bool)
    ensures Collapse(comps + [comp], absolute) == NormStep(Collapse(comps, absolute), comp, absolute)
  {
    assert (comps + [comp])[..|comps|] == comps;
  }

  /** `normpath`'s loop drops an empty last piece. */
  lemma CollapseEmptyLast(comps: seq<string>, absolute: bool)
    ensures Collapse(comps + [""], absolute) == Collapse(comps, absolute)
  {
    CollapseSnoc(comps, "", absolute);
  }

  /** `normpath`'s loop drops a `.` piece. */
  lemma CollapseDot(comps: seq<string>, absolute: bool)
    ensures Collapse(comps + ["."], absolute) == Collapse(comps, absolute)
  {
    CollapseSnoc(comps, ".", absolute);
  }

  /** `normpath`'s loop cancels a name against the `..` that follows it. */
  lemma CollapseDotDotName(comps: seq<string>, name: string, absolute: bool)
    requires IsName(name)
    ensures Collapse(comps + [name, ".."], absolute) == Collapse(comps, absolute)
  {
    var acc := Collapse(comps, absolute);
    assert comps + [name, ".."] == (comps + [name]) + [".."];
    CollapseSnoc(comps + [name], "..", absolute);
    CollapseSnoc(comps, name, absolute);
    NormStepName(acc, name, absolute);
    assert (acc + [name])[..|acc|] == acc;
  }

  /** On an absolute path, a `..` at the root is dropped. */
  lemma CollapseDotDotRoot(comps: seq<string>)
    requires Collapse(comps, true) == []
    ensures Collapse(comps + [".."], true) == []
  {
    CollapseSnoc(comps, "..", true);
  }

  /** On a relative path, a `..` with no name before it to cancel is kept. */
  lemma CollapseDotDotKept(comps: seq<string>)
    requires var acc := Collapse(comps, false); acc == [] || acc[|acc| - 1] == ".."
    ensures Collapse(comps + [".."], false) == Collapse(comps, false) + [".."]
  {
    CollapseSnoc(comps, "..", false);
  }

  /** On an absolute path, `normpath` keeps its leading `/` or `//` and the
      names its loop leaves, joined by `/`. */
  lemma NormPathAbsolute(path: string)
    requires StartsWithSlash(path)
    ensures AllNames(Collapse(Split(path), true))
    ensures NormPath(path) == InitialSlashes(path) + JoinWith(Collapse(Split(path), true))
  {
    SplitSeparatorFree(path);
    CollapseSeparatorFree(Split(path), true);
  }

  /** `normpath`'s loop keeps only pieces it was given, never an empty or
      `.` one, and on an absolute path never `..`: there it leaves names
      only. */
  lemma {:induction false} CollapseSeparatorFree(comps: seq<string>, absolute: bool)
    requires forall i | 0 <= i < |comps| :: Sep !in comps[i]
    ensures KeptPieces(Collapse(comps, absolute))
    ensures absolute ==> AllNames(Collapse(comps, absolute))
    decreases |comps|
  {
    if comps != [] {
      var init := comps[..|comps| - 1];
      var comp := comps[|comps| - 1];
      CollapseSeparatorFree(init, absolute);
      var acc := Collapse(init, absolute);
      assert forall j | 0 <= j < |acc| :: acc[j] != "" && acc[j] != "." && Sep !in acc[j];
      assert absolute ==> forall j | 0 <= j < |acc| :: IsName(acc[j]);
      var r := Collapse(comps, absolute);
      assert Sep !in comp;
      forall i | 0 <= i < |r|
        ensures r[i] != "" && r[i] != "." && Sep !in r[i] && (absolute ==> r[i] != "..")
      {
        if i < |acc| {
          assert r[i] == acc[i];
        } else {
          assert r[i] == comp;
        }
      }
    }
  }

  /** `rstrip` leaves nothing of a string of separators. */
  lemma RStripAllSlashes(s: string)
    requires AllSlashes(s)
    ensures RStrip(s) == ""
  {
  }

  /** What `dirname` keeps, without its trailing separators and followed by
      one separator, is a prefix of the original path. */
  lemma DirNameStripped(p: string)
    requires Sep in p
    ensures RStrip(DirName(p)) + [Sep] <= p
  {
    var i := RFind(p) + 1;
    assert i >= 1 by {
      RFindFound(p);
    }
    var head := p[..i];
    assert RStrip(DirName(p)) == RStrip(head) by {
      if !AllSlashes(head) {
        assert RStrip(RStrip(head)) == RStrip(head);
      }
    }
    assert EndsWithSlash(head);
    RStripSlashPrefix(head);
  }

  /** A string ending in a separator starts with what `rstrip` leaves of it,
      followed by a separator. */
  lemma RStripSlashPrefix(s: string)
    requires EndsWithSlash(s)
    ensures RStrip(s) + [Sep] <= s
  {
    var d := RStrip(s);
    assert |d| < |s|;
    assert s[|d|] == Sep by {
      assert s[|d|..][0] == s[|d|];
    }
    assert d + [Sep] == s[..|d| + 1];
  }

  /** A string holding a separator has a last one. */
  lemma RFindFound(p: string)
    requires Sep in p
    ensures RFind(p) >= 0
  {
    var k :| 0 <= k < |p| && p[k] == Sep;
    assert RFind(p) >= k;
  }

  /** The `dirname` of a path whose last separator precedes a final name is
      what comes before that separator, its trailing separators dropped
      unless it is made of separators only. */
  lemma DirNameLast(p: string, x: string)
    requires Sep !in x
    ensures DirName(p + [Sep] + x) == if AllSlashes(p) then p + [Sep] else RStrip(p)
  {
    var s := p + [Sep] + x;
    RFindLast(p, x);
    var head := s[..|p| + 1];
    assert head == p + [Sep];
    AllSlashesSnoc(p);
    assert head[..|head| - 1] == p;
  }

  /** The last separator of `p/x`, where `x` holds none, is the one before `x`. */
  lemma {:induction false} RFindLast(p: string, x: string)
    requires Sep !in x
    ensures RFind(p + [Sep] + x) == |p|
    decreases |x|
  {
    var s := p + [Sep] + x;
    if x != [] {
      var x' := x[..|x| - 1];
      assert x[|x| - 1] in x;
      assert Sep !in x' by {
        forall k | 0 <= k < |x'| ensures x'[k] != Sep { assert x'[k] == x[k]; }
      }
      assert s[..|s| - 1] == p + [Sep] + x';
      RFindLast(p, x');
    }
  }

  /** A separator after `p` leaves it all separators exactly when `p` was. */
  lemma AllSlashesSnoc(p: string)
    ensures AllSlashes(p + [Sep]) <==> AllSlashes(p)
  {
    var head := p + [Sep];
    if AllSlashes(p) {
      forall k | 0 <= k < |head| ensures head[k] == Sep {
        if k < |p| { assert head[k] == p[k]; }
      }
    }
    if AllSlashes(head) {
      forall k | 0 <= k < |p| ensures p[k] == Sep { assert p[k] == head[k]; }
    }
  }
}
