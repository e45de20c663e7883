/** POSIX path helpers with the behaviour of Python's posixpath: join, basename, dirname,
    normpath and abspath. The process working directory is the session's current directory,
    so abspath takes it as a parameter. */
module Paths {
  import opened Text

  type Path = string

  predicate IsAbs(p: Path) {
    |p| > 0 && p[0] == '/'
  }

  /** os.path.join(a, b): an absolute b replaces a; otherwise b is appended after one '/'. */
  function Join(a: Path, b: Path): (r: Path)
    ensures IsAbs(b) ==> r == b
    ensures !IsAbs(b) ==> StartsWith(r, a) && |b| <= |r| && r[|r| - |b|..] == b
    ensures !IsAbs(b) && IsAbs(a) ==> IsAbs(r)
  {
    if IsAbs(b) then b
    else if a == [] || a[|a| - 1] == '/' then a + b
    else a + "/" + b
  }

  /** Index just after the last '/', or 0 when there is none (p.rfind('/') + 1). */
  function AfterLastSlash(p: Path): (i: nat)
    ensures i <= |p|
    ensures i > 0 ==> p[i - 1] == '/'
    ensures forall k :: i <= k < |p| ==> p[k] != '/'
  {
    if p == [] then 0
    else if p[|p| - 1] == '/' then |p|
    else AfterLastSlash(p[..|p| - 1])
  }

  /** os.path.basename: the text after the last '/'. */
  function Basename(p: Path): (r: Path)
    ensures '/' !in r
    ensures |r| <= |p| && p[|p| - |r|..] == r
    ensures |r| < |p| ==> p[|p| - |r| - 1] == '/'
  {
    p[AfterLastSlash(p)..]
  }

  /** A basename is never absolute: it holds no '/'. */
  lemma BasenameRelative(p: Path)
    ensures !IsAbs(Basename(p))
  {
    var b := Basename(p);
    if |b| > 0 {
      assert b[0] in b;
    }
  }

  predicate AllSlashes(s: string) {
    forall k :: 0 <= k < |s| ==> s[k] == '/'
  }

  /** head.rstrip('/') */
  function StripTrailingSlashes(s: string): (r: string)
    ensures |r| <= |s| && r == s[..|r|] && AllSlashes(s[|r|..])
    ensures r == [] || r[|r| - 1] != '/'
  {
    if s != [] && s[|s| - 1] == '/' then
      var r := StripTrailingSlashes(s[..|s| - 1]);
      assert s[|r|..] == s[..|s| - 1][|r|..] + "/";
      r
    else s
  }

  /** os.path.dirname: everything up to the last '/', with trailing slashes removed unless
      only slashes are left. */
  function Dirname(p: Path): Path {
    var head := p[..AfterLastSlash(p)];
    if head != [] && !AllSlashes(head) then StripTrailingSlashes(head) else head
  }

  predicate NoDoubleSlash(p: Path) {
    forall k :: 0 < k < |p| ==> !(p[k - 1] == '/' && p[k] == '/')
  }

  /** For a path without repeated slashes, dirname and basename split it and join puts it back. */
  lemma JoinDirnameBasename(p: Path)
    requires NoDoubleSlash(p)
    ensures Join(Dirname(p), Basename(p)) == p
  {
    var i := AfterLastSlash(p);
    var head, base := p[..i], p[i..];
    assert p == head + base;
    if i == 0 {
    } else if i == 1 {
      assert AllSlashes(head);
    } else {
      var h := p[..i - 1];
      assert h + "/" == head;
      assert h[|h| - 1] != '/' by { assert h[|h| - 1] == p[i - 2]; }
      StripOneSlash(h);
      assert Dirname(p) == h;
      BasenameRelative(p);
      assert Join(h, base) == h + "/" + base;
    }
  }

  /** Stripping the trailing slashes of a path ending in exactly one slash drops that slash. */
  lemma StripOneSlash(h: string)
    requires h != [] && h[|h| - 1] != '/'
    ensures StripTrailingSlashes(h + "/") == h
    ensures !AllSlashes(h + "/")
  {
    assert (h + "/")[..|h|] == h;
    assert (h + "/")[|h| - 1] != '/';
  }

  /** posixpath.normpath's component pass: drop '' and '.', let '..' cancel the previous
      component, keep a leading '..' only on a relative path. */
  function NormComps(comps: seq<string>, rooted: bool, acc: seq<string>): seq<string>
    decreases |comps|
  {
    if comps == [] then acc
    else
      var c := comps[0];
      if c == "" || c == "." then NormComps(comps[1..], rooted, acc)
      else if c != ".." || (!rooted && acc == []) || (acc != [] && acc[|acc| - 1] == "..") then
        NormComps(comps[1..], rooted, acc + [c])
      else if acc != [] then NormComps(comps[1..], rooted, acc[..|acc| - 1])
      else NormComps(comps[1..], rooted, acc)
  }

  /** A component normpath leaves in a rooted path: never empty, '.' or '..'. */
  predicate PlainComponent(c: string) {
    c != "" && c != "." && c != ".."
  }

  lemma {:induction false} NormCompsRooted(comps: seq<string>, acc: seq<string>)
    requires forall k :: 0 <= k < |acc| ==> PlainComponent(acc[k])
    ensures forall k :: 0 <= k < |NormComps(comps, true, acc)| ==> PlainComponent(NormComps(comps, true, acc)[k])
    decreases |comps|
  {
    if comps != [] {
      var c := comps[0];
      if c == "" || c == "." {
        NormCompsRooted(comps[1..], acc);
      } else if c != ".." {
        NormCompsRooted(comps[1..], acc + [c]);
      } else if acc != [] {
        NormCompsRooted(comps[1..], acc[..|acc| - 1]);
      } else {
        NormCompsRooted(comps[1..], acc);
      }
    }
  }

  /** The number of leading slashes normpath keeps: POSIX lets exactly two stand. */
  function InitialSlashes(p: Path): nat {
    if StartsWith(p, "//") && !StartsWith(p, "///") then 2
    else if StartsWith(p, "/") then 1
    else 0
  }

  /** os.path.normpath */
  function Normpath(p: Path): (r: Path)
    ensures IsAbs(p) ==> IsAbs(r)
    ensures r != []
  {
    if p == [] then "."
    else
      var n := InitialSlashes(p);
      var body := JoinWith(NormComps(SplitOn(p, '/'), n > 0, []), '/');
      var r := (if n == 2 then "//" else if n == 1 then "/" else "") + body;
      if r == [] then "." else r
  }

  /** An absolute path comes out of normpath as a root followed by plain components. */
  lemma NormpathAbsolute(p: Path)
    requires IsAbs(p)
    ensures exists comps: seq<string> ::
              (forall k :: 0 <= k < |comps| ==> PlainComponent(comps[k]))
              && (Normpath(p) == "/" + JoinWith(comps, '/') || Normpath(p) == "//" + JoinWith(comps, '/'))
  {
    var comps := NormComps(SplitOn(p, '/'), true, []);
    NormCompsRooted(SplitOn(p, '/'), []);
    assert InitialSlashes(p) > 0;
  }

  /** os.path.abspath(os.path.join(cwd, p)) with the process working directory at cwd. */
  function Abspath(cwd: Path, p: Path): (r: Path)
    ensures IsAbs(cwd) || IsAbs(p) ==> IsAbs(r)
  {
    var j := Join(cwd, p);
    Normpath(if IsAbs(j) then j else Join(cwd, j))
  }

  /** Where the operating system finds a path the program passes as written: relative paths
      are taken from the process working directory, which the shell keeps at cwd. */
  function At(cwd: Path, p: Path): Path {
    Join(cwd, p)
  }

  /** p ending in a '/': one is appended unless it is already there. */
  function WithSlash(p: Path): (r: Path)
    ensures StartsWith(r, p)
    ensures r != [] && r[|r| - 1] == '/'
  {
    if p != [] && p[|p| - 1] == '/' then p else p + "/"
  }

  /** shutil's _destinsrc test: dst names the directory src or a path below it. */
  predicate Within(dst: Path, src: Path) {
    StartsWith(WithSlash(dst), WithSlash(src))
  }

  /** A relative name joined onto a directory lies below that directory. */
  lemma JoinWithin(a: Path, b: Path)
    requires a != [] && b != [] && !IsAbs(b)
    ensures Within(Join(a, b), a) && Join(a, b) != a
  {
    var j := Join(a, b);
    var w := WithSlash(a);
    assert StartsWith(j, w) by {
      if a[|a| - 1] != '/' {
        assert j == w + b;
      }
    }
    assert j[..|w|] == w;
    assert WithSlash(j)[..|w|] == j[..|w|];
  }
}
