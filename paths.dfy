/** The path helpers of `MdPlusHelper`: `fileExt` with the `basename`,
    `dirname` and `pathinfo` it relies on, and `normalizePath`. Only `/`
    separates path components. */
module Paths {
  import opened Wrappers
  import opened PhpStrings

  predicate IsSlash(c: char) { c == '/' }

  /** The index just after the last `c` in `s`, 0 when there is none. */
  function AfterLast(s: string, c: char): (n: nat)
    ensures n <= |s| && c !in s[n..]
    ensures n > 0 ==> s[n - 1] == c
    ensures n == 0 <==> c !in s
  {
    if s == [] then 0
    else if s[|s| - 1] == c then |s|
    else
      var n := AfterLast(s[..|s| - 1], c);
      assert s[n..] == s[..|s| - 1][n..] + [s[|s| - 1]];
      assert n > 0 ==> s[n - 1] == s[..|s| - 1][n - 1];
      assert s == s[..|s| - 1] + [s[|s| - 1]];
      n
  }

  lemma AfterLastJoin(a: string, c: char, b: string)
    requires c !in b
    ensures AfterLast(a + [c] + b, c) == |a| + 1
  {
    var s := a + [c] + b;
    var n := AfterLast(s, c);
    assert s[|a|] == c;
  }

  /** `basename($path)`: the last component, trailing slashes ignored. */
  function BaseName(path: string): (r: string)
    ensures '/' !in r
  {
    var t := RTrimBy(path, IsSlash);
    t[AfterLast(t, '/')..]
  }

  /** `dirname($path)`: the path without its last component and the
      slashes before it; `.` when there is no slash, `/` when only the
      root is left, and `''` for `''`. */
  function DirName(path: string): string
  {
    if path == [] then ""
    else
      var t := RTrimBy(path, IsSlash);
      if t == [] then "/"
      else
        var n := AfterLast(t, '/');
        if n == 0 then "."
        else
          var u := RTrimBy(t[..n], IsSlash);
          if u == [] then "/" else u
  }

  /** `pathinfo($name, PATHINFO_EXTENSION)` for a name without slashes:
      what follows the last dot. */
  function ExtOf(name: string): (r: string)
    ensures '.' !in r && (forall k :: 0 <= k < |r| ==> r[k] in name)
  {
    if '.' in name then
      var n := AfterLast(name, '.');
      assert forall k :: 0 <= k < |name| - n ==> name[n..][k] == name[n + k];
      name[n..]
    else ""
  }

  /** `pathinfo($name, PATHINFO_FILENAME)`: what precedes the last dot. */
  function FileNameOf(name: string): string
  {
    if '.' in name then name[..AfterLast(name, '.') - 1] else name
  }

  predicate IsUrlCut(c: char)
  {
    c == '#' || c == '?' || c == '&' || c == ':'
  }

  /** `preg_replace('|^\w{1,6}://|', '', $s)`: a leading scheme removed. */
  function StripScheme(s: string): string
  {
    var n := Span(s, 0, IsWord);
    if 1 <= n <= 6 && OccursAt(s, "://", n) then s[n + 3..] else s
  }

  /** `preg_replace('/[#?&:].*' . '/', '', $s)`: on every line, the text
      from the first `#`, `?`, `&` or `:` on is removed. */
  function StripQuery(s: string): (r: string)
    ensures forall k :: 0 <= k < |r| ==> !IsUrlCut(r[k])
    decreases |s|
  {
    if s == [] then []
    else if IsUrlCut(s[0]) then StripQuery(s[|TakeLine(s)|..])
    else [s[0]] + StripQuery(s[1..])
  }

  /** `fileExt($file0, $reverse, $couldBeUrl)`: the extension of the file
      named by the path, or with `reverse` the path without the
      extension (a leading `./` left out). */
  function FileExt(file0: string, reverse: bool, couldBeUrl: bool): (r: string)
    ensures !reverse ==> '.' !in r && '/' !in r
    ensures !reverse && couldBeUrl ==> forall k :: 0 <= k < |r| ==> !IsUrlCut(r[k])
  {
    var cleaned := if couldBeUrl then StripQuery(StripScheme(file0)) else file0;
    var file := BaseName(cleaned);
    if reverse then
      var path := DirName(file0) + "/";
      (if path == "./" then "" else path) + FileNameOf(file)
    else
      BaseNameChars(cleaned);
      ExtOf(file)
  }

  lemma BaseNameChars(path: string)
    ensures forall k :: 0 <= k < |BaseName(path)| ==> BaseName(path)[k] in path
  {
    var t := RTrimBy(path, IsSlash);
    var n := AfterLast(t, '/');
    forall k | 0 <= k < |t| - n
      ensures t[n..][k] in path
    {
      assert t[n..][k] == path[n + k];
    }
  }

  /** A name splits at its last dot. */
  lemma NameSplit(name: string)
    requires '.' in name
    ensures FileNameOf(name) + "." + ExtOf(name) == name
  {
    var n := AfterLast(name, '.');
    assert name == name[..n - 1] + "." + name[n..];
  }

  lemma PlainName(name: string)
    requires '/' !in name && name != []
    ensures BaseName(name) == name && DirName(name) == "."
  {
    assert RTrimBy(name, IsSlash) == name;
  }

  /** What `fileExt` returns, given the base name and directory of the path. */
  lemma FileExtParts(f: string, base: string, dir: string)
    requires BaseName(f) == base && DirName(f) == dir
    ensures FileExt(f, false, false) == ExtOf(base)
    ensures FileExt(f, true, false) == (if dir + "/" == "./" then "" else dir + "/") + FileNameOf(base)
  {
  }

  /** A file name splits at its last dot into name and extension. */
  lemma NameAndExtension(name: string)
    requires '/' !in name && '.' in name
    ensures FileExt(name, true, false) + "." + FileExt(name, false, false) == name
  {
    PlainName(name);
    FileExtParts(name, name, ".");
    var x, y := FileExt(name, true, false), FileExt(name, false, false);
    assert x == "" + FileNameOf(name) == FileNameOf(name);
    assert y == ExtOf(name);
    NameSplit(name);
  }

  /** A path whose directory is not `.` and whose file name has a dot
      splits into the path without the extension and the extension. */
  lemma PathAndExtension(dir: string, name: string)
    requires dir != [] && dir != "." && dir[|dir| - 1] != '/'
    requires '/' !in name && '.' in name
    ensures var f := dir + "/" + name;
      FileExt(f, true, false) + "." + FileExt(f, false, false) == f
  {
    var f := dir + "/" + name;
    var p := dir + "/";
    JoinParts(dir, name);
    assert p != "./";
    FileExtParts(f, name, dir);
    var x, y := FileExt(f, true, false), FileExt(f, false, false);
    var base := FileNameOf(name);
    assert x == p + base;
    NameSplit(name);
    calc {
      x + "." + y;
      (p + base) + "." + ExtOf(name);
      { Assoc3(p, base, ".", ExtOf(name)); }
      p + (base + "." + ExtOf(name));
      p + name;
    }
  }

  lemma Assoc3(a: string, b: string, c: string, d: string)
    ensures (a + b) + c + d == a + (b + c + d)
  {
  }

  lemma JoinParts(dir: string, name: string)
    requires dir != [] && dir[|dir| - 1] != '/'
    requires '/' !in name && name != []
    ensures DirName(dir + "/" + name) == dir
    ensures BaseName(dir + "/" + name) == name
  {
    var f := dir + "/" + name;
    assert f[|f| - 1] == name[|name| - 1];
    assert RTrimBy(f, IsSlash) == f;
    AfterLastJoin(dir, '/', name);
    assert f[..|dir| + 1] == dir + "/";
    assert f[|dir| + 1..] == name;
    assert RTrimBy(dir + "/", IsSlash) == dir by {
      assert (dir + "/")[..|dir|] == dir;
    }
  }

  /** The length of the `../` run at the head of a path. */
  function UpPrefix(p: string): (n: nat)
    ensures n <= |p|
    decreases |p|
  {
    if StartsWith(p, "../") then 3 + UpPrefix(p[3..]) else 0
  }

  /** `[^/.]`: a character of a component name. */
  predicate NameChar(c: char) { c != '/' && c != '.' }

  /** A `name/../` segment starts at `k`. */
  predicate UpAt(p: string, k: int)
  {
    0 <= k < |p| && NameChar(p[k]) && OccursAt(p, "/../", k + Span(p, k, NameChar))
  }

  /** The first `name/../` segment at or after `from`. */
  function FirstUp(p: string, from: nat): (r: Option<nat>)
    requires from <= |p|
    ensures r.Some? ==> from <= r.value && UpAt(p, r.value)
    ensures r.None? ==> forall k :: from <= k ==> !UpAt(p, k)
    decreases |p| - from
  {
    if from == |p| then None
    else if UpAt(p, from) then Some(from)
    else FirstUp(p, from + 1)
  }

  /** The path with the segment at `k` and its `/../` removed. */
  function CutUp(p: string, k: nat): (r: string)
    requires UpAt(p, k)
    ensures |r| < |p|
  {
    p[..k] + p[k + Span(p, k, NameChar) + 4..]
  }

  /** The loop of `normalizePath`: segments `name/../` are removed, the
      leftmost first, until none is left. */
  function Collapse(p: string): (r: string)
    ensures forall k :: !UpAt(r, k)
    decreases |p|
  {
    if Truthy(p) && FirstUp(p, 0).Some? then Collapse(CutUp(p, FirstUp(p, 0).value))
    else
      assert !UpAt(p, 0);
      p
  }

  /** `preg_replace('|(?<!:)//|', '/', $s)` from `i` on: a double slash
      not preceded by a colon becomes one slash. */
  function SingleSlashes(s: string, i: nat): string
    requires i <= |s|
    decreases |s| - i
  {
    if i == |s| then []
    else if OccursAt(s, "//", i) && (i == 0 || s[i - 1] != ':') then "/" + SingleSlashes(s, i + 2)
    else [s[i]] + SingleSlashes(s, i + 1)
  }

  /** What `normalizePath` returns. */
  function Normalized(p: string): string
  {
    var n := UpPrefix(p);
    p[..n] + SingleSlashes(ReplaceAll(Collapse(p[n..]), "/./", "/"), 0)
  }

  /** `normalizePath($path)`: the leading `../` run is kept aside, every
      `name/../` removed, `/./` made `/`, and `//` made `/` except after a
      colon. */
  method NormalizePath(path0: string) returns (r: string)
    requires '\n' !in path0
    ensures r == Normalized(path0)
  {
    var n := UpPrefix(path0);
    var hdr := path0[..n];
    var path := path0[n..];
    while Truthy(path) && FirstUp(path, 0).Some?
      invariant Collapse(path) == Collapse(path0[n..])
      decreases |path|
    {
      path := CutUp(path, FirstUp(path, 0).value);
    }
    path := ReplaceAll(path, "/./", "/");
    path := SingleSlashes(path, 0);
    r := hdr + path;
  }

  lemma {:induction false} SingleSlashesAbsent(s: string, i: nat)
    requires i <= |s|
    requires forall j :: !OccursAt(s, "//", j)
    ensures SingleSlashes(s, i) == s[i..]
    decreases |s| - i
  {
    if i < |s| {
      SingleSlashesAbsent(s, i + 1);
      assert s[i..] == [s[i]] + s[i + 1..];
    }
  }

  /** A path with nothing to normalise is returned unchanged. */
  lemma NormalPathUnchanged(p: string)
    requires !StartsWith(p, "../")
    requires forall k :: !UpAt(p, k)
    requires forall j :: !OccursAt(p, "/./", j)
    requires forall j :: !OccursAt(p, "//", j)
    ensures Normalized(p) == p
  {
    assert p[0..] == p;
    assert Collapse(p) == p;
    ReplaceAbsent(p, "/./", "/");
    SingleSlashesAbsent(p, 0);
  }
}
