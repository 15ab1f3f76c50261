/** The two `std::path` operations the backend applies to '/'-separated
    paths: `Path::parent` and `Path::join`. */
module Paths {
  import opened Wrappers
  import opened Strings

  /** The index of the last '/' in `p`, if any. */
  function LastSlash(p: string): (r: Option<nat>)
    ensures r.Some? ==> r.value < |p| && p[r.value] == '/' && '/' !in p[r.value + 1..]
    ensures r.None? <==> '/' !in p
  {
    if |p| == 0 then None
    else if p[|p| - 1] == '/' then Some(|p| - 1)
    else
      var r := LastSlash(p[..|p| - 1]);
      assert p == p[..|p| - 1] + [p[|p| - 1]];
      r
  }

  /** Position `i` of `p` holds its last '/'. */
  predicate LastSep(p: string, i: nat) {
    i < |p| && p[i] == '/' && '/' !in p[i + 1..]
  }

  /** The last '/' of a path is the one with no '/' after it. */
  lemma LastSlashAt(p: string, i: nat)
    requires LastSep(p, i)
    ensures LastSlash(p) == Some(i)
  {
    assert p[i] in p;
  }

  /** `Path::parent`, with `unwrap_or("")`: everything before the last '/',
      "/" for a file in the root, "" for a bare file name and for "/". */
  function Parent(p: string): (r: string)
    ensures '/' !in p ==> r == ""
    ensures forall i :: 0 < i && LastSep(p, i) ==> r == p[..i]
    ensures |p| > 0 && p[0] == '/' && '/' !in p[1..] ==> r == (if |p| == 1 then "" else "/")
    ensures '/' in p ==> StartsWith(p, r) && |r| < |p|
  {
    match LastSlash(p)
    case None => ""
    case Some(0) => if |p| == 1 then "" else "/"
    case Some(i) =>
      assert forall j :: 0 < j && LastSep(p, j) ==> j == i by {
        forall j | 0 < j && LastSep(p, j) ensures j == i {
          LastSlashAt(p, j);
        }
      }
      p[..i]
  }

  /** `Path::join`: an empty base or an absolute name gives the name; a
      base ending in '/' is extended directly; any other base gets one '/'
      before the name. */
  function JoinPath(dir: string, name: string): (r: string)
    ensures dir == [] || StartsWith(name, "/") ==> r == name
    ensures dir != [] && !StartsWith(name, "/") && EndsWith(dir, "/") ==> r == dir + name
    ensures dir != [] && !StartsWith(name, "/") && !EndsWith(dir, "/") ==> r == dir + "/" + name
    ensures EndsWith(r, name)
  {
    if dir == [] || StartsWith(name, "/") then name
    else if dir[|dir| - 1] == '/' then dir + name
    else dir + "/" + name
  }

  /** Joining a file name to a directory and taking the parent gives the
      directory back, for every directory written without a trailing '/'
      (the root included). */
  lemma ParentOfJoin(dir: string, name: string)
    requires name != [] && '/' !in name
    requires dir == "/" || !EndsWith(dir, "/")
    ensures Parent(JoinPath(dir, name)) == dir
  {
    assert !StartsWith(name, "/") by { assert name[0] in name; }
    if dir == [] {
      assert JoinPath(dir, name) == name;
    } else if dir == "/" {
      assert JoinPath(dir, name) == "/" + name;
      ParentOfRootFile(name);
    } else {
      assert dir[|dir| - 1] != '/' by { assert dir[|dir| - 1..] == [dir[|dir| - 1]]; }
      assert JoinPath(dir, name) == dir + "/" + name;
      ParentOfSubFile(dir, name);
    }
  }

  lemma ParentOfRootFile(name: string)
    requires name != [] && '/' !in name
    ensures Parent("/" + name) == "/"
  {
    var p := "/" + name;
    assert p[1..] == name;
  }

  lemma ParentOfSubFile(dir: string, name: string)
    requires dir != [] && dir[|dir| - 1] != '/'
    requires '/' !in name
    ensures Parent(dir + "/" + name) == dir
  {
    var p := dir + "/" + name;
    assert p[|dir| + 1..] == name;
    assert LastSep(p, |dir|);
    assert p[..|dir|] == dir;
  }

  /** Unlike `Path::parent`, which drops the `.` component and gives "a",
      the cut at the last '/' keeps it. */
  lemma ParentKeepsDot()
    ensures Parent("a/./b") == "a/."
  {
    var p := "a/./b";
    assert p[4..] == "b";
    assert LastSep(p, 3);
    assert p[..3] == "a/.";
  }

  /** A file name joined under a relative sub-directory of `h` gets
      exactly one '/' before it, and that directory is its parent. */
  lemma JoinUnder(h: string, sub: string, name: string)
    requires sub != [] && !StartsWith(sub, "/") && sub[|sub| - 1] != '/'
    requires name != [] && '/' !in name
    ensures var dir := JoinPath(h, sub);
      var p := JoinPath(dir, name);
      p == dir + "/" + name && Parent(p) == dir && EndsWith(p, "/" + name)
  {
    var dir := JoinPath(h, sub);
    JoinKeepsLast(h, sub);
    NoTrailingSep(dir);
    assert !StartsWith(name, "/") by { assert name[0] in name; }
    ParentOfSubFile(dir, name);
    SepNameSuffix(dir, name);
  }

  lemma NoTrailingSep(d: string)
    requires |d| > 0 && d[|d| - 1] != '/'
    ensures !EndsWith(d, "/")
  {
    assert d[|d| - 1..] == [d[|d| - 1]];
  }

  lemma SepNameSuffix(dir: string, name: string)
    ensures EndsWith(dir + "/" + name, "/" + name)
  {
    var p := dir + "/" + name;
    assert p[|p| - |name| - 1..] == "/" + name;
  }

  /** A join ends with the last character of the name joined. */
  lemma JoinKeepsLast(dir: string, name: string)
    requires name != []
    ensures var r := JoinPath(dir, name);
      |r| > 0 && r[|r| - 1] == name[|name| - 1]
  {
    var r := JoinPath(dir, name);
    assert r[|r| - |name|..] == name;
    assert r[|r| - |name|..][|name| - 1] == r[|r| - 1];
  }

  /** A cover href relative to its OPF document resolves inside the OPF's
      directory. */
  lemma OpfRelativeHref()
    ensures JoinPath(Parent("OEBPS" + "/" + "content.opf"), "images/c.jpg") == "OEBPS/" + "images/c.jpg"
  {
    OpfParent();
    var dir, href := "OEBPS", "images/c.jpg";
    assert !EndsWith(dir, "/") by { assert dir[|dir| - 1..] == "S"; }
    assert !StartsWith(href, "/") by { assert href[..1] == "i"; }
    assert dir + "/" == "OEBPS/";
  }

  lemma OpfParent()
    ensures Parent("OEBPS" + "/" + "content.opf") == "OEBPS"
  {
    var opf := "content.opf";
    assert '/' !in opf by {
      assert forall k :: 0 <= k < |opf| ==> opf[k] != '/';
    }
    ParentOfSubFile("OEBPS", opf);
  }
}
