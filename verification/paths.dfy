/**
  The POSIX path helpers the organizer leans on (`os.path.basename`,
  `os.path.dirname`, `os.path.join` with one component, and the root part
  of `os.path.splitext` applied to a base name), with the same edge cases.
 */
module Paths {
  import opened Base
  import opened Text

  /** `s.rfind(c)`, as an option. */
  function LastIndexOf(s: string, c: char): (r: Option<nat>)
    ensures r.Some? ==> r.value < |s| && s[r.value] == c && c !in s[r.value + 1..]
    ensures r.None? <==> c !in s
  {
    if |s| == 0 then None
    else if s[|s| - 1] == c then Some(|s| - 1)
    else
      var r := LastIndexOf(s[..|s| - 1], c);
      assert s == s[..|s| - 1] + [s[|s| - 1]];
      r
  }

  predicate AllSlashes(s: string) {
    forall i :: 0 <= i < |s| ==> s[i] == '/'
  }

  /** `s.rstrip('/')`. */
  function RStripSlashes(s: string): (r: string)
    ensures |r| <= |s| && r == s[..|r|]
    ensures |r| > 0 ==> r[|r| - 1] != '/'
    ensures forall i :: |r| <= i < |s| ==> s[i] == '/'
  {
    if |s| > 0 && s[|s| - 1] == '/' then RStripSlashes(s[..|s| - 1]) else s
  }

  /** `os.path.basename(p)`: everything after the last slash. */
  function Basename(p: string): (r: string)
    ensures '/' !in r
    ensures |r| <= |p| && r == p[|p| - |r|..]
  {
    match LastIndexOf(p, '/')
    case None => p
    case Some(i) => p[i + 1..]
  }

  /**
    `os.path.dirname(p)`: everything up to the last slash, with the trailing
    slashes removed unless the head consists of slashes only.
   */
  function Dirname(p: string): (r: string)
    ensures |r| <= |p| && r == p[..|r|]
  {
    match LastIndexOf(p, '/')
    case None => ""
    case Some(i) =>
      var head := p[..i + 1];
      if AllSlashes(head) then head else RStripSlashes(head)
  }

  /** `os.path.join(a, b)` for a single component `b`. */
  function PathJoin(a: string, b: string): (r: string)
    ensures EndsWith(r, b)
  {
    if |b| > 0 && b[0] == '/' then b
    else if a == "" || a[|a| - 1] == '/' then a + b
    else a + "/" + b
  }

  predicate AllDots(s: string) {
    forall i :: 0 <= i < |s| ==> s[i] == '.'
  }

  /**
    `os.path.splitext(name)[0]` for a name without slashes: the name up to
    its last dot, unless everything before that dot is dots (".bashrc",
    "..pdf") in which case there is no extension.
   */
  function Stem(name: string): (r: string)
    ensures |r| <= |name| && r == name[..|r|]
    ensures r != name ==> name[|r|] == '.' && '.' !in name[|r| + 1..] && !AllDots(r)
    ensures r == name ==> '.' !in name || AllDots(name[..LastIndexOf(name, '.').value])
  {
    match LastIndexOf(name, '.')
    case None => name
    case Some(d) => if AllDots(name[..d]) then name else name[..d]
  }

  /** The base name of a path whose last component follows a slash. */
  lemma BasenameAfterSlash(a: string, b: string)
    requires '/' !in b
    ensures Basename(a + "/" + b) == b
  {
    var p := a + "/" + b;
    assert p[|a|] == '/';
    assert p[|a| + 1..] == b;
  }

  /** The directory name of `a/b` is `a` when `a` does not end in a slash. */
  lemma DirnameAfterSlash(a: string, b: string)
    requires '/' !in b
    requires a != "" && a[|a| - 1] != '/'
    ensures Dirname(a + "/" + b) == a
  {
    var p := a + "/" + b;
    BasenameAfterSlash(a, b);
    var i := LastIndexOf(p, '/').value;
    assert |p[i + 1..]| == |b|;
    assert i == |a|;
    var head := p[..i + 1];
    assert head == a + "/";
    assert !AllSlashes(head) by { assert head[|a| - 1] != '/'; }
    var r := RStripSlashes(head);
    assert RStripSlashes(a) == a;
    assert head[..|head| - 1] == a;
  }

  /** Joining a non-empty, slash-free name onto any directory keeps it as the base name. */
  lemma JoinedBasename(dir: string, name: string)
    requires name != "" && '/' !in name
    ensures Basename(PathJoin(dir, name)) == name
    ensures PathJoin(dir, name) != "" && PathJoin(dir, name)[|PathJoin(dir, name)| - 1] != '/'
  {
    var j := PathJoin(dir, name);
    assert name[0] in name;
    if dir == "" {
      assert j == name;
      assert Basename(name) == name;
    } else if dir[|dir| - 1] == '/' {
      assert j == dir[..|dir| - 1] + "/" + name;
      BasenameAfterSlash(dir[..|dir| - 1], name);
    } else {
      BasenameAfterSlash(dir, name);
    }
    assert j[|j| - 1] == name[|name| - 1];
    assert name[|name| - 1] in name;
  }

  /**
    `join(join(root, dir), name)` for one-level `dir` and `name`: the last
    two components are `dir` and `name`, and what is above them is `root`
    itself when `root` is non-empty and does not end in a slash.
   */
  lemma NestedJoin(root: string, dir: string, name: string)
    requires dir != "" && '/' !in dir
    requires name != "" && '/' !in name
    ensures Basename(PathJoin(PathJoin(root, dir), name)) == name
    ensures Basename(Dirname(PathJoin(PathJoin(root, dir), name))) == dir
    ensures root != "" && root[|root| - 1] != '/' ==> Dirname(Dirname(PathJoin(PathJoin(root, dir), name))) == root
  {
    var d := PathJoin(root, dir);
    JoinedBasename(root, dir);
    assert name[0] in name;
    assert PathJoin(d, name) == d + "/" + name;
    BasenameAfterSlash(d, name);
    DirnameAfterSlash(d, name);
    if root != "" && root[|root| - 1] != '/' {
      assert dir[0] in dir;
      assert d == root + "/" + dir;
      DirnameAfterSlash(root, dir);
    }
  }
}
