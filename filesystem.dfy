/**
 An abstract model of the parts of the filesystem and of `os.path` that the
 launcher consults. Paths are absolute and given by their components: the
 root directory `/` is `[]`, `/proj/tasks.py` is `["proj", "tasks.py"]`.
 Path-string normalisation itself is not modelled.
 */
module Filesystem {

  type Path = seq<string>

  /** A normalised absolute path, as `os.path.abspath` produces: no component is empty. */
  predicate ValidPath(p: Path)
  {
    forall i :: 0 <= i < |p| ==> p[i] != ""
  }

  /**
   The filesystem as the launcher sees it.
   - `existing`: the paths for which `os.path.exists` holds;
   - `dirs`: the paths for which `os.path.isdir` holds;
   - `cwd`: the working directory;
   - `locate`: the absolute path that `os.path.abspath(os.path.expanduser(name))`
     denotes for a name that carries a directory part, when the working directory
     is the given one (a relative name such as `../other.py` is resolved against it).
   */
  datatype FileSystem = FileSystem(
    existing: set<Path>,
    dirs: set<Path>,
    cwd: Path,
    locate: (Path, string) -> Path)

  /** `s.endswith('.py')`. */
  predicate EndsWithPy(s: string)
  {
    |s| >= 3 && s[|s| - 3..] == ".py"
  }

  /** `_is_package`: a directory that holds an `__init__.py`. */
  predicate IsPackage(fs: FileSystem, p: Path)
  {
    p in fs.dirs && p + ["__init__.py"] in fs.existing
  }

  /**
   `os.path.abspath` of the relative path `../../.` with `depth` leading `..`
   joins, evaluated in `cwd`: each `..` drops one component, and `..` of the
   root is the root.
   */
  function Ancestor(cwd: Path, depth: nat): (p: Path)
    ensures p <= cwd
    ensures |p| == if depth <= |cwd| then |cwd| - depth else 0
  {
    if depth <= |cwd| then cwd[..|cwd| - depth] else []
  }

  /** `os.path.split(p)[1]` for an absolute path: its last component, empty at the root. */
  function Tail(p: Path): (t: string)
    ensures ValidPath(p) ==> (t == "" <==> p == [])
  {
    if p == [] then "" else p[|p| - 1]
  }

  /** The string form of a non-root absolute path: `/a/b`. */
  function PathString(p: Path): (s: string)
    ensures p != [] ==> |s| > 0 && s[0] == '/'
  {
    if p == [] then "" else PathString(p[..|p| - 1]) + "/" + p[|p| - 1]
  }

  /** The string form of an absolute path, `/` for the root. */
  function Render(p: Path): (s: string)
    ensures |s| > 0 && s[0] == '/'
  {
    if p == [] then "/" else PathString(p)
  }

  /**
   `os.path.split` of an absolute path: the containing directory and the last
   component. Joining the two again with `/` (no extra separator after the root)
   gives back the path's string form.
   */
  function Split(p: Path): (r: (string, string))
    ensures r.1 == Tail(p)
    ensures |r.0| > 0 && r.0[0] == '/'
    ensures |p| <= 1 ==> r.0 == "/"
    ensures p != [] ==> Render(p) == (if |p| == 1 then "" else r.0) + "/" + r.1
  {
    if p == [] then ("/", "")
    else
      assert Render(p) == PathString(p[..|p| - 1]) + "/" + p[|p| - 1];
      (Render(p[..|p| - 1]), p[|p| - 1])
  }

  /** The position just past the last `/` of `s`, or 0 when there is none (`s.rfind('/') + 1`). */
  function AfterLastSlash(s: string): (k: nat)
    ensures k <= |s|
    ensures k > 0 ==> s[k - 1] == '/'
    ensures forall j :: k <= j < |s| ==> s[j] != '/'
  {
    if s == [] then 0
    else if s[|s| - 1] == '/' then |s|
    else AfterLastSlash(s[..|s| - 1])
  }

  /** `s.rstrip('/')`. */
  function TrimSlashes(s: string): (t: string)
    ensures t <= s
    ensures t == [] || t[|t| - 1] != '/'
    ensures forall j :: |t| <= j < |s| ==> s[j] == '/'
  {
    if s != [] && s[|s| - 1] == '/' then TrimSlashes(s[..|s| - 1]) else s
  }

  /**
   `os.path.dirname(name)`: everything up to the last `/`, with the trailing
   slashes dropped unless nothing else is left. It is empty exactly when the
   name holds no `/`.
   */
  function DirName(name: string): (d: string)
    ensures d <= name
    ensures d == "" <==> '/' !in name
  {
    var k := AfterLastSlash(name);
    var head := name[..k];
    var trimmed := TrimSlashes(head);
    assert '/' in name ==> k > 0 by {
      if '/' in name {
        var j :| 0 <= j < |name| && name[j] == '/';
      }
    }
    assert k > 0 ==> name[k - 1] in name;
    if trimmed == "" then head else trimmed
  }
}
