/**
 Loading the locustfile (`load_locustfile`): the directory of the file is put
 at the front of `sys.path` for the import, so that a module of the same name
 further down the path cannot shadow it, and the list is put back afterwards.
 */
module SearchPath {

  import opened Wrappers
  import opened Filesystem
  import opened Discovery

  /** `s.insert(i, x)` for `i >= 0`: an index past the end appends. */
  function ListInsert(s: seq<string>, i: nat, x: string): (r: seq<string>)
    ensures |r| == |s| + 1
    ensures var k := if i <= |s| then i else |s|;
      && r[k] == x
      && (forall j :: 0 <= j < k ==> r[j] == s[j])
      && (forall j :: k < j < |r| ==> r[j] == s[j - 1])
  {
    if i <= |s| then s[..i] + [x] + s[i..] else s + [x]
  }

  /** `del s[i]`. */
  function ListDelete(s: seq<string>, i: nat): (r: seq<string>)
    requires i < |s|
    ensures |r| == |s| - 1
    ensures forall j :: 0 <= j < i ==> r[j] == s[j]
    ensures forall j :: i <= j < |r| ==> r[j] == s[j + 1]
  {
    s[..i] + s[i + 1..]
  }

  /** `s.index(x)`: the position of the first occurrence. */
  function FirstIndex(s: seq<string>, x: string): (i: nat)
    requires x in s
    ensures i < |s| && s[i] == x && x !in s[..i]
  {
    if s[0] == x then 0
    else
      var k := FirstIndex(s[1..], x);
      assert s[..k + 1] == [s[0]] + s[1..][..k];
      k + 1
  }

  /** `sys.path`: the module search list, updated in place. */
  class ModuleSearchPath {

    var entries: seq<string>

    constructor (initial: seq<string>)
      ensures entries == initial
    {
      entries := initial;
    }

    /** `sys.path.insert(i, x)`. */
    method Insert(i: nat, x: string)
      modifies this
      ensures entries == ListInsert(old(entries), i, x)
    {
      entries := ListInsert(entries, i, x);
    }

    /** `del sys.path[i]`. */
    method Delete(i: nat)
      requires i < |entries|
      modifies this
      ensures entries == ListDelete(old(entries), i)
    {
      entries := ListDelete(entries, i);
    }
  }

  /** The flags `load_locustfile` keeps for the way back: `added_to_path` and `index`. */
  datatype Saved = Saved(added: bool, index: Option<nat>)

  /** The flags saved for the search list `path` and the locustfile's directory `dir`. */
  function SavedFlags(path: seq<string>, dir: string): (s: Saved)
    ensures s.added <==> dir !in path
    ensures s.added ==> s.index.None?
    ensures s.index.Some? ==> 0 < s.index.value < |path| && path[s.index.value] == dir && dir !in path[..s.index.value]
    ensures !s.added && s.index.None? ==> path[0] == dir
  {
    if dir !in path then Saved(true, None)
    else
      var i := FirstIndex(path, dir);
      Saved(false, if i != 0 then Some(i) else None)
  }

  /** The search list while the import runs, reached by the source's inserts and deletes. */
  function DuringImport(path: seq<string>, dir: string): (during: seq<string>)
    ensures |during| > 0 && during[0] == dir
    ensures dir !in path ==> during == [dir] + path
    ensures dir in path && path[0] == dir ==> during == path
    ensures dir in path && path[0] != dir ==>
      var i := FirstIndex(path, dir); during == [dir] + path[..i] + path[i + 1..]
  {
    var s := SavedFlags(path, dir);
    if s.added then ListInsert(path, 0, dir)
    else if s.index.Some? then ListDelete(ListInsert(path, 0, dir), s.index.value + 1)
    else path
  }

  /** The way back after the import: undo the insertion, or put the moved entry back at its index. */
  function Unwind(during: seq<string>, dir: string, s: Saved): seq<string>
    requires s.added ==> |during| > 0
  {
    var afterAdd := if s.added then ListDelete(during, 0) else during;
    if s.index.Some? then ListDelete(ListInsert(afterAdd, s.index.value + 1, dir), 0) else afterAdd
  }

  /** Unwinding the during-import list with the saved flags gives back exactly the list the load started from. */
  lemma UnwindRestores(path: seq<string>, dir: string)
    ensures Unwind(DuringImport(path, dir), dir, SavedFlags(path, dir)) == path
  {
    var s := SavedFlags(path, dir);
    var during := DuringImport(path, dir);
    if s.index.Some? {
      var i := s.index.value;
      var back := ListInsert(during, i + 1, dir);
      assert back == [dir] + path[..i] + [dir] + path[i + 1..];
      assert path == path[..i] + [dir] + path[i + 1..];
    }
  }

  /** A loaded module: its docstring and its attributes (`vars(imported)`). */
  datatype Module = Module(doc: Option<string>, attrs: map<string, Decl>)

  /** The outcome of `__import__`, which may raise. */
  datatype ImportResult = Imported(loaded: Module) | ImportError(message: string)

  /** What `load_locustfile` returns, or the error it lets through. */
  datatype LoadResult = Loaded(doc: Option<string>, locusts: map<string, Decl>) | LoadFailed(message: string)

  /** `os.path.splitext(name)[0]` for a name without a separator: the part before the last dot, unless only dots precede it. */
  function ModuleName(name: string): (m: string)
    ensures m <= name
    ensures '.' !in name ==> m == name
    ensures EndsWithPy(name) && !AllDots(name[..|name| - 3]) ==> m == name[..|name| - 3]
    ensures m == name || (name[|m|] == '.' && forall j :: |m| < j < |name| ==> name[j] != '.')
    ensures m != name <==> exists i, j :: 0 <= j < i < |name| && name[j] != '.' && name[i] == '.'
  {
    var k := LastDot(name);
    assert (exists i, j :: 0 <= j < i < |name| && name[j] != '.' && name[i] == '.') ==> k >= 0 && !AllDots(name[..k]) by {
      if exists i, j :: 0 <= j < i < |name| && name[j] != '.' && name[i] == '.' {
        var i, j :| 0 <= j < i < |name| && name[j] != '.' && name[i] == '.';
        assert i <= k;
        assert name[..k][j] != '.';
      }
    }
    assert k >= 0 && !AllDots(name[..k]) ==> exists i, j :: 0 <= j < i < |name| && name[j] != '.' && name[i] == '.' by {
      if k >= 0 && !AllDots(name[..k]) {
        var j :| 0 <= j < k && name[..k][j] != '.';
        assert name[j] != '.' && name[k] == '.';
      }
    }
    assert EndsWithPy(name) ==> k == |name| - 3 by {
      if EndsWithPy(name) {
        var ext := name[|name| - 3..];
        assert ext[0] == '.' && ext[1] == 'p' && ext[2] == 'y';
        assert name[|name| - 3] == '.' && name[|name| - 2] == 'p' && name[|name| - 1] == 'y';
      }
    }
    if k < 0 || AllDots(name[..k]) then name else name[..k]
  }

  /**
   A package directory whose name holds a dot is imported under the part before
   the last dot: `tasks.v2` is imported as `tasks`.
   */
  lemma DottedPackageName()
    ensures ModuleName("tasks.v2") == "tasks"
  {
    var name := "tasks.v2";
    assert name[5] == '.' && name[6] == 'v' && name[7] == '2';
    assert LastDot(name[..7]) == 5 by {
      assert name[..7][..6] == name[..6];
    }
    assert LastDot(name) == 5;
    assert name[..5] == "tasks";
    assert !AllDots(name[..5]) by {
      assert name[..5][0] == 't';
    }
  }

  predicate AllDots(s: string)
  {
    forall i :: 0 <= i < |s| ==> s[i] == '.'
  }

  /** The position of the last `.` in `s`, or -1. */
  function LastDot(s: string): (k: int)
    ensures -1 <= k < |s|
    ensures k >= 0 ==> s[k] == '.'
    ensures forall j :: k < j < |s| ==> s[j] != '.'
  {
    if s == [] then -1
    else if s[|s| - 1] == '.' then |s| - 1
    else LastDot(s[..|s| - 1])
  }

  /**
   What loading the file at `file` returns when the search list is `path` on entry:
   the module is imported with the list as it stands during the import, and the
   catalog is the filter of its attributes.
   */
  function LoadOutcome(path: seq<string>, file: Path, importer: (seq<string>, string) -> ImportResult): (r: LoadResult)
    ensures var res := importer(DuringImport(path, Split(file).0), ModuleName(Split(file).1));
      && (r.LoadFailed? <==> res.ImportError?)
      && (r.LoadFailed? ==> r.message == res.message)
      && (r.Loaded? ==> r.doc == res.loaded.doc
                        && forall n :: n in r.locusts <==> n in res.loaded.attrs && IsLocust(n, res.loaded.attrs[n]))
      && (r.Loaded? ==> forall n :: n in r.locusts ==> r.locusts[n] == res.loaded.attrs[n])
  {
    var (dir, name) := Split(file);
    match importer(DuringImport(path, dir), ModuleName(name))
    case ImportError(message) => LoadFailed(message)
    case Imported(m) => Loaded(m.doc, Catalog(m.attrs))
  }

  /**
   `load_locustfile(path)`. The import is the abstract `importer`, which sees the
   search list as it is at the moment of the call and leaves it alone. There is no
   `finally`: when the import raises, the list stays as it was during the import.
   */
  method LoadLocustfile(syspath: ModuleSearchPath, file: Path, importer: (seq<string>, string) -> ImportResult)
    returns (r: LoadResult)
    modifies syspath
    ensures r == LoadOutcome(old(syspath.entries), file, importer)
    ensures r.Loaded? ==> syspath.entries == old(syspath.entries)
    ensures r.LoadFailed? ==> syspath.entries == DuringImport(old(syspath.entries), Split(file).0)
  {
    var (directory, locustfile) := Split(file);
    ghost var saved := SavedFlags(syspath.entries, directory);
    var addedToPath := false;
    var index: Option<nat> := None;
    if directory !in syspath.entries {
      syspath.Insert(0, directory);
      addedToPath := true;
    } else {
      var i := FirstIndex(syspath.entries, directory);
      if i != 0 {
        index := Some(i);
        syspath.Insert(0, directory);
        syspath.Delete(i + 1);
      }
    }
    assert Saved(addedToPath, index) == saved;
    assert syspath.entries == DuringImport(old(syspath.entries), directory);
    var imported := importer(syspath.entries, ModuleName(locustfile));
    if imported.ImportError? {
      return LoadFailed(imported.message);
    }
    if addedToPath {
      syspath.Delete(0);
    }
    if index.Some? {
      syspath.Insert(index.value + 1, directory);
      syspath.Delete(0);
    }
    UnwindRestores(old(syspath.entries), directory);
    r := Loaded(imported.loaded.doc, Catalog(imported.loaded.attrs));
  }
}
