/**
 Locating the locustfile (`find_locustfile`): a name with a directory part is
 tested where it points; a bare name is searched for in the working directory
 and then in each ancestor, nearest first, never in the root itself.
 */
module LocustfileSearch {

  import opened Wrappers
  import opened Filesystem

  /** The names tried, in order: the name itself, then the name with `.py` appended unless it already ends so. */
  function Candidates(name: string): (names: seq<string>)
    ensures 1 <= |names| <= 2 && names[0] == name
    ensures |names| == 1 <==> EndsWithPy(name)
    ensures forall i :: 0 <= i < |names| ==> names[i] == name || names[i] == name + ".py"
    ensures EndsWithPy(names[|names| - 1])
  {
    if EndsWithPy(name) then [name] else [name, name + ".py"]
  }

  /** The name carries path elements: `os.path.dirname(name)` is non-empty. */
  predicate HasDirPart(name: string)
  {
    DirName(name) != ""
  }

  /** Where a candidate with a directory part is tested: `abspath(expanduser(name))` in the working directory. */
  function Located(fs: FileSystem): string -> Path
  {
    n => fs.locate(fs.cwd, n)
  }

  /** A candidate found at `p` is taken when `p` exists and the candidate is a `.py` name or `p` is a package. */
  predicate Accepted(fs: FileSystem, candidate: string, p: Path)
  {
    p in fs.existing && (EndsWithPy(candidate) || IsPackage(fs, p))
  }

  /** The location of the first accepted candidate, each candidate `n` being looked for at `at(n)`. */
  function FirstAccepted(fs: FileSystem, names: seq<string>, at: string -> Path): Option<Path>
    decreases |names|
  {
    if names == [] then None
    else if Accepted(fs, names[0], at(names[0])) then Some(at(names[0]))
    else FirstAccepted(fs, names[1..], at)
  }

  /** The candidates are tried in order: the result is the first accepted one, and `None` when there is none. */
  lemma {:induction false} FirstAcceptedIsFirst(fs: FileSystem, names: seq<string>, at: string -> Path)
    ensures var r := FirstAccepted(fs, names, at);
      && (r.None? <==> forall i :: 0 <= i < |names| ==> !Accepted(fs, names[i], at(names[i])))
      && (r.Some? ==> exists i :: 0 <= i < |names| && r.value == at(names[i]) && Accepted(fs, names[i], at(names[i]))
                                  && forall j :: 0 <= j < i ==> !Accepted(fs, names[j], at(names[j])))
    decreases |names|
  {
    if names != [] && !Accepted(fs, names[0], at(names[0])) {
      FirstAcceptedIsFirst(fs, names[1..], at);
      assert forall i :: 1 <= i < |names| ==> names[i] == names[1..][i - 1];
      if FirstAccepted(fs, names, at).Some? {
        var k :| 0 <= k < |names[1..]| && FirstAccepted(fs, names, at).value == at(names[1..][k])
                 && Accepted(fs, names[1..][k], at(names[1..][k]))
                 && forall j :: 0 <= j < k ==> !Accepted(fs, names[1..][j], at(names[1..][j]));
        assert names[k + 1] == names[1..][k];
      }
    }
  }

  /** Where a bare candidate lies in directory `dir`: `os.path.join(dir, name)`. */
  function InDir(dir: Path): string -> Path
  {
    n => dir + [n]
  }

  /** The candidate tried in the ancestor `depth` levels above the working directory. */
  function Probe(fs: FileSystem, names: seq<string>, depth: nat): Option<Path>
  {
    FirstAccepted(fs, names, InDir(Ancestor(fs.cwd, depth)))
  }

  /**
   The upward search from the ancestor `depth` levels up, stopping when the absolute
   path's last component is empty. A hit lies directly in the working directory or
   in one of its ancestors.
   */
  function SearchUpward(fs: FileSystem, names: seq<string>, depth: nat): (r: Option<Path>)
    ensures r.Some? ==> |r.value| > 0 && r.value[..|r.value| - 1] <= fs.cwd && r.value[|r.value| - 1] in names
    decreases |fs.cwd| - depth
  {
    if Tail(Ancestor(fs.cwd, depth)) == "" then None
    else if Probe(fs, names, depth).Some? then
      FirstAcceptedIsFirst(fs, names, InDir(Ancestor(fs.cwd, depth)));
      Probe(fs, names, depth)
    else SearchUpward(fs, names, depth + 1)
  }

  /**
   What `find_locustfile(name)` returns. With a directory part, the result is the
   located path of the first accepted candidate, or `None` when none is accepted.
   */
  function Resolve(fs: FileSystem, name: string): (r: Option<Path>)
    ensures HasDirPart(name) ==>
      (r.None? <==> forall i :: 0 <= i < |Candidates(name)| ==> !Accepted(fs, Candidates(name)[i], fs.locate(fs.cwd, Candidates(name)[i])))
    ensures HasDirPart(name) && r.Some? ==>
      exists i :: 0 <= i < |Candidates(name)| && r.value == fs.locate(fs.cwd, Candidates(name)[i])
               && Accepted(fs, Candidates(name)[i], r.value)
               && forall j :: 0 <= j < i ==> !Accepted(fs, Candidates(name)[j], fs.locate(fs.cwd, Candidates(name)[j]))
  {
    var names := Candidates(name);
    FirstAcceptedIsFirst(fs, names, Located(fs));
    if HasDirPart(name) then FirstAccepted(fs, names, Located(fs))
    else SearchUpward(fs, names, 0)
  }

  /**
   `find_locustfile`. The loop variable `depth` stands for the relative path
   `path`, which starts as `.` and has `..` joined in front of it once per level.
   */
  method FindLocustfile(fs: FileSystem, locustfile: string) returns (r: Option<Path>)
    ensures r == Resolve(fs, locustfile)
  {
    var names := [locustfile];
    if !EndsWithPy(names[0]) {
      names := names + [names[0] + ".py"];
    }
    assert names == Candidates(locustfile);
    if HasDirPart(names[0]) {
      for i := 0 to |names|
        invariant FirstAccepted(fs, names, Located(fs)) == FirstAccepted(fs, names[i..], Located(fs))
      {
        var expanded := fs.locate(fs.cwd, names[i]);
        assert expanded == Located(fs)(names[i]);
        if expanded in fs.existing {
          if EndsWithPy(names[i]) || IsPackage(fs, expanded) {
            return Some(expanded);
          }
        }
        assert names[i..][1..] == names[i + 1..];
      }
    } else {
      var depth := 0;
      while Tail(Ancestor(fs.cwd, depth)) != ""
        invariant SearchUpward(fs, names, 0) == SearchUpward(fs, names, depth)
        decreases |fs.cwd| - depth
      {
        ghost var at := InDir(Ancestor(fs.cwd, depth));
        for i := 0 to |names|
          invariant Probe(fs, names, depth) == FirstAccepted(fs, names[i..], at)
        {
          var joined := Ancestor(fs.cwd, depth) + [names[i]];
          assert joined == at(names[i]);
          if joined in fs.existing {
            if EndsWithPy(names[i]) || IsPackage(fs, joined) {
              return Some(joined);
            }
          }
          assert names[i..][1..] == names[i + 1..];
        }
        depth := depth + 1;
      }
    }
    return None;
  }

  /** A candidate accepted in the ancestor `depth` levels up. */
  predicate AcceptedAt(fs: FileSystem, names: seq<string>, depth: nat, i: nat)
  {
    i < |names| && Accepted(fs, names[i], Ancestor(fs.cwd, depth) + [names[i]])
  }

  /** The search order of the bare-name mode: nearer levels first, and within a level the candidates in order. */
  predicate Before(d1: nat, i1: nat, d2: nat, i2: nat)
  {
    d1 < d2 || (d1 == d2 && i1 < i2)
  }

  lemma {:induction false} ProbeSome(fs: FileSystem, names: seq<string>, depth: nat)
    requires Probe(fs, names, depth).Some?
    ensures exists i: nat :: AcceptedAt(fs, names, depth, i) && Probe(fs, names, depth).value == Ancestor(fs.cwd, depth) + [names[i]]
                        && forall j: nat :: j < i ==> !AcceptedAt(fs, names, depth, j)
  {
    var at := InDir(Ancestor(fs.cwd, depth));
    FirstAcceptedIsFirst(fs, names, at);
    var i :| 0 <= i < |names| && Probe(fs, names, depth).value == at(names[i]) && Accepted(fs, names[i], at(names[i]))
             && forall j :: 0 <= j < i ==> !Accepted(fs, names[j], at(names[j]));
    assert AcceptedAt(fs, names, depth, i);
  }

  lemma {:induction false} ProbeNone(fs: FileSystem, names: seq<string>, depth: nat)
    ensures Probe(fs, names, depth).None? <==> forall i :: 0 <= i < |names| ==> !AcceptedAt(fs, names, depth, i)
  {
    var at := InDir(Ancestor(fs.cwd, depth));
    FirstAcceptedIsFirst(fs, names, at);
    forall i | 0 <= i < |names|
      ensures AcceptedAt(fs, names, depth, i) <==> Accepted(fs, names[i], at(names[i]))
    {
      assert at(names[i]) == Ancestor(fs.cwd, depth) + [names[i]];
    }
  }

  /** The upward search from `depth` finds nothing exactly when no level from `depth` up to the root's child gives a hit. */
  lemma {:induction false} SearchUpwardNone(fs: FileSystem, names: seq<string>, depth: nat)
    requires ValidPath(fs.cwd) && depth <= |fs.cwd|
    ensures SearchUpward(fs, names, depth).None? <==> forall d :: depth <= d < |fs.cwd| ==> Probe(fs, names, d).None?
    decreases |fs.cwd| - depth
  {
    if depth < |fs.cwd| {
      var last := |fs.cwd| - depth - 1;
      assert Tail(Ancestor(fs.cwd, depth)) == fs.cwd[last] != "";
      SearchUpwardNone(fs, names, depth + 1);
      if Probe(fs, names, depth).None? {
        assert SearchUpward(fs, names, depth) == SearchUpward(fs, names, depth + 1);
      }
    } else {
      assert Tail(Ancestor(fs.cwd, depth)) == "";
    }
  }

  /** A hit of the upward search from `depth` is the hit of the first level at or above `depth` that gives one. */
  lemma {:induction false} SearchUpwardHit(fs: FileSystem, names: seq<string>, depth: nat) returns (d: nat)
    requires SearchUpward(fs, names, depth).Some?
    ensures depth <= d < |fs.cwd| && SearchUpward(fs, names, depth) == Probe(fs, names, d)
    ensures forall e :: depth <= e < d ==> Probe(fs, names, e).None?
    decreases |fs.cwd| - depth
  {
    assert Tail(Ancestor(fs.cwd, depth)) != "";
    if Probe(fs, names, depth).Some? {
      d := depth;
    } else {
      assert SearchUpward(fs, names, depth) == SearchUpward(fs, names, depth + 1);
      d := SearchUpwardHit(fs, names, depth + 1);
    }
  }

  /**
   Bare-name mode, success: the result is the absolute path of a candidate accepted in
   the working directory or one of its ancestors (never the root), and no candidate
   earlier in the search order is accepted.
   */
  lemma BareNameFound(fs: FileSystem, name: string) returns (depth: nat, i: nat)
    requires ValidPath(fs.cwd) && !HasDirPart(name) && Resolve(fs, name).Some?
    ensures depth < |fs.cwd| && AcceptedAt(fs, Candidates(name), depth, i)
    ensures Resolve(fs, name).value == Ancestor(fs.cwd, depth) + [Candidates(name)[i]]
    ensures forall d: nat, j: nat :: Before(d, j, depth, i) ==> !AcceptedAt(fs, Candidates(name), d, j)
  {
    var names := Candidates(name);
    var d := SearchUpwardHit(fs, names, 0);
    ProbeSome(fs, names, d);
    var k: nat :| AcceptedAt(fs, names, d, k) && Probe(fs, names, d).value == Ancestor(fs.cwd, d) + [names[k]]
             && forall j: nat :: j < k ==> !AcceptedAt(fs, names, d, j);
    forall e: nat, j: nat | Before(e, j, d, k)
      ensures !AcceptedAt(fs, names, e, j)
    {
      if e < d {
        ProbeNone(fs, names, e);
      }
    }
    depth, i := d, k;
  }

  /** Bare-name mode, failure: `None` exactly when no candidate is accepted in the working directory or any ancestor below the root. */
  lemma BareNameNotFound(fs: FileSystem, name: string)
    requires ValidPath(fs.cwd) && !HasDirPart(name)
    ensures Resolve(fs, name).None? <==> forall d: nat, i: nat :: d < |fs.cwd| ==> !AcceptedAt(fs, Candidates(name), d, i)
  {
    var names := Candidates(name);
    if Resolve(fs, name).None? {
      SearchUpwardNone(fs, names, 0);
      forall d: nat, i: nat | d < |fs.cwd|
        ensures !AcceptedAt(fs, names, d, i)
      {
        ProbeNone(fs, names, d);
      }
    } else {
      var d, i := BareNameFound(fs, name);
    }
  }

  /** A bare name is never resolved to an entry of the root directory. */
  lemma BareNameNeverAtRoot(fs: FileSystem, name: string)
    requires ValidPath(fs.cwd) && !HasDirPart(name) && Resolve(fs, name).Some?
    ensures |Resolve(fs, name).value| >= 2
  {
    var depth, i := BareNameFound(fs, name);
  }

  /** The two filesystems agree on everything the acceptance test asks about the path `p`. */
  predicate SameAt(fs: FileSystem, fs': FileSystem, p: Path)
  {
    && (p in fs.existing <==> p in fs'.existing)
    && (p in fs.dirs <==> p in fs'.dirs)
    && (p + ["__init__.py"] in fs.existing <==> p + ["__init__.py"] in fs'.existing)
  }

  lemma {:induction false} FirstAcceptedAgree(fs: FileSystem, fs': FileSystem, names: seq<string>, at: string -> Path)
    requires forall i :: 0 <= i < |names| ==> SameAt(fs, fs', at(names[i]))
    ensures FirstAccepted(fs, names, at) == FirstAccepted(fs', names, at)
    decreases |names|
  {
    if names != [] {
      assert SameAt(fs, fs', at(names[0]));
      assert forall i :: 0 <= i < |names[1..]| ==> names[1..][i] == names[i + 1];
      FirstAcceptedAgree(fs, fs', names[1..], at);
    }
  }

  /**
   A name with a directory part is only tested where its candidates point: two
   filesystems that locate the candidates at the same paths and agree on those
   paths give the same result, whatever else differs (the ancestors included).
   */
  lemma ExplicitPathOnlyTestsCandidates(fs: FileSystem, fs': FileSystem, name: string)
    requires HasDirPart(name)
    requires forall i :: 0 <= i < |Candidates(name)| ==>
      fs.locate(fs.cwd, Candidates(name)[i]) == fs'.locate(fs'.cwd, Candidates(name)[i])
      && SameAt(fs, fs', fs.locate(fs.cwd, Candidates(name)[i]))
    ensures Resolve(fs, name) == Resolve(fs', name)
  {
    var names := Candidates(name);
    forall i | 0 <= i < |names|
      ensures Located(fs)(names[i]) == Located(fs')(names[i]) && SameAt(fs, fs', Located(fs)(names[i]))
    {
    }
    FirstAcceptedAgree(fs, fs', names, Located(fs));
    assert FirstAccepted(fs', names, Located(fs)) == FirstAccepted(fs', names, Located(fs')) by {
      FirstAcceptedSameTargets(fs', names, Located(fs), Located(fs'));
    }
  }

  lemma {:induction false} FirstAcceptedSameTargets(fs: FileSystem, names: seq<string>, at: string -> Path, at': string -> Path)
    requires forall i :: 0 <= i < |names| ==> at(names[i]) == at'(names[i])
    ensures FirstAccepted(fs, names, at) == FirstAccepted(fs, names, at')
    decreases |names|
  {
    if names != [] {
      assert at(names[0]) == at'(names[0]);
      assert forall i :: 0 <= i < |names[1..]| ==> names[1..][i] == names[i + 1];
      FirstAcceptedSameTargets(fs, names[1..], at, at');
    }
  }

  lemma {:induction false} SearchUpwardIgnoresLocate(fs: FileSystem, names: seq<string>, depth: nat, l: (Path, string) -> Path)
    ensures SearchUpward(fs.(locate := l), names, depth) == SearchUpward(fs, names, depth)
    decreases |fs.cwd| - depth
  {
    var at := InDir(Ancestor(fs.cwd, depth));
    FirstAcceptedAgree(fs, fs.(locate := l), names, at);
    if Tail(Ancestor(fs.cwd, depth)) != "" && Probe(fs, names, depth).None? {
      SearchUpwardIgnoresLocate(fs, names, depth + 1, l);
    }
  }

  /** A bare name is only searched for by joining it to the working directory and its ancestors: `locate` plays no part. */
  lemma BareNameIgnoresLocate(fs: FileSystem, name: string, l: (Path, string) -> Path)
    requires !HasDirPart(name)
    ensures Resolve(fs.(locate := l), name) == Resolve(fs, name)
  {
    SearchUpwardIgnoresLocate(fs, Candidates(name), 0, l);
  }

  /**
   `-f ../other.py` is resolved against the working directory: from `/a/b` it finds
   `/a/other.py`, and from `/c` it looks for `/other.py`, which does not exist.
   */
  lemma RelativeExplicitName(locate: (Path, string) -> Path)
    requires locate(["a", "b"], "../other.py") == ["a", "other.py"]
    requires locate(["c"], "../other.py") == ["other.py"]
    ensures Resolve(FileSystem({["a", "other.py"]}, {}, ["a", "b"], locate), "../other.py") == Some(["a", "other.py"])
    ensures Resolve(FileSystem({["a", "other.py"]}, {}, ["c"], locate), "../other.py") == None
  {
    var name := "../other.py";
    assert name[2] == '/';
    assert HasDirPart(name);
    assert EndsWithPy(name);
    assert Candidates(name) == [name];
  }

  /** Resolving `tasks` in `/proj/tests` when only `/proj/tasks.py` exists finds it one level up. */
  lemma AncestorHit(locate: (Path, string) -> Path)
    ensures Resolve(FileSystem({["proj", "tasks.py"]}, {}, ["proj", "tests"], locate), "tasks") == Some(["proj", "tasks.py"])
  {
    var fs := FileSystem({["proj", "tasks.py"]}, {}, ["proj", "tests"], locate);
    var names := Candidates("tasks");
    assert !EndsWithPy("tasks");
    assert "tasks" + ".py" == "tasks.py";
    assert names == ["tasks", "tasks.py"];
    assert EndsWithPy("tasks.py");
    assert Ancestor(fs.cwd, 0) == ["proj", "tests"];
    assert Ancestor(fs.cwd, 1) == ["proj"];
    assert !AcceptedAt(fs, names, 0, 0) && !AcceptedAt(fs, names, 0, 1);
    ProbeNone(fs, names, 0);
    assert Ancestor(fs.cwd, 1) + [names[1]] == ["proj", "tasks.py"];
    assert AcceptedAt(fs, names, 1, 1);
    assert Probe(fs, names, 1) == Some(["proj", "tasks.py"]);
    assert Tail(Ancestor(fs.cwd, 1)) == "proj";
    assert SearchUpward(fs, names, 1) == Some(["proj", "tasks.py"]);
    assert Tail(Ancestor(fs.cwd, 0)) == "tests";
    assert SearchUpward(fs, names, 0) == SearchUpward(fs, names, 1);
  }

  /** A locustfile that exists only in the root directory is not found: the search ends without a result. */
  lemma RootNotSearched(locate: (Path, string) -> Path)
    ensures Resolve(FileSystem({["locust.py"]}, {}, ["home"], locate), "locust").None?
  {
    var fs := FileSystem({["locust.py"]}, {}, ["home"], locate);
    var names := Candidates("locust");
    assert !EndsWithPy("locust");
    assert "locust" + ".py" == "locust.py";
    assert names == ["locust", "locust.py"];
    BareNameNotFound(fs, "locust");
    forall d: nat, i: nat | d < 1
      ensures !AcceptedAt(fs, names, d, i)
    {
      assert Ancestor(fs.cwd, d) == ["home"];
    }
  }
}
