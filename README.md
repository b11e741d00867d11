# Locust launcher, modelled in Dafny

This project models the launcher of the Locust load-testing tool (`locust/main.py`).
Before any concurrency starts, the launcher does four things:

- **Locating the locustfile** (`find_locustfile`, `_is_package`). The name, and the name with `.py`
  appended, are tried. A name with a directory part is tested where it points, after `~` expansion.
  A bare name is looked for in the working directory and then in each ancestor, nearest first.
  The root directory itself is never searched. A candidate is taken if it exists and is a `.py` name
  or a package directory (one that holds `__init__.py`).
- **Loading it** (`load_locustfile`). The file's directory is moved or inserted to the front of
  `sys.path`, the module is imported, and `sys.path` is put back.
- **Discovering the Locust classes** (`is_locust` and the filter over the module's attributes).
- **Dispatching** (`main`). This covers the early exits (`-V`, a missing locustfile, `-l`, an unknown
  Locust name) and, for a run, the web monitor, the runner (local, master or slave), hatching and
  the stats printer.

Modules:

- `Wrappers` (wrappers.dfy): `Option`.
- `Filesystem` (filesystem.dfy): the abstract filesystem. Absolute paths are sequences of
  components. `existing` and `dirs` stand for `os.path.exists` and `os.path.isdir`, `cwd` is the
  working directory, and `locate(cwd, name)` stands for `abspath(expanduser(name))` evaluated with `cwd` as the working directory.
- `LocustfileSearch` (locustfile.dfy): the search, as the imperative method `FindLocustfile`
  proved against the function `Resolve`, with lemmas that characterise `Resolve`.
- `Discovery` (discovery.dfy): `IsLocust` and `Catalog`.
- `SearchPath` (searchpath.dfy): `sys.path` as the class `ModuleSearchPath` with in-place
  `Insert`/`Delete`, and `LoadLocustfile` as a method over it. It is proved against the functions
  `DuringImport` (the list during the import) and `Unwind` (the way back).
- `Launcher` (launcher.dfy): the pure dispatch `Launch` and `Bootstrap`, and `RunMain`, which runs
  the imperative pieces and is proved to produce `Launch`'s outcome.

A run is modelled as the ordered list of launching steps that `main` takes: spawn the web monitor,
set the runner, start hatching, spawn the stats printer.

## Model

| member | source | states |
|---|---|---|
| `LocustfileSearch.Candidates` | locust/main.py:164-167 | The names tried are the name itself and then, only when it does not already end in `.py`, the name with `.py` appended. The last candidate always ends in `.py`. |
| `LocustfileSearch.FirstAcceptedIsFirst` | locust/main.py:171-174 | Candidates are tried in order. The result is the location of the first one that exists and is a `.py` name or a package. It is `None` exactly when no candidate is accepted. |
| `LocustfileSearch.HasDirPart` | locust/main.py:169 | A name has path elements exactly when `os.path.dirname` of it is non-empty. This chooses between explicit-path mode and the upward search. |
| `Filesystem.DirName` | locust/main.py:169 | `os.path.dirname(name)` is a prefix of the name, and it is empty exactly when the name holds no `/`. |
| `Filesystem.IsPackage` | locust/main.py:149-156 | `_is_package`: the path is a directory and holds an `__init__.py`. |
| `LocustfileSearch.Accepted` | locust/main.py:173-174 | A candidate is taken at a path when the path exists and the candidate ends in `.py` or the path is a package. The same test is used at main.py:184-185. |
| `LocustfileSearch.Resolve` | locust/main.py:169-175 | In explicit-path mode only the located candidates are tested, that is the `~`-expanded names made absolute against the working directory. The result is `None` if and only if none of them is accepted. Otherwise it is the location of the first accepted candidate, in `Candidates` order. |
| `LocustfileSearch.FindLocustfile` | locust/main.py:159-188 | The loop-and-early-return search returns exactly what `Resolve` specifies, in both modes. |
| `LocustfileSearch.SearchUpward` | locust/main.py:178-187 | A hit of the upward search lies directly in the working directory or one of its ancestors, and its last component is one of the candidates. |
| `LocustfileSearch.SearchUpwardNone` | locust/main.py:178-188 | The upward search returns `None` exactly when no level, from the working directory up to the root's child, gives a hit. |
| `LocustfileSearch.SearchUpwardHit` | locust/main.py:178-187 | A hit of the upward search is the hit of the nearest level that gives one, and every nearer level gives none. |
| `LocustfileSearch.BareNameFound` | locust/main.py:176-186 | A bare name resolves to `ancestor + [candidate]` for an accepted candidate, at a level below the root. No candidate earlier in the search order (nearer level first, bare name before `.py` in a level) is accepted. |
| `LocustfileSearch.BareNameNotFound` | locust/main.py:178-188 | A bare name gives `None` if and only if no candidate is accepted in the working directory or any ancestor below the root. |
| `LocustfileSearch.BareNameNeverAtRoot` | locust/main.py:179-181 | A bare-name hit never lies directly in the root directory: its path has at least two components. |
| `LocustfileSearch.ExplicitPathOnlyTestsCandidates` | locust/main.py:169-175 | With a directory part, only the located candidates are consulted. Two filesystems that locate every candidate at the same path and agree on those paths give the same result, whatever the ancestors hold. |
| `LocustfileSearch.BareNameIgnoresLocate` | locust/main.py:176-187 | A bare name never goes through `expanduser`/`abspath` of the name. Its result does not depend on `locate`. |
| `LocustfileSearch.RelativeExplicitName` | locust/main.py:169-175 | Example: `-f ../other.py` is resolved against the working directory. From `/a/b` it finds `/a/other.py`, and from `/c` it finds nothing. |
| `LocustfileSearch.AncestorHit` | locust/main.py:178-187 | Example: `tasks` looked up from `/proj/tests`, with only `/proj/tasks.py` present, resolves to `/proj/tasks.py`. |
| `LocustfileSearch.RootNotSearched` | locust/main.py:179-188 | Example: a `locust.py` that exists only in `/` is not found from `/home`, and the search ends with `None`. |
| `Filesystem.Ancestor` | locust/main.py:178-187 | The absolute path of `.` with `depth` `..` joins is a prefix of the working directory, shorter by `depth` components and clamped at the root. |
| `Filesystem.Tail` | locust/main.py:181 | For a normalised path, the last component is empty exactly at the root, which is the loop's stopping test. |
| `Discovery.IsLocust` | locust/main.py:191-201 | `is_locust`: the item is a class, a subclass of `Locust` and not in `_internals`, and its name does not start with `_`. |
| `Discovery.Catalog` | locust/main.py:191-201 | A name is in the catalog if and only if it is a module attribute that passes `is_locust`: a class, a `Locust` subclass, not in `_internals`, and a name not starting with `_`. Values are copied unchanged. |
| `Discovery.CatalogEntriesAreLocusts` | locust/main.py:195-201 | Every catalog entry is a public `Locust` subclass. |
| `Discovery.CatalogIdempotent` | locust/main.py:241 | Filtering a catalog again changes nothing. |
| `Discovery.CatalogOfUnion` | locust/main.py:241 | The filter works name by name: the catalog of `a + b` is the catalog of `a` minus `b`'s names, overridden by the catalog of `b`. |
| `Discovery.BaseClassIsListed` | locust/main.py:13 | Example: with `Foo`, `_Bar` and the base `Locust` class bound to `Base`, the catalog is `Foo` and `Base`. `_internals` is empty, so nothing excludes the base class. |
| `SearchPath.ListInsert` | locust/main.py:218 | The value after `list.insert(i, x)`: `x` sits at `min(i, len)`, earlier elements stay in place and later ones shift up by one. |
| `SearchPath.ListDelete` | locust/main.py:230 | The value after `del list[i]`: earlier elements stay in place and later ones shift down by one. |
| `SearchPath.FirstIndex` | locust/main.py:224 | `list.index(x)` is the position of the first occurrence of `x`. |
| `SearchPath.ModuleSearchPath.Insert` | locust/main.py:229 | `sys.path.insert` updates the list in place to `ListInsert` of its old value. |
| `SearchPath.ModuleSearchPath.Delete` | locust/main.py:235 | `del sys.path[i]` updates the list in place to `ListDelete` of its old value. |
| `SearchPath.SavedFlags` | locust/main.py:215-227 | `added_to_path` holds exactly when the directory is absent. `index`, when set, is the first occurrence of the directory and is greater than 0. Otherwise the directory is already at index 0. |
| `SearchPath.DuringImport` | locust/main.py:217-230 | During the import the directory is at `sys.path[0]`. If it was absent, the list is the original with the directory prepended. If it was already at 0, the list is unchanged. If it was first found at `i > 0`, the list is the directory followed by the original without index `i`. |
| `SearchPath.Unwind` | locust/main.py:233-239 | The way back after the import: drop the front entry if the directory was added, then put a moved directory back at `index + 1` and drop the front. |
| `SearchPath.UnwindRestores` | locust/main.py:233-239 | Undoing the insertion, or putting the moved entry back at `index + 1` and dropping the front, gives back exactly the original list in all three starting cases. |
| `SearchPath.ModuleName` | locust/main.py:232 | `splitext(name)[0]` is a prefix of the name. A name without a dot is kept whole, and `x.py` becomes `x` unless `x` is only dots. In general the name is cut at its last dot exactly when some character before that dot is not a dot, so `tasks.v2` becomes `tasks` and `.bashrc` is kept whole. |
| `SearchPath.DottedPackageName` | locust/main.py:232 | Example: a package directory `tasks.v2` is imported as `tasks`, because `splitext` cuts at the last dot. |
| `Filesystem.Split` | locust/main.py:213 | `os.path.split` of the locustfile's path gives the containing directory and the last component. Joining them again gives back the path. For a file directly in the root, such as `/locust.py`, the directory is `/`. |
| `SearchPath.LoadOutcome` | locust/main.py:204-242 | The import is given the during-import list and the module name with its extension removed. The load fails exactly when the import raises, and it passes the error message on. Otherwise it returns the module's docstring and exactly the attributes that pass `is_locust`, with their values. |
| `SearchPath.LoadLocustfile` | locust/main.py:204-242 | The in-place insert/delete sequence returns `LoadOutcome`. After a successful import `sys.path` equals its value on entry. After a failed import it is left in the during-import state, because there is no `finally`. |
| `Launcher.ExitCode` | locust/main.py:254-301 | The exit status is 0 or 1. It is 0 exactly for `-V`, a listing and a run (main.py:254, 267, 301). A missing locustfile, an unknown Locust name (main.py:259, 272) and an import error escaping `main` give 1. |
| `Launcher.SelectedRunner` | locust/main.py:280-292 | The runner is local when neither `--master` nor `--slave` is given. It is master whenever `--master` is given, even with `--slave`. Otherwise it is slave. It carries the Locust class, hatch rate and client count, and master and slave also carry the Redis endpoint. |
| `Launcher.Bootstrap` | locust/main.py:276-292 | The web monitor is spawned if and only if neither `--no-web` nor `--slave` is given. Exactly one runner, the selected one, is set. Hatching starts if and only if the runner is local and `--no-web` is given. The stats printer is spawned if and only if the runner is local and `--print-stats` or `--no-web` is given. The steps come in source order: web, runner, hatching, stats. |
| `Launcher.Launch` | locust/main.py:252-274 | The outcome is `VersionShown` exactly for `-V`, before any search. It is `LocustfileMissing` exactly when the file is not found. After a found file, a failed load gives `ImportFailed` with its message. Otherwise `-l` lists the catalog's names, an unknown name gives `UnknownLocust`, and a known name starts a run with `Bootstrap` of that class. The exit code is 0 exactly for `-V`, or for a found and loaded file with `-l` or a known Locust name. A run happens only after the file was found and loaded, `-l` was not given and the name is in the catalog, and it runs `Bootstrap` with that class. |
| `Launcher.ListingIgnoresName` | locust/main.py:263-272 | `-l` ends before the positional name is consulted: the outcome does not depend on it and is never a run or an unknown-name error. |
| `Launcher.ShortlistAndHostsIgnored` | locust/main.py:244-301 | `--shortlist` and `--hosts` have no effect on the outcome. |
| `Launcher.MasterWinsOverSlave` | locust/main.py:276-292 | With both `--master` and `--slave`, the only step is setting a master runner: no web monitor and no rejection. |
| `Launcher.NoWebStandalone` | locust/main.py:280-288 | A standalone run with `--no-web` and without `--print-stats` sets the local runner, starts hatching and spawns the stats printer. |
| `Launcher.DefaultRun` | locust/main.py:276-281 | With the default options, the web monitor is spawned before the local runner is set, both with hatch rate 1 and 1 client. |
| `Launcher.RunMain` | locust/main.py:244-274 | Running the search method, the load method and the dispatch in sequence gives `Launch`'s outcome. `sys.path` is back to its entry value unless the import failed. After a failed import it is in the during-import state. |

## Behaviour of `main.py` worth noting

- `sys.path` is not restored when the import raises, because `load_locustfile` has no `try/finally`. `LoadLocustfile` leaves the list in the during-import state on that path.
- `--master` together with `--slave` is not rejected: the `elif` chain picks the master runner, and since `--slave` is set, no web monitor is spawned.
- `_internals` is empty, so the base `Locust` class is listed whenever the locustfile binds it to a public name.
- The web monitor is spawned before the runner is built.

## Left out

- `parse_options` (locust/main.py:27-146) is a wrapper over `optparse`. The parsed options are the `Options` record, and the defaults are the constant `Launcher.Defaults`.
- Path-string handling is left out. `os.path.exists`/`isdir` are the sets `existing`/`dirs`. `expanduser` and `abspath` of an explicit name are the abstract `locate`, which is given the working directory. `os.path.exists` of the relative expanded name is tested on its absolute path. For a bare name, the joined path is modelled as the directory plus one component, so bare names such as `.`, `..` or the empty string are not normalised.
- `__import__` and `vars(imported)` are an abstract `importer`. It is given the search list at the moment of the import and returns a module (docstring and attributes) or an import error. The module-resolution rules of Python itself are not modelled.
- `SearchPath.LoadLocustfile`: the import is taken to leave `sys.path` alone, and the restoration after a successful import depends on that. A locustfile that changes `sys.path` while it is imported would make the positional unwind (`del sys.path[0]`, main.py:235 and 239) remove the wrong entry, and the model cannot express that case.
- `inspect.isclass` and `issubclass` are the flags of `Discovery.Decl`.
- Everything gevent and all output are left out: `gevent.spawn`, `gevent.sleep`, the `KeyboardInterrupt` handler, the web monitor, the stats printer, the runner classes and all `print` and `sys.stderr` text (locust/main.py:245, 253, 258, 264-266, 271, 278-299). A run's exit status 0 stands for the end after the sleep or the interrupt.
- `Launcher.Launch`: the positional Locust name is a parameter. The `IndexError` raised when no positional argument is given is not modelled.
- `Launcher.Launch`: a listing keeps the catalog's names as a set, not in the dictionary's iteration order.
- The docstring returned by `load_locustfile` is passed through but never used.
