/**
 The decisions of `main`: the early exits (version, missing locustfile, listing,
 unknown Locust) and, for a run, which background tasks are spawned and which
 runner is built. The spawned tasks themselves are not modelled: a run is the
 ordered list of the launching steps it takes.
 */
module Launcher {

  import opened Wrappers
  import opened Filesystem
  import opened LocustfileSearch
  import opened Discovery
  import opened SearchPath

  /** The parsed command line (the `options` of `parse_options`). */
  datatype Options = Options(
    showVersion: bool,
    listCommands: bool,
    shortlist: bool,
    printStats: bool,
    noWeb: bool,
    master: bool,
    slave: bool,
    numClients: int,
    hatchRate: int,
    redisHost: string,
    redisPort: int,
    hosts: seq<string>,
    locustfile: string)

  /** The option defaults. */
  const Defaults := Options(
    showVersion := false, listCommands := false, shortlist := false, printStats := false,
    noWeb := false, master := false, slave := false, numClients := 1, hatchRate := 1,
    redisHost := "localhost", redisPort := 6379, hosts := [], locustfile := "locust")

  /** The runner stored in `core.locust_runner`, with its constructor arguments. */
  datatype Runner =
    | Local(locust: Decl, hatchRate: int, numClients: int)
    | Master(locust: Decl, hatchRate: int, numClients: int, redisHost: string, redisPort: int)
    | Slave(locust: Decl, hatchRate: int, numClients: int, redisHost: string, redisPort: int)

  /** One launching step of a run. */
  datatype Event =
    | SpawnWeb(locust: Decl, hatchRate: int, numClients: int)  // gevent.spawn(web.start, ...)
    | SetRunner(runner: Runner)                                // core.locust_runner = ...
    | StartHatching                                            // locust_runner.start_hatching()
    | SpawnStatsPrinter                                        // gevent.spawn(print_stats)

  /** How `main` ends. */
  datatype Outcome =
    | VersionShown
    | LocustfileMissing
    | ImportFailed(message: string)
    | Listed(names: set<string>)
    | UnknownLocust(name: string)
    | Started(events: seq<Event>)

  /** The exit status: `sys.exit` codes, and 1 for the import error that escapes `main`. */
  function ExitCode(o: Outcome): (code: int)
    ensures code == 0 || code == 1
    ensures code == 0 <==> o.VersionShown? || o.Listed? || o.Started?
  {
    match o
    case VersionShown => 0
    case LocustfileMissing => 1
    case ImportFailed(_) => 1
    case Listed(_) => 0
    case UnknownLocust(_) => 1
    case Started(_) => 0
  }

  /** The runner chosen by the `if`/`elif` chain: `--master` wins over `--slave`. */
  function SelectedRunner(opts: Options, locust: Decl): (r: Runner)
    ensures r.Local? <==> !opts.master && !opts.slave
    ensures r.Master? <==> opts.master
    ensures r.Slave? <==> !opts.master && opts.slave
    ensures r.locust == locust && r.hatchRate == opts.hatchRate && r.numClients == opts.numClients
    ensures !r.Local? ==> r.redisHost == opts.redisHost && r.redisPort == opts.redisPort
  {
    if !opts.master && !opts.slave then Local(locust, opts.hatchRate, opts.numClients)
    else if opts.master then Master(locust, opts.hatchRate, opts.numClients, opts.redisHost, opts.redisPort)
    else Slave(locust, opts.hatchRate, opts.numClients, opts.redisHost, opts.redisPort)
  }

  /** The position of each kind of step in the source. */
  function Rank(e: Event): nat
  {
    match e
    case SpawnWeb(_, _, _) => 0
    case SetRunner(_) => 1
    case StartHatching => 2
    case SpawnStatsPrinter => 3
  }

  /** The launching steps of a run with the Locust class `locust`. */
  function Bootstrap(opts: Options, locust: Decl): (events: seq<Event>)
    ensures SpawnWeb(locust, opts.hatchRate, opts.numClients) in events <==> !opts.noWeb && !opts.slave
    ensures forall e :: e in events && e.SpawnWeb? ==> e == SpawnWeb(locust, opts.hatchRate, opts.numClients)
    ensures SetRunner(SelectedRunner(opts, locust)) in events
    ensures forall e :: e in events && e.SetRunner? ==> e.runner == SelectedRunner(opts, locust)
    ensures StartHatching in events <==> SelectedRunner(opts, locust).Local? && opts.noWeb
    ensures SpawnStatsPrinter in events <==> SelectedRunner(opts, locust).Local? && (opts.printStats || opts.noWeb)
    ensures forall i, j :: 0 <= i < j < |events| ==> Rank(events[i]) < Rank(events[j])
  {
    var web := if !opts.noWeb && !opts.slave then [SpawnWeb(locust, opts.hatchRate, opts.numClients)] else [];
    var runner := SelectedRunner(opts, locust);
    var local :=
      if runner.Local? then
        (if opts.noWeb then [StartHatching] else []) + (if opts.printStats || opts.noWeb then [SpawnStatsPrinter] else [])
      else [];
    web + [SetRunner(runner)] + local
  }

  /**
   What `main` does with the parsed options, the positional Locust name `name`,
   the filesystem, the importer and the search list on entry.
   */
  function Launch(opts: Options, name: string, fs: FileSystem,
                  importer: (seq<string>, string) -> ImportResult, path: seq<string>): (o: Outcome)
    ensures o.VersionShown? <==> opts.showVersion
    ensures o.LocustfileMissing? <==> !opts.showVersion && Resolve(fs, opts.locustfile).None?
    ensures !opts.showVersion && Resolve(fs, opts.locustfile).Some? ==>
      var loaded := LoadOutcome(path, Resolve(fs, opts.locustfile).value, importer);
      && (loaded.LoadFailed? ==> o == ImportFailed(loaded.message))
      && (loaded.Loaded? && opts.listCommands ==> o == Listed(loaded.locusts.Keys))
      && (loaded.Loaded? && !opts.listCommands && name !in loaded.locusts ==> o == UnknownLocust(name))
      && (loaded.Loaded? && !opts.listCommands && name in loaded.locusts ==> o == Started(Bootstrap(opts, loaded.locusts[name])))
    ensures ExitCode(o) == 0 <==>
      || opts.showVersion
      || (&& Resolve(fs, opts.locustfile).Some?
          && LoadOutcome(path, Resolve(fs, opts.locustfile).value, importer).Loaded?
          && (opts.listCommands || name in LoadOutcome(path, Resolve(fs, opts.locustfile).value, importer).locusts))
    ensures o.Listed? ==> opts.listCommands
    ensures o.Started? ==>
      && !opts.listCommands
      && Resolve(fs, opts.locustfile).Some?
      && var loaded := LoadOutcome(path, Resolve(fs, opts.locustfile).value, importer);
         loaded.Loaded? && name in loaded.locusts && o.events == Bootstrap(opts, loaded.locusts[name])
  {
    if opts.showVersion then VersionShown
    else
      match Resolve(fs, opts.locustfile)
      case None => LocustfileMissing
      case Some(locustfile) =>
        match LoadOutcome(path, locustfile, importer)
        case LoadFailed(message) => ImportFailed(message)
        case Loaded(_, locusts) =>
          if opts.listCommands then Listed(locusts.Keys)
          else if name !in locusts then UnknownLocust(name)
          else Started(Bootstrap(opts, locusts[name]))
  }

  /** `--list` prints the catalog and exits before the positional name is looked at. */
  lemma ListingIgnoresName(opts: Options, name1: string, name2: string, fs: FileSystem,
                           importer: (seq<string>, string) -> ImportResult, path: seq<string>)
    requires opts.listCommands
    ensures Launch(opts, name1, fs, importer, path) == Launch(opts, name2, fs, importer, path)
    ensures var o := Launch(opts, name1, fs, importer, path); !o.UnknownLocust? && !o.Started?
  {
  }

  /** `--shortlist` and `--hosts` are parsed but never consulted. */
  lemma ShortlistAndHostsIgnored(opts: Options, shortlist: bool, hosts: seq<string>, name: string, fs: FileSystem,
                                 importer: (seq<string>, string) -> ImportResult, path: seq<string>)
    ensures Launch(opts.(shortlist := shortlist, hosts := hosts), name, fs, importer, path) == Launch(opts, name, fs, importer, path)
  {
  }

  /** `--master` together with `--slave` is not rejected: a master runner is built and no web monitor is spawned. */
  lemma MasterWinsOverSlave(opts: Options, locust: Decl)
    requires opts.master && opts.slave
    ensures Bootstrap(opts, locust) == [SetRunner(Master(locust, opts.hatchRate, opts.numClients, opts.redisHost, opts.redisPort))]
  {
  }

  /** A standalone run with `--no-web` and no `--print-stats` still starts hatching and the stats printer. */
  lemma NoWebStandalone(opts: Options, locust: Decl)
    requires opts.noWeb && !opts.printStats && !opts.master && !opts.slave
    ensures Bootstrap(opts, locust) == [SetRunner(Local(locust, opts.hatchRate, opts.numClients)), StartHatching, SpawnStatsPrinter]
  {
  }

  /** With the defaults, a standalone run spawns the web monitor before building the local runner, and nothing else. */
  lemma DefaultRun(locust: Decl)
    ensures Bootstrap(Defaults, locust) == [SpawnWeb(locust, 1, 1), SetRunner(Local(locust, 1, 1))]
  {
  }

  /**
   `main`, step by step: the locustfile is searched for and loaded through the
   imperative models, and the outcome is the one `Launch` describes. The search
   list is back to its entry value unless the import failed.
   */
  method RunMain(opts: Options, name: string, fs: FileSystem,
              importer: (seq<string>, string) -> ImportResult, syspath: ModuleSearchPath)
    returns (o: Outcome)
    modifies syspath
    ensures o == Launch(opts, name, fs, importer, old(syspath.entries))
    ensures !o.ImportFailed? ==> syspath.entries == old(syspath.entries)
    ensures o.ImportFailed? ==>
      syspath.entries == DuringImport(old(syspath.entries), Split(Resolve(fs, opts.locustfile).value).0)
  {
    if opts.showVersion {
      return VersionShown;
    }
    var locustfile := FindLocustfile(fs, opts.locustfile);
    if locustfile.None? {
      return LocustfileMissing;
    }
    var loaded := LoadLocustfile(syspath, locustfile.value, importer);
    if loaded.LoadFailed? {
      return ImportFailed(loaded.message);
    }
    var locusts := loaded.locusts;
    if opts.listCommands {
      return Listed(locusts.Keys);
    }
    if name !in locusts {
      return UnknownLocust(name);
    }
    o := Started(Bootstrap(opts, locusts[name]));
  }
}
