/** The plugin constructor: the configuration checks, the stale-lock warning,
    and the decision between rebuilding the load-path cache and reading it
    back. File-system calls are replaced by what they report (presence,
    readability, modification time); the external Ruby process by its
    standard output; the cache file's JSON by the record it encodes. */
module Startup {
  import opened Wrappers
  import opened Strings
  import opened Indexer
  import opened LoadPaths
  import opened Resolver
  import Plugin

  const GemfilePath: string := "Gemfile"
  const LockfilePath: string := "Gemfile.lock"

  /** What `fs.statSync` and `fs.accessSync(…, R_OK)` report about a file;
      modification times are compared only, so whole numbers stand in for
      the source's floating-point milliseconds. */
  datatype FileInfo = FileInfo(present: bool, readable: bool, mtime: int)

  /** The inputs of the constructor's decisions. `cacheReadWrite` is whether
      the cache file passed the read/write access check; `cacheMtime` is the
      cache file's modification time once any placeholder has been written. */
  datatype Environment = Environment(
    gemfile: FileInfo,
    lockfile: FileInfo,
    cacheReadWrite: bool,
    cacheMtime: int)

  /** The exceptions the constructor lets escape: a missing or unreadable
      configuration file, and the `TypeError` of calling a method the
      console does not have. */
  datatype ConfigError = Missing(file: string) | Unreadable(file: string) | ConsoleTypeError

  datatype Action = Rebuild | ReadCache

  /** `placeholder`: the cache directories and an empty `{}` cache file are
      created; `warnStaleLock`: the "Gemfile is newer than Gemfile.lock"
      message is logged. */
  datatype Plan = Plan(placeholder: bool, warnStaleLock: bool, action: Action)

  /** The constructor's decisions, in the order the source takes them: the
      two `statSync` calls, the two read-access checks, the cache access
      check, the warning, and the rebuild test. */
  function Decide(env: Environment): (r: Result<Plan, ConfigError>)
    ensures r.Failure? <==>
      !env.gemfile.present || !env.lockfile.present || !env.gemfile.readable || !env.lockfile.readable
    ensures r.Failure? ==> !r.error.ConsoleTypeError?
    ensures !env.gemfile.present ==> r == Failure(Missing(GemfilePath))
    ensures env.gemfile.present && !env.lockfile.present ==> r == Failure(Missing(LockfilePath))
    ensures env.gemfile.present && env.lockfile.present && !env.gemfile.readable ==>
      r == Failure(Unreadable(GemfilePath))
    ensures env.gemfile.present && env.lockfile.present && env.gemfile.readable && !env.lockfile.readable ==>
      r == Failure(Unreadable(LockfilePath))
    ensures r.Success? ==> (r.value.action == Rebuild <==> !env.cacheReadWrite || env.lockfile.mtime > env.cacheMtime)
    ensures r.Success? ==> (r.value.warnStaleLock <==> env.gemfile.mtime > env.lockfile.mtime)
    ensures r.Success? ==> (r.value.placeholder <==> !env.cacheReadWrite)
  {
    if !env.gemfile.present then Failure(Missing(GemfilePath))
    else if !env.lockfile.present then Failure(Missing(LockfilePath))
    else if !env.gemfile.readable then Failure(Unreadable(GemfilePath))
    else if !env.lockfile.readable then Failure(Unreadable(LockfilePath))
    else
      var mustGenerate := !env.cacheReadWrite;
      var warn := env.gemfile.mtime > env.lockfile.mtime;
      var action := if env.lockfile.mtime > env.cacheMtime || mustGenerate then Rebuild else ReadCache;
      Success(Plan(mustGenerate, warn, action))
  }

  /** The decision as `index.js:33-35` is written. Node.js's `console` has
      no `exception` method, so the warning call throws a `TypeError` and
      construction aborts whenever the Gemfile is newer than the lock file.
      `Decide` is the intended behaviour (log and carry on), and it is the
      one the rest of the model uses. */
  function DecideAsWritten(env: Environment): (r: Result<Plan, ConfigError>)
    ensures r.Failure? <==> Decide(env).Failure? || env.gemfile.mtime > env.lockfile.mtime
    ensures Decide(env).Failure? ==> r == Decide(env)
    ensures r.Failure? && Decide(env).Success? ==> r.error == ConsoleTypeError
    ensures r.Success? ==> r == Decide(env) && !r.value.warnStaleLock
  {
    match Decide(env)
    case Failure(e) => Failure(e)
    case Success(plan) => if plan.warnStaleLock then Failure(ConsoleTypeError) else Success(plan)
  }

  /** Where the two differ: with readable configuration files and a Gemfile
      newer than its lock file, the code as written aborts, while the
      intended constructor only logs the warning. */
  lemma StaleLockAbortsAsWritten(env: Environment)
    requires env.gemfile.present && env.gemfile.readable
    requires env.lockfile.present && env.lockfile.readable
    requires env.gemfile.mtime > env.lockfile.mtime
    ensures DecideAsWritten(env) == Failure(ConsoleTypeError)
    ensures Decide(env).Success? && Decide(env).value.warnStaleLock
  {
  }

  /** A concrete instance: Gemfile modified at 2, lock file at 1, a readable
      cache file from time 5. */
  lemma StaleLockExample()
    ensures var env := Environment(FileInfo(true, true, 2), FileInfo(true, true, 1), true, 5);
      && DecideAsWritten(env) == Failure(ConsoleTypeError)
      && Decide(env) == Success(Plan(false, true, ReadCache))
  {
  }

  /** The Gemfile's modification time only decides the warning: it never
      changes whether the constructor fails or what it does with the cache. */
  lemma WarningDoesNotDecide(env: Environment, gemfileMtime: int)
    ensures var env' := env.(gemfile := env.gemfile.(mtime := gemfileMtime));
      && Decide(env').Failure? == Decide(env).Failure?
      && (Decide(env).Success? ==>
            Decide(env').value.action == Decide(env).value.action &&
            Decide(env').value.placeholder == Decide(env).value.placeholder)
  {
  }

  /** Staleness is monotone: a newer cache file never turns a read into a
      rebuild, and a newer lock file never turns a rebuild into a read. */
  lemma StalenessMonotone(env: Environment, laterCache: int, laterLock: int)
    requires Decide(env).Success?
    requires laterCache >= env.cacheMtime && laterLock >= env.lockfile.mtime
    ensures Decide(env).value.action == ReadCache ==>
      Decide(env.(cacheMtime := laterCache)).value.action == ReadCache
    ensures Decide(env).value.action == Rebuild ==>
      Decide(env.(lockfile := env.lockfile.(mtime := laterLock))).value.action == Rebuild
  {
  }

  /** The content of the cache file `.owl_cache/load_paths.json`:
      `opal_load_paths` and `opal_load_path_entries`.
      JSON encoding and decoding are taken to be lossless. */
  datatype CacheRecord = CacheRecord(loadPaths: seq<string>, entries: seq<string>)

  /** A constructed plugin: the index it resolves against, the cache file's
      content after construction, and whether the warning was logged. */
  datatype Instance = Instance(index: Index, cacheFile: CacheRecord, warned: bool)

  /** The constructor. On a rebuild the load paths come from the toolchain's
      output `toolOutput` and the index from walking them in `fs`; the record
      is written to the cache file. Otherwise the record already in the cache
      file, `stored`, is read. */
  function Construct(env: Environment, cwd: string, fs: Node, toolOutput: string, stored: CacheRecord)
    : (r: Result<Instance, ConfigError>)
    ensures r.Failure? <==> Decide(env).Failure?
    ensures r.Failure? ==> r.error == Decide(env).error
    ensures r.Success? ==> r.value.cacheFile == CacheRecord(r.value.index.loadPaths, r.value.index.entries)
    ensures r.Success? ==> r.value.warned == Decide(env).value.warnStaleLock
    ensures r.Success? && Decide(env).value.action == ReadCache ==> r.value.cacheFile == stored
    ensures r.Success? && Decide(env).value.action == Rebuild ==>
      && r.value.index.loadPaths == ParseLoadPaths(toolOutput)
      && r.value.index.entries == LoadPathEntries(fs, r.value.index.loadPaths, cwd)
      && (forall i :: 0 <= i < |r.value.index.entries| ==> HasSourceSuffix(r.value.index.entries[i]))
  {
    match Decide(env)
    case Failure(e) => Failure(e)
    case Success(plan) =>
      if plan.action == Rebuild then
        var loadPaths := ParseLoadPaths(toolOutput);
        var entries := LoadPathEntries(fs, loadPaths, cwd);
        Success(Instance(Index(loadPaths, entries), CacheRecord(loadPaths, entries), plan.warnStaleLock))
      else
        Success(Instance(Index(stored.loadPaths, stored.entries), stored, plan.warnStaleLock))
  }

  /** Rebuilding and then constructing again from the written cache file
      gives the same index, so every request is handled alike. */
  lemma ReloadResolvesAlike(env1: Environment, env2: Environment, cwd: string, fs1: Node, fs2: Node,
                            out1: string, out2: string, previous: CacheRecord,
                            disk: set<string>, req: Plugin.Request)
    requires Construct(env1, cwd, fs1, out1, previous).Success?
    requires Decide(env2).Success? && Decide(env2).value.action == ReadCache
    ensures var first := Construct(env1, cwd, fs1, out1, previous).value;
      var second := Construct(env2, cwd, fs2, out2, first.cacheFile);
      && second.Success?
      && second.value.index == first.index
      && Plugin.Handle(second.value.index, cwd, disk, req) == Plugin.Handle(first.index, cwd, disk, req)
  {
  }
}
