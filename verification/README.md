# opal-webpack-resolver-plugin — a Dafny model of the resolver core

`OpalWebpackResolverPlugin` (`index.js`) is a webpack resolver plugin for
Opal (Ruby compiled to JavaScript). It resolves `require` specifiers ending in
`.rb` or `.js` against the Ruby toolchain's load paths. At construction it
loads an index of the `.rb`/`.js` files below those load paths. The index is
kept in the cache file `.owl_cache/load_paths.json`. The cache is rebuilt when
it is inaccessible or older than `Gemfile.lock`. Each request is then looked
up in three tiers: the index, the live filesystem for load paths below the
working directory, and the requesting directory.

This project models that core as pure functions over strings and sequences.
I/O becomes parameters:

- the working directory `process.cwd()` is a string `cwd`;
- `fs.existsSync` during resolution is membership in a `set<string>`;
- the filesystem the indexer walks is a finite tree
  (`Indexer.Node = Dir(entries) | File | Other`, entries in `readdir` order);
- `statSync`/`accessSync` become presence, readability and integer mtimes;
- the Ruby process becomes the text it prints;
- the cache file becomes the record it encodes.

Modules, one per component:

- `Strings`: JavaScript `startsWith`, `endsWith`, `split`, and `join` as the
  inverse of `split`.
- `LoadPaths`: parsing the toolchain's output (`get_load_paths`).
- `Indexer`: the directory walk and the load-path index
  (`get_directory_entries`, `get_load_path_entries`), with path lookup in the tree.
- `Resolver`: `get_absolute_path`, as a functional specification
  (`Resolve`) and as the source's two loops (`GetAbsolutePath`), which are
  proved equal.
- `Plugin`: the `tapAsync` callback in `apply`. Its result is
  `Outcome = Declined | Rewritten(request)`.
- `Startup`: the constructor's configuration errors, the stale-lock warning,
  the rebuild-or-read decision, and the resulting instance.
- `Scenarios`: worked examples, facts proved about small concrete inputs.

The guard "starts with `cwd`" is a plain string-prefix test, exactly as in
the source. It is not path-component aware. With `cwd = /srv/app`, the
directory `/srv/apple` counts as inside the working tree. So the walk skips
it, and the live tier treats load paths under it as application paths. The
model keeps this behaviour.

## Behaviour worth noting

- The walk excludes paths starting with `cwd` when `in_app` is false
  (`index.js:90`). `get_load_path_entries` always passes `false`, so files
  below the working directory are never indexed.
- An entry that cannot be opened makes `openSync` throw (`index.js:102`). The
  walk does not skip it.
- A fresh instance always reads the cache file when no rebuild is needed:
  `owl_cache_fetched` is never set before line 43 runs. So there is no
  cross-call idempotence to model.
- The stale-lock warning calls `console.exception` (`index.js:34`), which
  Node.js's console does not have; see Findings below.

## Model

| member | source | states |
|---|---|---|
| Strings.Split | index.js:212 | `split('\n')` yields at least one piece; no piece contains the separator; there is exactly one more piece than separators |
| LoadPaths.ParseLoadPaths | index.js:212-217 | no load path contains a newline; empty output yields no load paths; for newline-terminated output, joining the paths with newlines and appending one newline gives the output back, so exactly one trailing empty line is dropped; otherwise the join is the output itself; there is one path per newline, plus one if the output is unterminated |
| LoadPaths.ParsePrinted | index.js:205-217 | parsing the output of printing each path on its own line gives back the same paths, in the same order |
| Indexer.Walk | index.js:88-122 | a path that is not absolute yields nothing; with `in_app` false, a path starting with `cwd` yields nothing; a non-directory yields nothing; every result ends in `.rb` or `.js` and starts with the walked path plus `/` |
| Indexer.WalkFrom | index.js:99-119 | every file the entry loop collects, directly or through a sub-directory, ends in `.rb` or `.js` and lies below the directory plus `/` |
| Indexer.DirectoryEntries | index.js:88-91 | the three guards (not absolute, below `cwd` when `in_app` is false, not existing) each yield the empty list; every result is a `.rb`/`.js` path below the root plus `/` |
| Indexer.EntryContribution | index.js:100-117 | what one listing entry adds: every path is a `.rb`/`.js` path below the directory plus `/` |
| Indexer.SubdirectoryWalkAgrees | index.js:100-108 | recursing with the child's tree node gives the same list as calling `get_directory_entries` on the path `path + '/' + name` again |
| Indexer.WalkYieldsFiles | index.js:93-116 | every collected path names a regular file of the filesystem |
| Indexer.DirectoryEntriesAreFiles | index.js:88-122 | every path `get_directory_entries` returns names a regular file |
| Indexer.ListedFileIndexed | index.js:113-116 | a regular `.rb`/`.js` file listed in a directory that passes the guards is collected |
| Indexer.SubdirectoryIndexed | index.js:107-112 | everything collected for a sub-directory is collected for its parent |
| Indexer.LoadPathEntries | index.js:220-231 | the index holds only `.rb`/`.js` paths |
| Indexer.LoadPathEntriesMembership | index.js:220-231 | a path is in the index exactly when the walk of some load path yields it |
| Indexer.IndexedUnderExternalLoadPath | index.js:220-231 | every indexed file lies below a load path that does not start with `cwd`, since every walk gets `in_app = false` |
| Indexer.AppLoadPathsNotIndexed | index.js:220-231 | removing a load path that starts with `cwd` leaves the index unchanged |
| Indexer.LoadPathEntriesAreFiles | index.js:220-231 | every indexed path names a regular file |
| Indexer.LoadPathEntriesConcat | index.js:220-231 | the index of two lists of load paths in sequence is the index of the first followed by the index of the second |
| Indexer.PushAll | index.js:226-228 | pushing a walk's entries one by one appends exactly those entries, in order |
| Indexer.CollectLoadPathEntries | index.js:220-231 | the source's nested push loops produce exactly the walks concatenated in load-path order |
| Resolver.LogicalPath | index.js:131-137 | the logical path starts with `/`; a request starting with `./` loses its leading `.`; otherwise a request starting with `/` is kept; any other request gets `/` prepended |
| Resolver.LogicalPathIdempotent | index.js:131-137 | normalising a logical path again changes nothing |
| Resolver.SpellingsAgree | index.js:131-137 | for every `x`, `/x` and `./x` normalise to `/x`; so does `x` itself unless it starts with `./` or `/` |
| Resolver.LogicalPathKeepsSuffix | index.js:131-137 | normalisation preserves a `.rb` or `.js` suffix |
| Resolver.ModuleVariants | index.js:141-147 | for a handled module, the `.rb` candidate ends in `.rb`, the `.js` candidate ends in `.js`, and the module is one of them; an unhandled module gets the candidate text `undefined` and no `.js` candidate |
| Resolver.RubyModuleVariants | index.js:141-143 | `stem.rb` has the candidates `stem.rb` and `stem.js` |
| Resolver.JsModuleVariants | index.js:144-146 | `stem.js` has the candidates `stem.js.rb` and `stem.js` |
| Resolver.Pick | index.js:152-170 | a load path yields a file iff it is eligible for the tier and one of its candidates is present; the file is that candidate; `.rb` is preferred over `.js`; in the live tier the file starts with `cwd` |
| Resolver.FirstPick | index.js:152-189 | a tier finds a file iff some load path yields one; the result is what the first such load path yields |
| Resolver.Resolve | index.js:124-200 | a found path is non-empty and is either indexed or exists on disk and starts with `cwd`; for a `.rb`/`.js` request it ends in `.rb` or `.js` |
| Resolver.IndexedTierFirst | index.js:152-171 | when some load path has an indexed candidate, the first such load path decides the result, and disk and requesting directory are irrelevant |
| Resolver.IndexMissFallsBack | index.js:173-197 | on an index miss the fallback tiers give the same result as with an empty index |
| Resolver.ResolvedProvenance | index.js:124-200 | every result is a candidate under some load path or the `.rb` candidate beside the requesting directory |
| Resolver.LiveTierDecides | index.js:173-189 | on an index miss, the first load path below `cwd` with an existing candidate decides the result, whatever the requesting directory |
| Resolver.RequesterTierRubyOnly | index.js:191-199 | when both load-path tiers miss, the result is found iff `dir + rb-candidate` starts with `cwd` and exists, and it is that path |
| Resolver.IndexedModuleFound | index.js:152-160 | an indexed `.rb` module is resolved at its load path when no earlier load path has an indexed candidate |
| Resolver.SearchIndex | index.js:152-171 | the first loop over the load paths, with its early return, yields exactly the first indexed candidate by load-path order |
| Resolver.SearchDisk | index.js:173-189 | the second loop, with its early return, yields exactly the first existing candidate under a load path below `cwd` |
| Resolver.GetAbsolutePath | index.js:124-200 | the source's loops with early returns compute exactly `Resolve`; the result is indexed or on disk below `cwd` |
| Plugin.Handle | index.js:58-85 | a specifier not ending in `.rb`/`.js` is declined; a request is rewritten iff it is handled and resolution finds a path; the rewritten request differs from the original only in `path`, which is the resolved path |
| Plugin.UnhandledIgnoresState | index.js:61-81 | an unhandled request is declined whatever the index, working directory and disk hold |
| Plugin.RewrittenFacts | index.js:64-68 | a rewritten request keeps its specifier and other fields, and its path is an indexed or existing `.rb`/`.js` file |
| Startup.Decide | index.js:16-36 | the intended decision (see Findings): construction fails iff Gemfile or Gemfile.lock is missing or unreadable, naming the first check that fails in the order Gemfile present, lock file present, Gemfile readable, lock file readable; otherwise it rebuilds iff the cache failed the access check or the lock file is strictly newer; it warns iff the Gemfile is strictly newer than the lock file; it writes a placeholder iff the cache was inaccessible |
| Startup.DecideAsWritten | index.js:16-36 | as written, construction fails iff a configuration check fails or the Gemfile is newer than the lock file, a failing configuration check raises that check's error unchanged, before the warning is reached; otherwise a stale lock file raises the console's `TypeError`; when it succeeds it agrees with `Decide` and logs nothing |
| Startup.StaleLockAbortsAsWritten | index.js:33-35 | with readable configuration files and a Gemfile newer than its lock file, the code as written aborts while the intended decision succeeds and warns |
| Startup.WarningDoesNotDecide | index.js:33-36 | the Gemfile's mtime never changes failure, placeholder or the rebuild decision |
| Startup.StalenessMonotone | index.js:36-43 | a newer cache never turns a read into a rebuild; a newer lock file never turns a rebuild into a read |
| Startup.Construct | index.js:36-49 | built on the intended decision (see Findings), so a stale lock file only sets `warned`; a failing configuration check's error is passed through unchanged; the cache file ends up holding exactly the instance's load paths and index; on a read, the stored record is used unchanged; on a rebuild, the load paths are the parsed toolchain output, the index is exactly the walk of those load paths in order, and it holds only `.rb`/`.js` paths |
| Startup.ReloadResolvesAlike | index.js:36-49 | after a rebuild, an instance that reads the written cache file has the same index and handles every request identically |

## Left out

- Running `bundle exec rails runner …` or `bundle exec ruby -e …`
  (`index.js:202-211`), including the choice between them on the presence of
  `bin/rails`. The model starts from the process's output text.
- Raw `fs` calls are abstracted as parameters:
  - `statSync` and `accessSync` become presence, readability and mtime;
  - `existsSync` during resolution is a set;
  - `openSync`, `fstatSync` and `readdirSync` become the tree.
  Their failures beyond the configuration checks (for example an unreadable
  directory during the walk, or a failing `mkdirSync`/`writeFileSync`) are not
  modelled.
- `JSON.stringify`/`JSON.parse`: the cache file is the record it encodes
  (lossless). A cache file whose JSON lacks the two keys is not modelled.
  For example, a leftover `{}` placeholder would leave the load paths
  undefined.
- Webpack hook plumbing (`ensureHook`, `getHook`, `tapAsync`) and the `source`
  and `target` fields. The callback's invocation is reduced to its two
  outcomes; `callback(error)` never occurs in the source.
- Startup.Construct: it is built on the intended `Decide` (see Findings),
  so it succeeds, with `warned` set, where the code as written throws the
  console `TypeError`. It also fails exactly when `Decide` fails because two
  other failures are not modelled. One is `execSync` throwing on a non-zero
  exit of the Ruby process (`index.js:205-210`). The other is `JSON.parse`
  throwing on a malformed cache file (`index.js:45`).
- The text of the stale-lock message is not modelled. `Decide` records only
  whether the warning is due.
- A fifo among the walked entries is not modelled. `openSync(…, 'r')` on a
  fifo blocks until a writer opens it, so the walk would hang. A socket makes
  `openSync` throw, which is covered by the line on `fs` failures above.
- Modification times are floating-point milliseconds in the source. They are
  only compared, so they are integers here.
- Path lookup in the tree ignores repeated and trailing `/`, and does not
  interpret `.` or `..`.
- Symbolic links are seen through, as `fstat` does. Link cycles are not
  modelled, since a finite tree cannot express them. In the source,
  `existsSync` (`index.js:101`) returns false once a path follows more links
  than the operating system allows (40 on Linux). So a single cycle stops the
  walk after about that many nested levels, and every file below the cycle
  is collected once per level, each time under a different path. Several
  cycle links make the walk grow exponentially.
- The `owl_cache_fetched` flag is not modelled: it is always unset when the
  constructor reaches it, so no idempotence across calls is claimed.

## Findings

| source | as written | input that shows it | evidently intended | confidence | as-written member | corrected member |
|---|---|---|---|---|---|---|
| index.js:33-35 | `console.exception(…)` is called, but Node.js's `console` has no `exception` method, so the call throws a `TypeError` and the constructor aborts | readable `Gemfile` modified at 2, readable `Gemfile.lock` modified at 1 (`Startup.StaleLockExample`) | log the warning and carry on, for example with `console.error` | medium, based on Node.js's documented console API; not executed | Startup.DecideAsWritten, Startup.StaleLockAbortsAsWritten | Startup.Decide, Startup.WarningDoesNotDecide |
