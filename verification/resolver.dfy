/** Module-to-path resolution (`get_absolute_path`). The plugin instance's
    load paths and index are an `Index` value; `fs.existsSync` is membership
    in the set `disk`, and `process.cwd()` is the parameter `cwd`. */
module Resolver {
  import opened Wrappers
  import opened Strings

  /** The load paths, in search order, and the flat list of indexed files
      (`opal_load_paths`, `opal_load_path_entries`). */
  datatype Index = Index(loadPaths: seq<string>, entries: seq<string>)

  // ---------------------------------------------------------------------
  // Normalisation

  /** The specifier as a root-relative logical path: `./x` and `/x` become
      `/x`, and any other `x` is prefixed with `/`. */
  function LogicalPath(request: string): (m: string)
    ensures |m| > 0 && m[0] == '/'
    ensures StartsWith(request, "./") ==> "." + m == request
    ensures !StartsWith(request, "./") && StartsWith(request, "/") ==> m == request
    ensures !StartsWith(request, "./") && !StartsWith(request, "/") ==> m == "/" + request
  {
    if StartsWith(request, "./") then request[1..]
    else if StartsWith(request, "/") then request
    else "/" + request
  }

  /** A logical path is its own logical path. */
  lemma LogicalPathIdempotent(request: string)
    ensures LogicalPath(LogicalPath(request)) == LogicalPath(request)
  {
    var m := LogicalPath(request);
    assert m[..1] == "/";
  }

  /** `/x` and `./x` denote the same logical path `/x` for every `x`, and so
      does the bare `x` when it is not itself spelled with `./` or `/`. */
  lemma SpellingsAgree(name: string)
    ensures !StartsWith(name, "./") && !StartsWith(name, "/") ==> LogicalPath(name) == "/" + name
    ensures LogicalPath("/" + name) == "/" + name
    ensures LogicalPath("./" + name) == "/" + name
  {
    assert ("/" + name)[..1] == "/";
    assert ("./" + name)[..2] == "./";
    assert ("./" + name)[1..] == "/" + name;
  }

  /** Normalisation keeps the suffix the request filter looked at. */
  lemma LogicalPathKeepsSuffix(request: string, suffix: string)
    requires suffix == ".rb" || suffix == ".js"
    requires EndsWith(request, suffix)
    ensures EndsWith(LogicalPath(request), suffix)
  {
    var m := LogicalPath(request);
    if m == "/" + request {
      assert m[|m| - 3..] == request[|request| - 3..];
    } else if "." + m == request {
      assert request[1] == '/';
      assert |m| >= 3;
      assert m[|m| - 3..] == request[|request| - 3..];
    }
  }

  // ---------------------------------------------------------------------
  // Suffix variants

  /** The Ruby-source and compiled candidates of a logical path (`rb`, `js`).
      The source only computes them for paths with a handled suffix; for any
      other path its `.rb` candidate is JavaScript's `undefined`, which string
      concatenation turns into the text "undefined", and there is no `.js`
      candidate. */
  datatype Variants = Variants(rb: string, js: Option<string>)

  function ModuleVariants(m: string): (v: Variants)
    ensures HasSourceSuffix(m) ==> v.js.Some? && EndsWith(v.rb, ".rb") && EndsWith(v.js.value, ".js")
    ensures HasSourceSuffix(m) ==> m == v.rb || m == v.js.value
    ensures !HasSourceSuffix(m) ==> v == Variants("undefined", None)
    ensures |v.rb| > 0 && (v.js.Some? ==> |v.js.value| > 0)
  {
    if EndsWith(m, ".rb") then
      EndsWithExtend(m[..|m| - 3], ".js");
      assert m[..|m| - 2] + "js" == m[..|m| - 3] + ".js";
      Variants(m, Some(m[..|m| - 2] + "js"))
    else if EndsWith(m, ".js") then
      EndsWithExtend(m, ".rb");
      Variants(m + ".rb", Some(m))
    else Variants("undefined", None)
  }

  /** A Ruby module may also be satisfied by its compiled `.js` file. */
  lemma RubyModuleVariants(stem: string)
    ensures ModuleVariants(stem + ".rb") == Variants(stem + ".rb", Some(stem + ".js"))
  {
    var m := stem + ".rb";
    EndsWithExtend(stem, ".rb");
    assert m[..|m| - 2] == stem + ".";
    assert (stem + ".") + "js" == stem + ".js";
  }

  /** A `.js` module may be satisfied by a `.js.rb` source or by itself. */
  lemma JsModuleVariants(stem: string)
    ensures ModuleVariants(stem + ".js") == Variants(stem + ".js.rb", Some(stem + ".js"))
  {
    var m := stem + ".js";
    EndsWithExtend(stem, ".js");
    SuffixesExclusive(m);
  }

  // ---------------------------------------------------------------------
  // The lookup tiers

  /** Where a tier looks a candidate up: the index (`entries.includes`), or
      the live filesystem restricted to load paths below `cwd`. */
  datatype Tier = IndexTier(entries: seq<string>) | DiskTier(cwd: string, disk: set<string>)

  predicate Eligible(t: Tier, lp: string) {
    match t
    case IndexTier(_) => true
    case DiskTier(cwd, _) => StartsWith(lp, cwd)
  }

  predicate Present(t: Tier, f: string) {
    match t
    case IndexTier(entries) => f in entries
    case DiskTier(_, disk) => f in disk
  }

  /** What one load path yields in one tier: its `.rb` candidate when present,
      else its `.js` candidate when present. */
  function Pick(t: Tier, lp: string, v: Variants): (r: Option<string>)
    ensures r.Some? <==> Eligible(t, lp) && (Present(t, lp + v.rb) || (v.js.Some? && Present(t, lp + v.js.value)))
    ensures r.Some? ==> Present(t, r.value) && (r.value == lp + v.rb || (v.js.Some? && r.value == lp + v.js.value))
    ensures Eligible(t, lp) && Present(t, lp + v.rb) ==> r == Some(lp + v.rb)
    ensures r.Some? && t.DiskTier? ==> StartsWith(r.value, t.cwd)
    ensures r.Some? && |v.rb| > 0 && (v.js.Some? ==> |v.js.value| > 0) ==> |r.value| > 0
    ensures r.Some? && EndsWith(v.rb, ".rb") && (v.js.Some? ==> EndsWith(v.js.value, ".js")) ==> HasSourceSuffix(r.value)
  {
    if !Eligible(t, lp) then None
    else if Present(t, lp + v.rb) then
      CandidateFacts(t, lp, v.rb, ".rb");
      Some(lp + v.rb)
    else if v.js.Some? && Present(t, lp + v.js.value) then
      CandidateFacts(t, lp, v.js.value, ".js");
      Some(lp + v.js.value)
    else None
  }

  /** A candidate under an eligible load path keeps the load path's prefix and
      the candidate's suffix. */
  lemma CandidateFacts(t: Tier, lp: string, c: string, suffix: string)
    requires Eligible(t, lp)
    ensures t.DiskTier? ==> StartsWith(lp + c, t.cwd)
    ensures EndsWith(c, suffix) ==> EndsWith(lp + c, suffix)
  {
    if t.DiskTier? {
      StartsWithExtend(lp, c, t.cwd);
    }
    EndsWithPrepend(lp, c, suffix);
  }

  /** Load path `i` yields a file in tier `t` and no earlier one does. */
  predicate FirstHitAt(t: Tier, loadPaths: seq<string>, v: Variants, i: int) {
    && 0 <= i < |loadPaths|
    && Pick(t, loadPaths[i], v).Some?
    && forall j :: 0 <= j < i ==> Pick(t, loadPaths[j], v).None?
  }

  /** The first load path, in order, that yields a file in tier `t`. */
  function FirstPick(t: Tier, loadPaths: seq<string>, v: Variants): (r: Option<string>)
    ensures r.Some? <==> exists i :: 0 <= i < |loadPaths| && Pick(t, loadPaths[i], v).Some?
    ensures forall i :: FirstHitAt(t, loadPaths, v, i) ==> r == Pick(t, loadPaths[i], v)
    ensures r.Some? ==> exists i :: 0 <= i < |loadPaths| && r == Pick(t, loadPaths[i], v)
    decreases |loadPaths|
  {
    if |loadPaths| == 0 then None
    else if Pick(t, loadPaths[0], v).Some? then Pick(t, loadPaths[0], v)
    else
      var r := FirstPick(t, loadPaths[1..], v);
      assert forall i :: 1 <= i < |loadPaths| ==> loadPaths[1..][i - 1] == loadPaths[i];
      r
  }

  // ---------------------------------------------------------------------
  // Resolution

  /** `get_absolute_path(dir, request)`: the index tier, then the live tier,
      then the `.rb` candidate beside the requesting directory `dir`, provided
      that path starts with `cwd`; `None` is the source's `null`. */
  function Resolve(idx: Index, cwd: string, disk: set<string>, dir: string, request: string): (r: Option<string>)
    ensures r.Some? ==> |r.value| > 0
    ensures r.Some? ==> r.value in idx.entries || (r.value in disk && StartsWith(r.value, cwd))
    ensures HasSourceSuffix(request) && r.Some? ==> HasSourceSuffix(r.value)
  {
    var v := ModuleVariants(LogicalPath(request));
    VariantSuffixes(request);
    var indexed := FirstPick(IndexTier(idx.entries), idx.loadPaths, v);
    if indexed.Some? then indexed
    else
      var live := FirstPick(DiskTier(cwd, disk), idx.loadPaths, v);
      if live.Some? then live
      else
        var local := dir + v.rb;
        EndsWithPrepend(dir, v.rb, ".rb");
        if StartsWith(local, cwd) && local in disk then Some(local) else None
  }

  /** The candidates of a handled request carry the handled suffixes. */
  lemma VariantSuffixes(request: string)
    ensures var v := ModuleVariants(LogicalPath(request));
      HasSourceSuffix(request) ==> EndsWith(v.rb, ".rb") && v.js.Some? && EndsWith(v.js.value, ".js")
  {
    if EndsWith(request, ".rb") {
      LogicalPathKeepsSuffix(request, ".rb");
    } else if EndsWith(request, ".js") {
      LogicalPathKeepsSuffix(request, ".js");
    }
  }

  /** When some load path has an indexed candidate, the first such load path
      decides the result and neither fallback tier is consulted. */
  lemma IndexedTierFirst(idx: Index, cwd: string, disk: set<string>, dir: string, request: string, i: int)
    requires FirstHitAt(IndexTier(idx.entries), idx.loadPaths, ModuleVariants(LogicalPath(request)), i)
    ensures Resolve(idx, cwd, disk, dir, request) == Pick(IndexTier(idx.entries), idx.loadPaths[i], ModuleVariants(LogicalPath(request)))
    ensures Resolve(idx, cwd, disk, dir, request) == Resolve(idx, cwd, {}, "", request)
  {
  }

  /** On an index miss the index plays no further part: the result is the
      same as with an empty index. */
  lemma IndexMissFallsBack(idx: Index, cwd: string, disk: set<string>, dir: string, request: string)
    requires FirstPick(IndexTier(idx.entries), idx.loadPaths, ModuleVariants(LogicalPath(request))).None?
    ensures Resolve(idx, cwd, disk, dir, request) == Resolve(Index(idx.loadPaths, []), cwd, disk, dir, request)
  {
    var v := ModuleVariants(LogicalPath(request));
    assert FirstPick(IndexTier([]), idx.loadPaths, v).None?;
  }

  /** Every result is a candidate of the request under some load path, or
      the `.rb` candidate beside the requesting directory. */
  lemma ResolvedProvenance(idx: Index, cwd: string, disk: set<string>, dir: string, request: string)
    ensures var v := ModuleVariants(LogicalPath(request));
      var r := Resolve(idx, cwd, disk, dir, request);
      r.Some? ==>
        r.value == dir + v.rb ||
        exists i :: 0 <= i < |idx.loadPaths| &&
          (r.value == idx.loadPaths[i] + v.rb || (v.js.Some? && r.value == idx.loadPaths[i] + v.js.value))
  {
  }

  /** On an index miss, the first load path below `cwd` with an existing
      candidate decides the result, and the requesting directory is not
      consulted. */
  lemma LiveTierDecides(idx: Index, cwd: string, disk: set<string>, dir: string, request: string, i: int)
    requires var v := ModuleVariants(LogicalPath(request));
      && FirstPick(IndexTier(idx.entries), idx.loadPaths, v).None?
      && FirstHitAt(DiskTier(cwd, disk), idx.loadPaths, v, i)
    ensures Resolve(idx, cwd, disk, dir, request) ==
      Pick(DiskTier(cwd, disk), idx.loadPaths[i], ModuleVariants(LogicalPath(request)))
    ensures Resolve(idx, cwd, disk, dir, request) == Resolve(idx, cwd, disk, "", request)
  {
  }

  /** When neither load-path tier finds anything, only the `.rb` candidate
      beside the requesting directory can be returned. */
  lemma RequesterTierRubyOnly(idx: Index, cwd: string, disk: set<string>, dir: string, request: string)
    requires var v := ModuleVariants(LogicalPath(request));
      && FirstPick(IndexTier(idx.entries), idx.loadPaths, v).None?
      && FirstPick(DiskTier(cwd, disk), idx.loadPaths, v).None?
    ensures var v := ModuleVariants(LogicalPath(request));
      Resolve(idx, cwd, disk, dir, request).Some? <==> StartsWith(dir + v.rb, cwd) && dir + v.rb in disk
    ensures var v := ModuleVariants(LogicalPath(request));
      Resolve(idx, cwd, disk, dir, request).Some? ==> Resolve(idx, cwd, disk, dir, request).value == dir + v.rb
  {
  }

  /** An indexed module is found at its load path, provided no earlier load
      path has an indexed candidate for the request. */
  lemma IndexedModuleFound(idx: Index, cwd: string, disk: set<string>, dir: string, request: string, i: int)
    requires EndsWith(request, ".rb")
    requires 0 <= i < |idx.loadPaths| && idx.loadPaths[i] + LogicalPath(request) in idx.entries
    requires forall j :: 0 <= j < i ==> Pick(IndexTier(idx.entries), idx.loadPaths[j], ModuleVariants(LogicalPath(request))).None?
    ensures Resolve(idx, cwd, disk, dir, request) == Some(idx.loadPaths[i] + LogicalPath(request))
  {
    var m := LogicalPath(request);
    LogicalPathKeepsSuffix(request, ".rb");
    assert ModuleVariants(m).rb == m;
    IndexedTierFirst(idx, cwd, disk, dir, request, i);
  }

  /** The first loop of `get_absolute_path`: the index, load path by load
      path, `.rb` before `.js`. */
  method SearchIndex(loadPaths: seq<string>, entries: seq<string>, v: Variants) returns (r: Option<string>)
    ensures r == FirstPick(IndexTier(entries), loadPaths, v)
  {
    var i := 0;
    while i < |loadPaths|
      invariant 0 <= i <= |loadPaths|
      invariant FirstPick(IndexTier(entries), loadPaths, v) == FirstPick(IndexTier(entries), loadPaths[i..], v)
    {
      assert loadPaths[i..][0] == loadPaths[i] && loadPaths[i..][1..] == loadPaths[i + 1..];
      var f := loadPaths[i] + v.rb;
      if f in entries {
        return Some(f);
      }
      if v.js.Some? {
        f := loadPaths[i] + v.js.value;
        if f in entries {
          return Some(f);
        }
      }
      i := i + 1;
    }
    return None;
  }

  /** The second loop of `get_absolute_path`: the disk, for load paths that
      start with `cwd` only, `.rb` before `.js`. */
  method SearchDisk(loadPaths: seq<string>, cwd: string, disk: set<string>, v: Variants) returns (r: Option<string>)
    ensures r == FirstPick(DiskTier(cwd, disk), loadPaths, v)
  {
    var i := 0;
    while i < |loadPaths|
      invariant 0 <= i <= |loadPaths|
      invariant FirstPick(DiskTier(cwd, disk), loadPaths, v) == FirstPick(DiskTier(cwd, disk), loadPaths[i..], v)
    {
      assert loadPaths[i..][0] == loadPaths[i] && loadPaths[i..][1..] == loadPaths[i + 1..];
      if StartsWith(loadPaths[i], cwd) {
        var f := loadPaths[i] + v.rb;
        if f in disk {
          return Some(f);
        }
        if v.js.Some? {
          f := loadPaths[i] + v.js.value;
          if f in disk {
            return Some(f);
          }
        }
      }
      i := i + 1;
    }
    return None;
  }

  /** `get_absolute_path` as the source writes it: the two loops, then the
      check beside the requesting directory. */
  method GetAbsolutePath(idx: Index, cwd: string, disk: set<string>, dir: string, request: string)
    returns (r: Option<string>)
    ensures r == Resolve(idx, cwd, disk, dir, request)
    ensures r.Some? ==> r.value in idx.entries || (r.value in disk && StartsWith(r.value, cwd))
  {
    var v := ModuleVariants(LogicalPath(request));
    r := SearchIndex(idx.loadPaths, idx.entries, v);
    if r.Some? {
      return;
    }
    r := SearchDisk(idx.loadPaths, cwd, disk, v);
    if r.Some? {
      return;
    }
    var f := dir + v.rb;
    if StartsWith(f, cwd) {
      if f in disk {
        return Some(f);
      }
    }
    return None;
  }
}
