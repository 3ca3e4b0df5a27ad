/** The directory indexer (`get_directory_entries`, `get_load_path_entries`):
    a recursive walk that collects the `.rb` and `.js` regular files below a
    load path. The filesystem is a finite tree; `process.cwd()` is the
    parameter `cwd`. */
module Indexer {
  import opened Wrappers
  import opened Strings

  /** A filesystem object as `fstat` classifies it after following links:
      a directory with its entries in `readdir` order, a regular file, or
      anything else that opens without blocking (a device; a dangling link,
      which `existsSync` reports as missing). Sockets, on which `openSync`
      throws, and fifos, on which it blocks, are outside the model. */
  datatype Node = Dir(entries: seq<Entry>) | File | Other

  datatype Entry = Entry(name: string, node: Node)

  /** A directory entry name: non-empty and free of the path separator. */
  predicate ValidName(name: string) {
    name != "" && '/' !in name
  }

  /** Every directory lists valid, pairwise distinct names. */
  predicate WellFormed(n: Node)
    decreases n
  {
    match n
    case Dir(es) =>
      && (forall i :: 0 <= i < |es| ==> ValidName(es[i].name))
      && (forall i, j :: 0 <= i < j < |es| ==> es[i].name != es[j].name)
      && (forall i :: 0 <= i < |es| ==> WellFormed(es[i].node))
    case _ => true
  }

  /** The non-empty strings of `xs`, in order. */
  function NonEmpty(xs: seq<string>): seq<string>
    decreases |xs|
  {
    if |xs| == 0 then []
    else (if xs[0] == "" then [] else [xs[0]]) + NonEmpty(xs[1..])
  }

  /** The names along an absolute path; repeated and trailing separators are
      ignored. */
  function Components(path: string): seq<string> {
    NonEmpty(Split(path, '/'))
  }

  /** The first entry of a directory listing with the given name. */
  function ChildNamed(es: seq<Entry>, name: string): (r: Option<Node>)
    ensures r.Some? <==> exists i :: 0 <= i < |es| && es[i].name == name
    decreases |es|
  {
    if |es| == 0 then None
    else if es[0].name == name then Some(es[0].node)
    else ChildNamed(es[1..], name)
  }

  /** Follows a list of names down from `n`. */
  function Find(n: Node, names: seq<string>): Option<Node>
    decreases |names|
  {
    if |names| == 0 then Some(n)
    else match n
      case Dir(es) =>
        (match ChildNamed(es, names[0])
         case Some(c) => Find(c, names[1..])
         case None => None)
      case _ => None
  }

  /** The object an absolute path names in the filesystem `fs`, if any.
      `fs.existsSync(p)` holds when this is a `Dir` or a `File`; an `Other`
      object may also be a dangling link, which `existsSync` reports as
      missing, and the walk ignores `Other` objects either way. */
  function NodeAt(fs: Node, path: string): Option<Node> {
    Find(fs, Components(path))
  }

  /** The guards at the head of `get_directory_entries`: the path must be
      absolute, and unless `inApp` holds it must not start with `cwd`. */
  predicate Admitted(path: string, cwd: string, inApp: bool) {
    StartsWith(path, "/") && (inApp || !StartsWith(path, cwd))
  }

  /** `get_directory_entries(path, inApp)` for a path that exists and names
      `n`. Each sub-directory is walked by the same function, so the guards
      are applied again to every nested directory path. */
  function Walk(path: string, n: Node, cwd: string, inApp: bool): (r: seq<string>)
    ensures !Admitted(path, cwd, inApp) ==> r == []
    ensures !n.Dir? ==> r == []
    ensures forall i :: 0 <= i < |r| ==> HasSourceSuffix(r[i]) && StartsWith(r[i], path + "/")
    decreases n, 1
  {
    if !Admitted(path, cwd, inApp) then []
    else if n.Dir? then WalkFrom(path, n, cwd, inApp, 0)
    else []
  }

  /** The loop of `get_directory_entries` over the entries of `dir` from
      index `k` on, in listing order. */
  function WalkFrom(path: string, dir: Node, cwd: string, inApp: bool, k: nat): (r: seq<string>)
    requires dir.Dir? && k <= |dir.entries|
    ensures forall i :: 0 <= i < |r| ==> HasSourceSuffix(r[i]) && StartsWith(r[i], path + "/")
    decreases dir, 0, |dir.entries| - k
  {
    if k == |dir.entries| then []
    else
      EntryContribution(path, dir, cwd, inApp, k) + WalkFrom(path, dir, cwd, inApp, k + 1)
  }

  /** What the loop contributes for the `k`-th entry of `dir`: the walk of a
      sub-directory, a regular file with a handled suffix, or nothing. */
  function EntryContribution(path: string, dir: Node, cwd: string, inApp: bool, k: nat): (r: seq<string>)
    requires dir.Dir? && k < |dir.entries|
    ensures forall i :: 0 <= i < |r| ==> HasSourceSuffix(r[i]) && StartsWith(r[i], path + "/")
    decreases dir, 0, |dir.entries| - k - 1
  {
    var e := dir.entries[k];
    var child := path + "/" + e.name;
    var here :=
      match e.node
      case Dir(_) => Walk(child, e.node, cwd, inApp)
      case File => if HasSourceSuffix(child) then [child] else []
      case Other => [];
    PrefixesExtend(here, path + "/", e.name);
    here
  }

  /** Strings that start with `p + name + "/"` or equal `p + name` start with `p`. */
  lemma PrefixesExtend(xs: seq<string>, p: string, name: string)
    requires forall i :: 0 <= i < |xs| ==> StartsWith(xs[i], p + name + "/") || xs[i] == p + name
    ensures forall i :: 0 <= i < |xs| ==> StartsWith(xs[i], p)
  {
    forall i | 0 <= i < |xs| ensures StartsWith(xs[i], p) {
      if xs[i] == p + name {
        StartsWithExtend(p, name, p);
      } else {
        assert xs[i][..|p|] == (p + name + "/")[..|p|];
      }
    }
  }

  /** `get_directory_entries(path, inApp)`: the walk of whatever `path` names,
      and nothing when it names nothing. */
  function DirectoryEntries(fs: Node, path: string, cwd: string, inApp: bool): (r: seq<string>)
    ensures !StartsWith(path, "/") ==> r == []
    ensures !inApp && StartsWith(path, cwd) ==> r == []
    ensures NodeAt(fs, path).None? ==> r == []
    ensures forall i :: 0 <= i < |r| ==> HasSourceSuffix(r[i]) && StartsWith(r[i], path + "/")
  {
    match NodeAt(fs, path)
    case None => []
    case Some(n) => Walk(path, n, cwd, inApp)
  }

  // ---------------------------------------------------------------------
  // Path lookup

  lemma {:induction false} NonEmptyAppend(xs: seq<string>, ys: seq<string>)
    ensures NonEmpty(xs + ys) == NonEmpty(xs) + NonEmpty(ys)
    decreases |xs|
  {
    if |xs| > 0 {
      var head := if xs[0] == "" then [] else [xs[0]];
      assert (xs + ys)[0] == xs[0];
      assert (xs + ys)[1..] == xs[1..] + ys;
      NonEmptyAppend(xs[1..], ys);
      assert NonEmpty(xs + ys) == head + NonEmpty(xs[1..] + ys);
      assert NonEmpty(xs) == head + NonEmpty(xs[1..]);
    } else {
      assert xs + ys == ys;
    }
  }

  /** Appending `"/" + name` to a path appends `name` to its components. */
  lemma ChildComponents(path: string, name: string)
    requires ValidName(name)
    ensures Components(path + "/" + name) == Components(path) + [name]
  {
    assert path + "/" + name == path + ['/'] + name;
    SplitConcat(path, name, '/');
    SplitNoSeparator(name, '/');
    NonEmptyAppend(Split(path, '/'), [name]);
  }

  lemma {:induction false} FindSnoc(n: Node, names: seq<string>, name: string)
    ensures Find(n, names + [name]) ==
      match Find(n, names)
      case Some(Dir(es)) => ChildNamed(es, name)
      case _ => None
    decreases |names|
  {
    if |names| == 0 {
      assert Find(n, [name]) == match n case Dir(es) => ChildNamed(es, name) case _ => None by {
        match n
        case Dir(es) => {
          match ChildNamed(es, name)
          case Some(c) => assert Find(c, []) == Some(c);
          case None =>
        }
        case _ =>
      }
    } else {
      assert (names + [name])[0] == names[0];
      assert (names + [name])[1..] == names[1..] + [name];
      match n
      case Dir(es) => {
        match ChildNamed(es, names[0])
        case Some(c) => FindSnoc(c, names[1..], name);
        case None =>
      }
      case _ =>
    }
  }

  /** In a directory with distinct names, looking a listed name up finds its entry. */
  lemma {:induction false} ChildNamedDistinct(es: seq<Entry>, k: nat)
    requires k < |es|
    requires forall i, j :: 0 <= i < j < |es| ==> es[i].name != es[j].name
    ensures ChildNamed(es, es[k].name) == Some(es[k].node)
    decreases k
  {
    if k > 0 {
      assert es[0].name != es[k].name;
      assert es[1..][k - 1] == es[k];
      ChildNamedDistinct(es[1..], k - 1);
    }
  }

  lemma ChildNamedWellFormed(es: seq<Entry>, name: string)
    requires forall i :: 0 <= i < |es| ==> WellFormed(es[i].node)
    ensures ChildNamed(es, name).Some? ==> WellFormed(ChildNamed(es, name).value)
    decreases |es|
  {
    if |es| > 0 && es[0].name != name {
      assert forall i :: 0 <= i < |es[1..]| ==> es[1..][i] == es[i + 1];
      ChildNamedWellFormed(es[1..], name);
    }
  }

  /** Every object found in a well-formed tree is well formed. */
  lemma {:induction false} FindWellFormed(n: Node, names: seq<string>)
    requires WellFormed(n)
    ensures Find(n, names).Some? ==> WellFormed(Find(n, names).value)
    decreases |names|
  {
    if |names| > 0 && n.Dir? {
      ChildNamedWellFormed(n.entries, names[0]);
      match ChildNamed(n.entries, names[0])
      case Some(c) => FindWellFormed(c, names[1..]);
      case None =>
    }
  }

  /** The `k`-th entry of the directory at `path` is found at
      `path + "/" + name` — the path `get_directory_entries` builds for it. */
  lemma EntryPath(fs: Node, path: string, k: nat)
    requires WellFormed(fs)
    requires NodeAt(fs, path).Some? && NodeAt(fs, path).value.Dir?
    requires k < |NodeAt(fs, path).value.entries|
    ensures var e := NodeAt(fs, path).value.entries[k];
      NodeAt(fs, path + "/" + e.name) == Some(e.node) && WellFormed(e.node)
  {
    var dir := NodeAt(fs, path).value;
    FindWellFormed(fs, Components(path));
    var e := dir.entries[k];
    ChildComponents(path, e.name);
    FindSnoc(fs, Components(path), e.name);
    ChildNamedDistinct(dir.entries, k);
  }

  // ---------------------------------------------------------------------
  // Properties of the walk

  /** Walking the child node directly agrees with `get_directory_entries`
      looking the child's path up again, which is what the source does. */
  lemma SubdirectoryWalkAgrees(fs: Node, path: string, k: nat, cwd: string, inApp: bool)
    requires WellFormed(fs)
    requires NodeAt(fs, path).Some? && NodeAt(fs, path).value.Dir?
    requires k < |NodeAt(fs, path).value.entries|
    ensures var e := NodeAt(fs, path).value.entries[k];
      Walk(path + "/" + e.name, e.node, cwd, inApp) == DirectoryEntries(fs, path + "/" + e.name, cwd, inApp)
  {
    EntryPath(fs, path, k);
  }

  /** Every indexed path names a regular file. */
  lemma {:induction false} WalkYieldsFiles(fs: Node, path: string, n: Node, cwd: string, inApp: bool)
    requires WellFormed(fs) && NodeAt(fs, path) == Some(n)
    ensures forall i :: 0 <= i < |Walk(path, n, cwd, inApp)| ==>
      NodeAt(fs, Walk(path, n, cwd, inApp)[i]) == Some(File)
    decreases n, 1
  {
    if Admitted(path, cwd, inApp) && n.Dir? {
      WalkFromYieldsFiles(fs, path, n, cwd, inApp, 0);
    }
  }

  lemma {:induction false} WalkFromYieldsFiles(fs: Node, path: string, dir: Node, cwd: string, inApp: bool, k: nat)
    requires WellFormed(fs) && NodeAt(fs, path) == Some(dir)
    requires dir.Dir? && k <= |dir.entries|
    ensures forall i :: 0 <= i < |WalkFrom(path, dir, cwd, inApp, k)| ==>
      NodeAt(fs, WalkFrom(path, dir, cwd, inApp, k)[i]) == Some(File)
    decreases dir, 0, |dir.entries| - k
  {
    if k < |dir.entries| {
      var e := dir.entries[k];
      var child := path + "/" + e.name;
      EntryPath(fs, path, k);
      WalkFromYieldsFiles(fs, path, dir, cwd, inApp, k + 1);
      match e.node
      case Dir(_) =>
        WalkYieldsFiles(fs, child, e.node, cwd, inApp);
        assert EntryContribution(path, dir, cwd, inApp, k) == Walk(child, e.node, cwd, inApp);
      case File =>
        assert EntryContribution(path, dir, cwd, inApp, k) == if HasSourceSuffix(child) then [child] else [];
      case Other =>
        assert EntryContribution(path, dir, cwd, inApp, k) == [];
    }
  }

  /** Every path `get_directory_entries` returns names a regular file of the tree. */
  lemma DirectoryEntriesAreFiles(fs: Node, path: string, cwd: string, inApp: bool)
    requires WellFormed(fs)
    ensures forall i :: 0 <= i < |DirectoryEntries(fs, path, cwd, inApp)| ==>
      NodeAt(fs, DirectoryEntries(fs, path, cwd, inApp)[i]) == Some(File)
  {
    match NodeAt(fs, path)
    case Some(n) => WalkYieldsFiles(fs, path, n, cwd, inApp);
    case None =>
  }

  lemma {:induction false} WalkFromIncludes(path: string, dir: Node, cwd: string, inApp: bool, k: nat, j: nat, x: string)
    requires dir.Dir? && k <= j < |dir.entries|
    requires x in EntryContribution(path, dir, cwd, inApp, j)
    ensures x in WalkFrom(path, dir, cwd, inApp, k)
    decreases j - k
  {
    if k < j {
      WalkFromIncludes(path, dir, cwd, inApp, k + 1, j, x);
    }
  }

  /** A regular `.rb`/`.js` file listed directly in an admitted directory is indexed. */
  lemma ListedFileIndexed(path: string, dir: Node, cwd: string, inApp: bool, k: nat)
    requires Admitted(path, cwd, inApp)
    requires dir.Dir? && k < |dir.entries| && dir.entries[k].node == File
    requires HasSourceSuffix(path + "/" + dir.entries[k].name)
    ensures path + "/" + dir.entries[k].name in Walk(path, dir, cwd, inApp)
  {
    WalkFromIncludes(path, dir, cwd, inApp, 0, k, path + "/" + dir.entries[k].name);
  }

  /** Everything indexed below a sub-directory is indexed for its parent. */
  lemma SubdirectoryIndexed(path: string, dir: Node, cwd: string, inApp: bool, k: nat, x: string)
    requires Admitted(path, cwd, inApp)
    requires dir.Dir? && k < |dir.entries| && dir.entries[k].node.Dir?
    requires x in Walk(path + "/" + dir.entries[k].name, dir.entries[k].node, cwd, inApp)
    ensures x in Walk(path, dir, cwd, inApp)
  {
    WalkFromIncludes(path, dir, cwd, inApp, 0, k, x);
  }

  // ---------------------------------------------------------------------
  // The index over all load paths

  /** `get_load_path_entries(loadPaths)`: the walks of the load paths
      concatenated in load-path order, every walk with `inApp` false. */
  function LoadPathEntries(fs: Node, loadPaths: seq<string>, cwd: string): (r: seq<string>)
    ensures forall i :: 0 <= i < |r| ==> HasSourceSuffix(r[i])
    decreases |loadPaths|
  {
    if |loadPaths| == 0 then []
    else DirectoryEntries(fs, loadPaths[0], cwd, false) + LoadPathEntries(fs, loadPaths[1..], cwd)
  }

  /** A path is indexed exactly when the walk of some load path yields it. */
  lemma {:induction false} LoadPathEntriesMembership(fs: Node, loadPaths: seq<string>, cwd: string, x: string)
    ensures x in LoadPathEntries(fs, loadPaths, cwd) <==>
      (exists j :: 0 <= j < |loadPaths| && x in DirectoryEntries(fs, loadPaths[j], cwd, false))
    decreases |loadPaths|
  {
    if |loadPaths| > 0 {
      var rest := loadPaths[1..];
      LoadPathEntriesMembership(fs, rest, cwd, x);
      if x in LoadPathEntries(fs, rest, cwd) {
        var j :| 0 <= j < |rest| && x in DirectoryEntries(fs, rest[j], cwd, false);
        assert rest[j] == loadPaths[j + 1];
      }
      if j :| 0 <= j < |loadPaths| && x in DirectoryEntries(fs, loadPaths[j], cwd, false) {
        if j > 0 {
          assert rest[j - 1] == loadPaths[j];
        }
      }
    }
  }

  /** Every indexed path lies below a load path that does not start with the
      working directory. */
  lemma IndexedUnderExternalLoadPath(fs: Node, loadPaths: seq<string>, cwd: string, x: string)
    requires x in LoadPathEntries(fs, loadPaths, cwd)
    ensures exists j :: 0 <= j < |loadPaths| && !StartsWith(loadPaths[j], cwd) && StartsWith(x, loadPaths[j] + "/")
  {
    LoadPathEntriesMembership(fs, loadPaths, cwd, x);
    var j :| 0 <= j < |loadPaths| && x in DirectoryEntries(fs, loadPaths[j], cwd, false);
  }

  /** Every indexed path names a regular file of the tree. */
  lemma {:induction false} LoadPathEntriesAreFiles(fs: Node, loadPaths: seq<string>, cwd: string)
    requires WellFormed(fs)
    ensures forall i :: 0 <= i < |LoadPathEntries(fs, loadPaths, cwd)| ==>
      NodeAt(fs, LoadPathEntries(fs, loadPaths, cwd)[i]) == Some(File)
    decreases |loadPaths|
  {
    if |loadPaths| > 0 {
      LoadPathEntriesAreFiles(fs, loadPaths[1..], cwd);
      DirectoryEntriesAreFiles(fs, loadPaths[0], cwd, false);
    }
  }

  /** The index of a concatenation of load-path lists is the concatenation
      of their indexes. */
  lemma {:induction false} LoadPathEntriesConcat(fs: Node, a: seq<string>, b: seq<string>, cwd: string)
    ensures LoadPathEntries(fs, a + b, cwd) == LoadPathEntries(fs, a, cwd) + LoadPathEntries(fs, b, cwd)
    decreases |a|
  {
    if |a| == 0 {
      assert a + b == b;
    } else {
      assert (a + b)[0] == a[0];
      assert (a + b)[1..] == a[1..] + b;
      LoadPathEntriesConcat(fs, a[1..], b, cwd);
    }
  }

  /** A load path below the working directory adds nothing to the index:
      dropping it leaves the index unchanged. */
  lemma AppLoadPathsNotIndexed(fs: Node, before: seq<string>, lp: string, after: seq<string>, cwd: string)
    requires StartsWith(lp, cwd)
    ensures LoadPathEntries(fs, before + [lp] + after, cwd) == LoadPathEntries(fs, before + after, cwd)
  {
    var tail := [lp] + after;
    assert tail[0] == lp && tail[1..] == after;
    assert DirectoryEntries(fs, lp, cwd, false) == [];
    assert LoadPathEntries(fs, tail, cwd) == LoadPathEntries(fs, after, cwd);
    LoadPathEntriesConcat(fs, before, tail, cwd);
    LoadPathEntriesConcat(fs, before, after, cwd);
    assert before + [lp] + after == before + tail;
  }

  /** The inner loop of `get_load_path_entries`: pushes the entries of one
      walk onto the accumulated index, one by one, in order. */
  method PushAll(acc: seq<string>, items: seq<string>) returns (r: seq<string>)
    ensures r == acc + items
  {
    r := acc;
    var k := 0;
    while k < |items|
      invariant 0 <= k <= |items|
      invariant r == acc + items[..k]
    {
      r := r + [items[k]];
      k := k + 1;
    }
    assert items[..k] == items;
  }

  /** The outer loop of `get_load_path_entries`: one walk per load path,
      with `inApp` false, in load-path order. */
  method CollectLoadPathEntries(fs: Node, loadPaths: seq<string>, cwd: string) returns (entries: seq<string>)
    ensures entries == LoadPathEntries(fs, loadPaths, cwd)
  {
    entries := [];
    var i := 0;
    while i < |loadPaths|
      invariant 0 <= i <= |loadPaths|
      invariant entries == LoadPathEntries(fs, loadPaths[..i], cwd)
    {
      var dirEntries := DirectoryEntries(fs, loadPaths[i], cwd, false);
      entries := PushAll(entries, dirEntries);
      LoadPathEntriesConcat(fs, loadPaths[..i], [loadPaths[i]], cwd);
      assert loadPaths[..i] + [loadPaths[i]] == loadPaths[..i + 1];
      assert [loadPaths[i]][1..] == [];
      i := i + 1;
    }
    assert loadPaths[..i] == loadPaths;
  }
}
