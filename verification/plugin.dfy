/** The resolve-hook callback registered by `apply`: which requests the
    plugin handles and what it hands back to the resolver pipeline. */
module Plugin {
  import opened Wrappers
  import opened Strings
  import opened Resolver

  /** A resolver request: the requesting directory (`path`), the specifier
      (`request`) and every other field the pipeline attached to it. */
  datatype Request = Request(path: string, request: string, fields: map<string, string>)

  /** The two ways the callback is invoked: with no arguments, which lets the
      pipeline continue with the request unchanged, or with `(null, result)`. */
  datatype Outcome = Declined | Rewritten(result: Request)

  /** The callback body. The result of `get_absolute_path` is tested for
      truthiness, which rejects the empty string as well as `null`. */
  function Handle(idx: Index, cwd: string, disk: set<string>, req: Request): (o: Outcome)
    ensures !HasSourceSuffix(req.request) ==> o == Declined
    ensures o.Rewritten? <==> HasSourceSuffix(req.request) && Resolve(idx, cwd, disk, req.path, req.request).Some?
    ensures o.Rewritten? ==> o.result == req.(path := o.result.path)
    ensures o.Rewritten? ==> Some(o.result.path) == Resolve(idx, cwd, disk, req.path, req.request)
  {
    if HasSourceSuffix(req.request) then
      var found := Resolve(idx, cwd, disk, req.path, req.request);
      if found.Some? && found.value != "" then Rewritten(req.(path := found.value))
      else Declined
    else Declined
  }

  /** A request the plugin does not handle is declined whatever the index,
      the working directory and the disk hold: nothing is looked up. */
  lemma UnhandledIgnoresState(idx1: Index, cwd1: string, disk1: set<string>,
                              idx2: Index, cwd2: string, disk2: set<string>, req: Request)
    requires !HasSourceSuffix(req.request)
    ensures Handle(idx1, cwd1, disk1, req) == Handle(idx2, cwd2, disk2, req)
  {
  }

  /** A rewritten request names an existing-or-indexed `.rb`/`.js` file and
      keeps the specifier and every other field. */
  lemma RewrittenFacts(idx: Index, cwd: string, disk: set<string>, req: Request)
    requires Handle(idx, cwd, disk, req).Rewritten?
    ensures var res := Handle(idx, cwd, disk, req).result;
      && res.request == req.request
      && res.fields == req.fields
      && HasSourceSuffix(res.path)
      && (res.path in idx.entries || (res.path in disk && StartsWith(res.path, cwd)))
  {
  }
}
