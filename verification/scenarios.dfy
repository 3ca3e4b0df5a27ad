/** Worked examples: facts about the model on small concrete inputs. */
module Scenarios {
  import opened Wrappers
  import opened Strings
  import opened LoadPaths
  import opened Resolver
  import opened Plugin

  /** `./foo.rb` required from `/app/src` is found in the index under the
      gem load path `/gems/lib`; only `path` changes in the request. */
  lemma IndexedGemFile()
    ensures Handle(Index(["/gems/lib"], ["/gems/lib/foo.rb"]), "/app", {},
                   Request("/app/src", "./foo.rb", map["context" := "x"]))
         == Rewritten(Request("/gems/lib/foo.rb", "./foo.rb", map["context" := "x"]))
  {
    var idx := Index(["/gems/lib"], ["/gems/lib/foo.rb"]);
    assert EndsWith("./foo.rb", ".rb");
    assert LogicalPath("./foo.rb") == "/foo.rb" by {
      assert StartsWith("./foo.rb", "./");
    }
    RubyModuleVariants("/foo");
    assert "/gems/lib" + "/foo.rb" == "/gems/lib/foo.rb";
    IndexedTierFirst(idx, "/app", {}, "/app/src", "./foo.rb", 0);
  }

  /** `bar.js` with nothing indexed and nothing on disk is declined. */
  lemma NothingFound()
    ensures Handle(Index(["/gems/lib"], []), "/app", {}, Request("/app/src", "bar.js", map[])) == Declined
  {
  }

  /** A file created under an application load path after the index was
      built is found by the live tier. */
  lemma LiveTierFindsNewFile()
    ensures Resolve(Index(["/app/assets"], []), "/app", {"/app/assets/new.rb"}, "/app/src", "new.rb")
         == Some("/app/assets/new.rb")
  {
    assert LogicalPath("new.rb") == "/new.rb" by {
      assert "new.rb"[0] == 'n';
    }
    RubyModuleVariants("/new");
    assert StartsWith("/app/assets", "/app");
    assert "/app/assets" + "/new.rb" == "/app/assets/new.rb";
  }

  /** Newline-terminated toolchain output parses into its lines. */
  lemma ParseTwoLines()
    ensures ParseLoadPaths("/a\n/b\n") == ["/a", "/b"]
  {
    assert Join(["/a", "/b"], '\n') + "\n" == "/a\n/b\n";
    ParsePrinted(["/a", "/b"]);
  }
}
