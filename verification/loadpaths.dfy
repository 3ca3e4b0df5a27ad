/** Parsing of the load-path listing printed by the Ruby toolchain
    (`get_load_paths`): one absolute directory per line. Running the external
    process is not modelled; its standard output is the input here. */
module LoadPaths {
  import opened Strings

  /** Splits the listing into lines and drops one trailing empty line, the
      artifact of newline-terminated output. Lines are neither trimmed nor
      deduplicated. */
  function ParseLoadPaths(output: string): (paths: seq<string>)
    ensures forall i :: 0 <= i < |paths| ==> '\n' !in paths[i]
    ensures output == "" ==> paths == []
    ensures EndsWith(output, "\n") ==> Join(paths, '\n') + "\n" == output
    ensures !EndsWith(output, "\n") ==> Join(paths, '\n') == output
    ensures |paths| == Occurrences(output, '\n') + (if output == "" || EndsWith(output, "\n") then 0 else 1)
  {
    var lines := Split(output, '\n');
    TerminatedOutput(output);
    if lines[|lines| - 1] == "" then lines[..|lines| - 1] else lines
  }

  /** The facts about `split` that the parser's contract rests on. */
  lemma TerminatedOutput(output: string)
    ensures var lines := Split(output, '\n');
      && (lines[|lines| - 1] == "" <==> output == "" || EndsWith(output, "\n"))
      && Join(lines, '\n') == output
      && (EndsWith(output, "\n") ==> Join(lines[..|lines| - 1], '\n') + "\n" == output)
  {
    var lines := Split(output, '\n');
    SplitLastEmpty(output, '\n');
    JoinSplit(output, '\n');
    if EndsWith(output, "\n") {
      var a := output[..|output| - 1];
      assert output == a + ['\n'] + "";
      SplitConcat(a, "", '\n');
      JoinSplit(a, '\n');
      assert lines[..|lines| - 1] == Split(a, '\n');
    }
  }

  /** Parsing is the inverse of printing each line followed by a newline
      (Ruby's `puts` of a list of paths). */
  lemma ParsePrinted(lines: seq<string>)
    requires |lines| >= 1
    requires forall i :: 0 <= i < |lines| ==> '\n' !in lines[i]
    ensures ParseLoadPaths(Join(lines, '\n') + "\n") == lines
  {
    var out := Join(lines, '\n') + "\n";
    SplitConcat(Join(lines, '\n'), "", '\n');
    assert out == Join(lines, '\n') + ['\n'] + "";
    SplitJoin(lines, '\n');
  }
}
