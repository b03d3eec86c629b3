/**
 * `TextUpdater`: the line-array adapter. A file is split on its detected line
 * ending, plugins edit the list of lines, and the lines are joined back with
 * that ending plus one trailing terminator.
 */
module TextUpdater {
  import opened Optional
  import opened Strings
  import Pipeline

  /** The adapter's only state: the line ending of the file it converted last. */
  datatype TextUpdater = TextUpdater(eol: string)

  /** The extensions the `match()` pattern lists (its spelling, "browserlistrc" included). */
  const Extensions: seq<string> :=
    ["browserlistrc", "editorconfig", "gitignore", "yml", "yaml", "npmrc", "nvmrc",
     "js", "mjs", "md", "txt", "css", "scss"]

  /** The constructor: before any conversion, `eol` is the platform's default line ending. */
  function Create(platformEol: string): (t: TextUpdater)
    ensures t.eol == platformEol
  {
    TextUpdater(platformEol)
  }

  /**
   * The `match()` pattern matched starting at index `i` and running to the end
   * of the path: "." and a listed extension, or, from the start, a path with no '.'.
   */
  predicate MatchesAt(path: string, i: nat) {
    i <= |path| && ((exists e :: e in Extensions && path[i..] == "." + e) || (i == 0 && '.' !in path))
  }

  /** `supports(path)`: the pattern matches somewhere in the path. */
  predicate Supports(path: string) {
    Pipeline.Supports(MatchesAt, path)
  }

  /** The text adapter takes a path that ends in ".<listed extension>" or has no '.' at all. */
  lemma SupportsIff(path: string)
    ensures Supports(path) <==> (exists e :: e in Extensions && EndsWith(path, "." + e)) || '.' !in path
  {
    if exists e :: e in Extensions && EndsWith(path, "." + e) {
      var e :| e in Extensions && EndsWith(path, "." + e);
      assert MatchesAt(path, |path| - |"." + e|);
    }
    if '.' !in path {
      assert MatchesAt(path, 0);
    }
    if Supports(path) {
      var i :| 0 <= i <= |path| && MatchesAt(path, i);
      if exists e :: e in Extensions && path[i..] == "." + e {
        var e :| e in Extensions && path[i..] == "." + e;
        assert EndsWith(path, "." + e);
      }
    }
  }

  /** How each listed extension ends: never like "json", "ts" or (when long enough) "html". */
  lemma ExtensionEnding(k: nat)
    requires k < |Extensions|
    ensures var e := Extensions[k];
            && |e| >= 2
            && e[|e| - 1] != 'n'
            && (e[|e| - 1] != 's' || e[|e| - 2] != 't')
            && (|e| >= 4 ==> e[|e| - 1] != 'l' || e[|e| - 2] != 'm' || e[|e| - 3] != 't' || e[|e| - 4] != 'h')
  {
  }

  /** A path ending in ".json", ".ts" or ".html" does not end in any listed extension. */
  lemma NoSharedEnding(path: string, tail: string, k: nat)
    requires k < |Extensions|
    requires tail == ".json" || tail == ".ts" || tail == ".html"
    requires EndsWith(path, tail)
    ensures !EndsWith(path, "." + Extensions[k])
  {
    var e := Extensions[k];
    var x := "." + e;
    ExtensionEnding(k);
    assert x[1..] == e;
    assert x[0] == '.';
    // the distance from the end at which `tail` and `x` disagree
    var j: nat :=
      if tail == ".json" || e[|e| - 1] != tail[|tail| - 1] then 0
      else if tail == ".ts" || e[|e| - 2] != tail[|tail| - 2] then 1
      else if |e| < 4 then |e|
      else if e[|e| - 3] != 't' then 2
      else 3;
    EndingsDiffer(path, tail, x, j);
  }

  /** JSON, TypeScript and HTML files are left to the other adapters. */
  lemma NotForOtherFormats(path: string)
    requires EndsWith(path, ".json") || EndsWith(path, ".ts") || EndsWith(path, ".html")
    ensures !Supports(path)
  {
    SupportsIff(path);
    var tail := if EndsWith(path, ".json") then ".json" else if EndsWith(path, ".ts") then ".ts" else ".html";
    assert path[|path| - |tail|] == tail[0] == '.';
    forall e | e in Extensions
      ensures !EndsWith(path, "." + e)
    {
      var k :| 0 <= k < |Extensions| && Extensions[k] == e;
      NoSharedEnding(path, tail, k);
    }
  }

  /** `convertToNode(src)`: record the detected line ending, then split on it. */
  function ConvertToNode(t: TextUpdater, src: string, getEol: string -> string): (r: (TextUpdater, seq<string>))
    requires |getEol(src)| > 0
    ensures r.0.eol == getEol(src)
    ensures |r.1| == Occurrences(src, getEol(src)) + 1
    ensures forall k :: 0 <= k < |r.1| ==> !Contains(r.1[k], getEol(src))
    ensures Join(r.1, getEol(src)) == src
  {
    var eol := getEol(src);
    SplitCount(src, eol);
    JoinSplit(src, eol);
    (TextUpdater(eol), Split(src, eol))
  }

  /** `convertFromNode(lines)`: join with the current line ending and end with one more. */
  function ConvertFromNode(t: TextUpdater, lines: seq<string>): string {
    Join(lines, t.eol) + t.eol
  }

  /** Converting a file to lines and back gives the file plus one trailing line ending. */
  lemma RoundTrip(t: TextUpdater, src: string, getEol: string -> string)
    requires |getEol(src)| > 0
    ensures var (t1, lines) := ConvertToNode(t, src, getEol);
            ConvertFromNode(t1, lines) == src + getEol(src)
  {
  }

  /**
   * Splitting what `convertFromNode` wrote, on a line ending that cannot
   * overlap itself, gives the lines back followed by one empty line.
   */
  lemma FromNodeThenSplit(t: TextUpdater, lines: seq<string>)
    requires |t.eol| > 0 && Borderless(t.eol)
    requires |lines| > 0
    requires forall k :: 0 <= k < |lines| ==> !Contains(lines[k], t.eol)
    ensures Split(ConvertFromNode(t, lines), t.eol) == lines + [""]
  {
    var all := lines + [""];
    forall k | 0 <= k < |all|
      ensures !Contains(all[k], t.eol)
    {
      if k == |lines| {
        assert all[k] == "";
      }
    }
    JoinSnoc(lines, t.eol);
    SplitJoin(all, t.eol);
  }

  lemma {:induction false} JoinSnoc(lines: seq<string>, sep: string)
    requires |lines| > 0
    ensures Join(lines + [""], sep) == Join(lines, sep) + sep
    decreases |lines|
  {
    if |lines| == 1 {
      assert (lines + [""])[1..] == [""];
    } else {
      assert (lines + [""])[1..] == lines[1..] + [""];
      JoinSnoc(lines[1..], sep);
    }
  }

  /**
   * `update` for text: the base pipeline with the detected line ending as both
   * the split and the join separator. The adapter keeps that line ending.
   */
  function Update<E>(t: TextUpdater, src: string, getEol: string -> string,
                     plugins: seq<seq<string> -> Pipeline.Step<seq<string>, E>>, landing: Option<nat>)
    : (r: (TextUpdater, Pipeline.Updated<E>))
    requires |getEol(src)| > 0
    ensures r.0.eol == getEol(src)
    ensures var eol := getEol(src);
            var run := Pipeline.RunPlugins(Split(src, eol), plugins);
            && r.1.effects + (if r.1.late.Some? then r.1.late.value else []) == run.effects
            && (r.1.late.Some? <==> Pipeline.Reaches(Split(src, eol), plugins, landing))
            && (run.node.None? ==> r.1.text == "")
            && (run.node.Some? ==>
                  r.1.text == (if Join(run.node.value, eol) == src then src else Join(run.node.value, eol) + eol))
  {
    var eol := getEol(src);
    var (t1, _) := ConvertToNode(t, src, getEol);
    var parse := (s: string) => Split(s, eol);
    var serialize := (lines: seq<string>) => ConvertFromNode(t1, lines);
    JoinSplit(src, eol);
    assert serialize(parse(src)) == src + eol;
    forall lines: seq<string> | serialize(lines) == serialize(parse(src))
      ensures Join(lines, eol) == src
    {
      assert serialize(lines) == Join(lines, eol) + eol;
      assert (Join(lines, eol) + eol)[..|Join(lines, eol)|] == Join(lines, eol);
      assert (src + eol)[..|src|] == src;
    }
    (t1, Pipeline.Update(src, parse, serialize, plugins, landing))
  }

  /**
   * The line ending an adapter holds before `update` (the platform's, from
   * the constructor) never reaches the result: `convertToNode` replaces it
   * before anything is serialised.
   */
  lemma StartingEolIrrelevant<E>(t1: TextUpdater, t2: TextUpdater, src: string, getEol: string -> string,
                                 plugins: seq<seq<string> -> Pipeline.Step<seq<string>, E>>, landing: Option<nat>)
    requires |getEol(src)| > 0
    ensures Update(t1, src, getEol, plugins, landing) == Update(t2, src, getEol, plugins, landing)
  {
  }

  /**
   * A text file whose plugins all answer `void` without editing the lines
   * comes back byte for byte, trailing line ending or not.
   */
  lemma UntouchedTextIsVerbatim<E>(t: TextUpdater, src: string, getEol: string -> string,
                                   plugins: seq<seq<string> -> Pipeline.Step<seq<string>, E>>, landing: Option<nat>)
    requires |getEol(src)| > 0
    requires forall k :: 0 <= k < |plugins| ==>
               plugins[k](Split(src, getEol(src))).verdict == Pipeline.Kept(Split(src, getEol(src)))
    ensures Update(t, src, getEol, plugins, landing).1.text == src
  {
    Pipeline.AllUnchangedKeepsNode(Split(src, getEol(src)), plugins);
  }

  /**
   * The file `notes` holding "a", CRLF, "b" and a plugin appending the line
   * "c" give "a", CRLF, "b", CRLF, "c", CRLF.
   */
  lemma AppendLineScenario<E>(t: TextUpdater, getEol: string -> string)
    requires getEol("a\r\nb") == "\r\n"
    ensures var append: seq<string> -> Pipeline.Step<seq<string>, E> :=
              lines => Pipeline.Step(Pipeline.Replace(lines + ["c"]), []);
            Update(t, "a\r\nb", getEol, [append], None).1.text == "a\r\nb\r\nc\r\n"
  {
    var append: seq<string> -> Pipeline.Step<seq<string>, E> :=
      lines => Pipeline.Step(Pipeline.Replace(lines + ["c"]), []);
    LineEndingsBorderless();
    assert Join(["a", "b"], "\r\n") == "a\r\nb";
    SplitJoin(["a", "b"], "\r\n");
    assert Split("a\r\nb", "\r\n") == ["a", "b"];
    Pipeline.RunOne(["a", "b"], append);
    assert ["a", "b"] + ["c"] == ["a", "b", "c"];
    assert Pipeline.RunPlugins(["a", "b"], [append]).node == Some(["a", "b", "c"]);
    assert Join(["a", "b", "c"], "\r\n") == "a\r\nb\r\nc";
    assert |"a\r\nb\r\nc"| != |"a\r\nb"|;
    assert "a\r\nb\r\nc" + "\r\n" == "a\r\nb\r\nc\r\n";
  }

  /**
   * A plugin that pushes the line "c" onto the array it is given and returns
   * nothing changes the file too: "a", LF, "b" becomes "a", LF, "b", LF, "c", LF.
   */
  lemma InPlaceEditScenario<E>(t: TextUpdater, getEol: string -> string)
    requires getEol("a\nb") == "\n"
    ensures var push: seq<string> -> Pipeline.Step<seq<string>, E> :=
              lines => Pipeline.Step(Pipeline.Kept(lines + ["c"]), []);
            Update(t, "a\nb", getEol, [push], None).1.text == "a\nb\nc\n"
  {
    var push: seq<string> -> Pipeline.Step<seq<string>, E> :=
      lines => Pipeline.Step(Pipeline.Kept(lines + ["c"]), []);
    LineEndingsBorderless();
    assert Join(["a", "b"], "\n") == "a\nb";
    forall line | line == "a" || line == "b"
      ensures !Contains(line, "\n")
    {
      forall i: nat
        ensures !OccursAt(line, "\n", i)
      {
        if i == 0 {
          assert line[0..1][0] != '\n';
        }
      }
    }
    SplitJoin(["a", "b"], "\n");
    assert Split("a\nb", "\n") == ["a", "b"];
    Pipeline.RunOne(["a", "b"], push);
    assert ["a", "b"] + ["c"] == ["a", "b", "c"];
    assert Pipeline.RunPlugins(["a", "b"], [push]).node == Some(["a", "b", "c"]);
    assert Join(["a", "b", "c"], "\n") == "a\nb\nc";
    assert |"a\nb\nc"| != |"a\nb"|;
    assert "a\nb\nc" + "\n" == "a\nb\nc\n";
  }
}
