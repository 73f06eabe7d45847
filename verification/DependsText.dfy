/** The `META/depends.txt` member of a package: written by `pack`, read by `read_meta`. */
module DependsText {
  import opened Wrappers
  import Text

  datatype Depends = Depends(build: seq<string>, runtime: seq<string>)

  const NOTHING: Depends := Depends([], [])

  // ----- writing -----

  function Labelled(kind: string, deps: seq<string>): (lines: seq<string>)
    ensures |lines| == |deps|
    ensures forall i :: 0 <= i < |deps| ==> lines[i] == kind + " " + deps[i]
  {
    if deps == [] then [] else [kind + " " + deps[0]] + Labelled(kind, deps[1..])
  }

  /** Pushing one more line of a kind onto the text. */
  lemma PushLine(before: seq<string>, kind: string, deps: seq<string>, n: nat)
    requires n < |deps|
    ensures Text.Unlines(before + Labelled(kind, deps[..n + 1])) ==
              Text.Unlines(before + Labelled(kind, deps[..n])) + (kind + " " + deps[n] + "\n")
  {
    hide Text.Unlines;
    var line := kind + " " + deps[n];
    Text.UnlinesSnoc(before + Labelled(kind, deps[..n]), line);
    assert before + Labelled(kind, deps[..n]) + [line] == before + Labelled(kind, deps[..n + 1]);
  }

  function Written(d: Depends): string {
    Text.Unlines(Labelled("build:", d.build) + Labelled("runtime:", d.runtime))
  }

  /** `add_meta_depends`. */
  method AddMetaDepends(d: Depends) returns (content: string)
    ensures content == Written(d)
  {
    hide Labelled;
    content := "";
    for i := 0 to |d.build|
      invariant content == Text.Unlines([] + Labelled("build:", d.build[..i]))
    {
      PushLine([], "build:", d.build, i);
      content := content + ("build:" + " " + d.build[i] + "\n");
    }
    ghost var builds := Labelled("build:", d.build);
    assert d.build[..|d.build|] == d.build;
    assert [] + builds == builds + Labelled("runtime:", d.runtime[..0]);
    for i := 0 to |d.runtime|
      invariant content == Text.Unlines(builds + Labelled("runtime:", d.runtime[..i]))
    {
      PushLine(builds, "runtime:", d.runtime, i);
      content := content + ("runtime:" + " " + d.runtime[i] + "\n");
    }
    assert d.runtime[..|d.runtime|] == d.runtime;
  }

  // ----- reading -----

  /** What one line adds. */
  function Add(d: Depends, rawLine: string): Depends {
    var line := Text.Trim(rawLine);
    if line == "" then d
    else match Text.StripPrefix(line, "runtime:")
      case Some(rest) => if Text.Trim(rest) == "" then d else d.(runtime := d.runtime + [Text.Trim(rest)])
      case None =>
        match Text.StripPrefix(line, "build:")
        case Some(rest) => if Text.Trim(rest) == "" then d else d.(build := d.build + [Text.Trim(rest)])
        case None => d
  }

  function AddAll(d: Depends, lines: seq<string>): Depends
    decreases |lines|
  {
    if lines == [] then d else AddAll(Add(d, lines[0]), lines[1..])
  }

  lemma {:induction false} AddAllAppend(d: Depends, a: seq<string>, b: seq<string>)
    ensures AddAll(d, a + b) == AddAll(AddAll(d, a), b)
    decreases |a|
  {
    if a == [] {
      assert a + b == b;
    } else {
      assert (a + b)[1..] == a[1..] + b;
      AddAllAppend(Add(d, a[0]), a[1..], b);
    }
  }

  /** The `depends.txt` part of `read_meta`, which adds to what it has read before. */
  method ReadDepends(meta: Depends, content: string) returns (d: Depends)
    ensures d == AddAll(meta, Text.Lines(content))
  {
    hide Text.Trim, Text.Lines;
    var lines := Text.Lines(content);
    d := meta;
    for i := 0 to |lines|
      invariant d == AddAll(meta, lines[..i])
    {
      AddAllAppend(meta, lines[..i], [lines[i]]);
      assert lines[..i + 1] == lines[..i] + [lines[i]];
      assert AddAll(d, [lines[i]]) == Add(d, lines[i]);
      var line := Text.Trim(lines[i]);
      if line == "" {
        continue;
      }
      var runtime := Text.StripPrefix(line, "runtime:");
      if runtime.Some? {
        var dep := Text.Trim(runtime.value);
        if dep != "" {
          d := d.(runtime := d.runtime + [dep]);
        }
      } else {
        var build := Text.StripPrefix(line, "build:");
        if build.Some? {
          var dep := Text.Trim(build.value);
          if dep != "" {
            d := d.(build := d.build + [dep]);
          }
        }
      }
    }
    assert lines[..|lines|] == lines;
  }

  // ----- reading what was written -----

  /** What a caller can check before packing. */
  predicate IsEntry(dep: string) {
    dep != "" && '\n' !in dep && Text.IsTrimmed(dep)
  }

  predicate AreEntries(deps: seq<string>) {
    forall i :: 0 <= i < |deps| ==> IsEntry(deps[i])
  }

  lemma AddBuild(d: Depends, dep: string)
    requires IsEntry(dep)
    ensures Add(d, "build: " + dep) == d.(build := d.build + [dep])
  {
    hide Text.Trim;
    var line := "build: " + dep;
    Text.TrimTrimmed(line);
    assert !("runtime:" <= line) by { assert line[0] == 'b'; }
    assert line == "build:" + (" " + dep);
    assert line[|"build:"|..] == " " + dep + "";
    Text.TrimPadded(" ", dep, "");
  }

  lemma AddRuntime(d: Depends, dep: string)
    requires IsEntry(dep)
    ensures Add(d, "runtime: " + dep) == d.(runtime := d.runtime + [dep])
  {
    hide Text.Trim;
    var line := "runtime: " + dep;
    Text.TrimTrimmed(line);
    assert line == "runtime:" + (" " + dep);
    assert line[|"runtime:"|..] == " " + dep + "";
    Text.TrimPadded(" ", dep, "");
  }

  lemma {:induction false} AddBuilds(d: Depends, deps: seq<string>)
    requires AreEntries(deps)
    ensures AddAll(d, Labelled("build:", deps)) == d.(build := d.build + deps)
    decreases |deps|
  {
    hide Add;
    if deps != [] {
      AddBuild(d, deps[0]);
      assert "build:" + " " + deps[0] == "build: " + deps[0];
      var e := d.(build := d.build + [deps[0]]);
      AddBuilds(e, deps[1..]);
      assert e.build + deps[1..] == d.build + deps;
    }
  }

  lemma {:induction false} AddRuntimes(d: Depends, deps: seq<string>)
    requires AreEntries(deps)
    ensures AddAll(d, Labelled("runtime:", deps)) == d.(runtime := d.runtime + deps)
    decreases |deps|
  {
    hide Add;
    if deps != [] {
      AddRuntime(d, deps[0]);
      assert "runtime:" + " " + deps[0] == "runtime: " + deps[0];
      var e := d.(runtime := d.runtime + [deps[0]]);
      AddRuntimes(e, deps[1..]);
      assert e.runtime + deps[1..] == d.runtime + deps;
    }
  }

  lemma LinesOfWritten(d: Depends)
    requires AreEntries(d.build) && AreEntries(d.runtime)
    ensures Text.Lines(Written(d)) == Labelled("build:", d.build) + Labelled("runtime:", d.runtime)
  {
    hide Text.Lines, Text.Unlines, Labelled;
    var lines := Labelled("build:", d.build) + Labelled("runtime:", d.runtime);
    forall i | 0 <= i < |lines|
      ensures '\n' !in lines[i] && Text.StripCarriageReturn(lines[i]) == lines[i]
    {
      var n := |d.build|;
      var kind, dep := if i < n then "build:" else "runtime:", if i < n then d.build[i] else d.runtime[i - n];
      assert lines[i] == kind + " " + dep && IsEntry(dep);
      assert lines[i][|lines[i]| - 1] == dep[|dep| - 1];
    }
    Text.LinesUnlines(lines);
    assert Text.Lines(Text.Unlines(lines)) == lines;
  }

  /** No line holds a line feed. */
  lemma {:induction false} LinesAreLines(s: string)
    ensures forall i :: 0 <= i < |Text.Lines(s)| ==> '\n' !in Text.Lines(s)[i]
    decreases |s|
  {
    if s != "" {
      match Text.SplitOnce(s, '\n')
      case None =>
      case Some((a, b)) =>
        LinesAreLines(b);
    }
  }

  lemma TrimStripped(line: string, prefix: string, rest: string)
    requires '\n' !in line && Text.Trim(line) == prefix + rest && Text.Trim(rest) != ""
    ensures IsEntry(Text.Trim(rest))
  {
    Text.TrimIsPiece(line);
    Text.TrimIsPiece(rest);
    assert forall c :: c in rest ==> c in prefix + rest;
  }

  lemma AddKeepsEntries(d: Depends, line: string)
    requires AreEntries(d.build) && AreEntries(d.runtime) && '\n' !in line
    ensures AreEntries(Add(d, line).build) && AreEntries(Add(d, line).runtime)
  {
    hide Text.Trim, IsEntry;
    var trimmed := Text.Trim(line);
    match Text.StripPrefix(trimmed, "runtime:")
    case Some(rest) =>
      if Text.Trim(rest) != "" {
        TrimStripped(line, "runtime:", rest);
      }
    case None =>
      match Text.StripPrefix(trimmed, "build:")
      case Some(rest) =>
        if Text.Trim(rest) != "" {
          TrimStripped(line, "build:", rest);
        }
      case None =>
  }

  /** Whatever the text, every entry read is non-empty, trimmed and on one line. */
  lemma {:induction false} ReadAreEntries(d: Depends, lines: seq<string>)
    requires AreEntries(d.build) && AreEntries(d.runtime)
    requires forall i :: 0 <= i < |lines| ==> '\n' !in lines[i]
    ensures AreEntries(AddAll(d, lines).build) && AreEntries(AddAll(d, lines).runtime)
    decreases |lines|
  {
    hide Add, AreEntries;
    if lines != [] {
      AddKeepsEntries(d, lines[0]);
      ReadAreEntries(Add(d, lines[0]), lines[1..]);
    }
  }

  /** Both lists come back, in order, exactly when every entry is non-empty, trimmed and on one line. */
  lemma ReadsBack(d: Depends)
    ensures AddAll(NOTHING, Text.Lines(Written(d))) == d <==> AreEntries(d.build) && AreEntries(d.runtime)
  {
    hide Add, Written, Text.Lines, IsEntry;
    LinesAreLines(Written(d));
    ReadAreEntries(NOTHING, Text.Lines(Written(d)));
    if AreEntries(d.build) && AreEntries(d.runtime) {
      LinesOfWritten(d);
      AddAllAppend(NOTHING, Labelled("build:", d.build), Labelled("runtime:", d.runtime));
      AddBuilds(NOTHING, d.build);
      assert NOTHING.build + d.build == d.build && NOTHING.runtime + d.runtime == d.runtime;
      AddRuntimes(NOTHING.(build := d.build), d.runtime);
    }
  }
}
