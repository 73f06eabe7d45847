/**
 Files that hold one record on each line, such as `nucleus.db` and `installed.db`. The JSON codec is a
 pair of parameters; what is assumed of it is said record by record.
 */
module JsonLines {
  import opened Wrappers
  import Text

  /** What a JSON object printed without line breaks looks like to a reader of lines. */
  predicate IsOneLine(line: string) {
    line != "" && '\n' !in line && Text.IsTrimmed(line) && line[0] != '#'
  }

  ghost predicate IsCoded<T>(r: T, encode: T -> string, decode: string -> Option<T>) {
    IsOneLine(encode(r)) && decode(encode(r)) == Some(r)
  }

  ghost predicate AreCoded<T>(records: seq<T>, encode: T -> string, decode: string -> Option<T>) {
    forall i :: 0 <= i < |records| ==> IsCoded(records[i], encode, decode)
  }

  function Encoded<T>(records: seq<T>, encode: T -> string): (lines: seq<string>)
    ensures |lines| == |records|
    ensures forall i :: 0 <= i < |records| ==> lines[i] == encode(records[i])
  {
    if records == [] then [] else [encode(records[0])] + Encoded(records[1..], encode)
  }

  /** The file for a list of records. */
  function Saved<T>(records: seq<T>, encode: T -> string): string {
    Text.Unlines(Encoded(records, encode))
  }

  lemma SavedSnoc<T>(records: seq<T>, n: nat, encode: T -> string)
    requires n < |records|
    ensures Saved(records[..n + 1], encode) == Saved(records[..n], encode) + encode(records[n]) + "\n"
  {
    hide Text.Unlines;
    Text.UnlinesSnoc(Encoded(records[..n], encode), encode(records[n]));
    assert Encoded(records[..n + 1], encode) == Encoded(records[..n], encode) + [encode(records[n])];
  }

  /** The record on a line, if the line is neither blank, nor a comment, nor malformed. */
  function ReadLine<T>(rawLine: string, comments: bool, decode: string -> Option<T>): Option<T> {
    var line := Text.Trim(rawLine);
    if line == "" || (comments && line[0] == '#') then None else decode(line)
  }

  function Loaded<T>(lines: seq<string>, comments: bool, decode: string -> Option<T>): seq<T> {
    if lines == [] then []
    else match ReadLine(lines[0], comments, decode)
      case Some(r) => [r] + Loaded(lines[1..], comments, decode)
      case None => Loaded(lines[1..], comments, decode)
  }

  lemma {:induction false} LoadedAppend<T>(a: seq<string>, b: seq<string>, comments: bool, decode: string -> Option<T>)
    ensures Loaded(a + b, comments, decode) == Loaded(a, comments, decode) + Loaded(b, comments, decode)
  {
    hide ReadLine;
    if a == [] {
      assert a + b == b;
    } else {
      assert (a + b)[1..] == a[1..] + b;
      LoadedAppend(a[1..], b, comments, decode);
    }
  }

  lemma OneLine<T>(line: string, comments: bool, decode: string -> Option<T>)
    ensures Loaded([line], comments, decode) ==
              match ReadLine(line, comments, decode) case Some(r) => [r] case None => []
  {
    hide ReadLine;
    assert [line][1..] == [];
  }

  /**
   What one line more makes of a file, wherever it stands: a blank line, a comment or a malformed line changes
   nothing, and any other adds its record at that place.
   */
  lemma LineAdds<T>(before: seq<string>, line: string, after: seq<string>, comments: bool,
                    decode: string -> Option<T>)
    ensures var t := Text.Trim(line);
      Loaded(before + [line] + after, comments, decode) ==
        if t == "" || (comments && t[0] == '#') || decode(t).None? then Loaded(before + after, comments, decode)
        else Loaded(before, comments, decode) + [decode(t).value] + Loaded(after, comments, decode)
  {
    hide Text.Trim;
    LoadedAppend(before, after, comments, decode);
    LoadedAppend(before + [line], after, comments, decode);
    LoadedAppend(before, [line], comments, decode);
    OneLine(line, comments, decode);
    hide Loaded;
    var a := Loaded(before, comments, decode);
    assert a + [] == a;
  }

  lemma LoadedSnoc<T>(lines: seq<string>, n: nat, comments: bool, decode: string -> Option<T>)
    requires n < |lines|
    ensures Loaded(lines[..n + 1], comments, decode) == Loaded(lines[..n], comments, decode) +
              match ReadLine(lines[n], comments, decode) case Some(r) => [r] case None => []
  {
    hide ReadLine;
    assert lines[..n + 1] == lines[..n] + [lines[n]];
    LoadedAppend(lines[..n], [lines[n]], comments, decode);
  }

  lemma {:induction false} LoadedEncoded<T>(records: seq<T>, comments: bool, encode: T -> string,
                                            decode: string -> Option<T>)
    requires AreCoded(records, encode, decode)
    ensures Loaded(Encoded(records, encode), comments, decode) == records
  {
    hide Text.Trim;
    if records != [] {
      assert IsCoded(records[0], encode, decode);
      Text.TrimTrimmed(encode(records[0]));
      LoadedEncoded(records[1..], comments, encode, decode);
    }
  }

  /** Loading what was saved gives back every record, in order. */
  lemma LoadedSaved<T>(records: seq<T>, comments: bool, encode: T -> string, decode: string -> Option<T>)
    requires AreCoded(records, encode, decode)
    ensures Loaded(Text.Lines(Saved(records, encode)), comments, decode) == records
  {
    hide Text.Lines, Text.Unlines, Encoded, Loaded;
    var lines := Encoded(records, encode);
    forall i | 0 <= i < |lines|
      ensures '\n' !in lines[i] && Text.StripCarriageReturn(lines[i]) == lines[i]
    {
      assert IsCoded(records[i], encode, decode);
    }
    Text.LinesUnlines(lines);
    assert Text.Lines(Text.Unlines(lines)) == lines;
    LoadedEncoded(records, comments, encode, decode);
  }
}
