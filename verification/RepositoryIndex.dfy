/** The package index of a nucleus repository, and how a scan of the repository fills it. */
module RepositoryIndex {
  import opened Wrappers
  import opened DependsText
  import Digest
  import JsonLines
  import Text
  import Version

  datatype IndexEntry = IndexEntry(
    name: string, version: string, release: nat, description: string, license: string, arch: string,
    category: string, filename: string, sha256: string, depends: Depends, provided: seq<string>,
    conflicts: seq<string>, installedSize: nat, buildDate: string)

  /** The value of an index: what is known of each name, and the order in which names came. */
  datatype Index = Index(entries: map<string, IndexEntry>, order: seq<string>)

  const EMPTY: Index := Index(map[], [])

  // ----- adding and removing -----

  /** Whether `entry` takes the place of `existing`. The last case also covers a smaller parsed version. */
  predicate Replaces(entry: IndexEntry, existing: IndexEntry) {
    match (Version.Parse(entry.version), Version.Parse(existing.version))
    case (Ok(n), Ok(o)) =>
      if Version.Less(o, n) then true
      else if n == o then entry.release >= existing.release
      else !Text.Less(entry.version, existing.version)
    case _ => !Text.Less(entry.version, existing.version)
  }

  /**
   Where the three numbers do not decide in favour of the new entry, its text does: with a version that cannot be
   read, or is an older one, or differs in what follows the numbers, it has to be at least the other's as a
   string. Equal versions go by release, the later one of two equal ones staying.
   */
  lemma ReplacesByText(entry: IndexEntry, existing: IndexEntry)
    ensures var n, o := Version.Parse(entry.version), Version.Parse(existing.version);
      && (n.Ok? && o.Ok? && Version.IsBefore(o.value, n.value) ==> Replaces(entry, existing))
      && (entry.version == existing.version ==>
            (Replaces(entry, existing) <==> n.Err? || entry.release >= existing.release))
      && (n.Err? || o.Err? || (n != o && !Version.IsBefore(o.value, n.value)) ==>
            (Replaces(entry, existing) <==>
               entry.version == existing.version || Text.Less(existing.version, entry.version)))
  {
    hide Version.Parse, Version.Less, Version.IsBefore, Text.Less;
    Text.LessTotal(entry.version, existing.version);
    Text.LessIrreflexive(entry.version);
    if Text.Less(existing.version, entry.version) && Text.Less(entry.version, existing.version) {
      Text.LessTransitive(entry.version, existing.version, entry.version);
    }
    var n, o := Version.Parse(entry.version), Version.Parse(existing.version);
    if n.Ok? && o.Ok? {
      Version.LessIsBefore(o.value, n.value);
      Version.LessIsStrict(n.value, n.value, n.value);
    }
  }

  function Added(ix: Index, entry: IndexEntry): Index {
    if entry.name !in ix.entries then
      Index(ix.entries[entry.name := entry], ix.order + [entry.name])
    else if Replaces(entry, ix.entries[entry.name]) then ix.(entries := ix.entries[entry.name := entry])
    else ix
  }

  function Without(names: seq<string>, name: string): (r: seq<string>)
    ensures forall n :: n in r <==> n in names && n != name
  {
    if names == [] then []
    else (if names[0] == name then [] else [names[0]]) + Without(names[1..], name)
  }

  function Removed(ix: Index, name: string): Index {
    Index(ix.entries - {name}, Without(ix.order, name))
  }

  predicate IsDistinct(names: seq<string>) {
    forall i, j :: 0 <= i < j < |names| ==> names[i] != names[j]
  }

  /** The order lists each known name once, and every entry stands under its own name. */
  ghost predicate IsConsistent(ix: Index) {
    && IsDistinct(ix.order)
    && (forall n :: n in ix.order <==> n in ix.entries)
    && forall n :: n in ix.entries ==> ix.entries[n].name == n
  }

  lemma {:induction false} WithoutIsDistinct(names: seq<string>, name: string)
    requires IsDistinct(names)
    ensures IsDistinct(Without(names, name))
  {
    if names != [] {
      var rest := names[1..];
      WithoutIsDistinct(rest, name);
      assert names[0] !in rest;
      if names[0] != name {
        assert names[0] !in Without(rest, name);
      }
    }
  }

  lemma AddedIsConsistent(ix: Index, entry: IndexEntry)
    requires IsConsistent(ix)
    ensures IsConsistent(Added(ix, entry))
  {
    hide Replaces;
  }

  lemma RemovedIsConsistent(ix: Index, name: string)
    requires IsConsistent(ix)
    ensures IsConsistent(Removed(ix, name))
  {
    WithoutIsDistinct(ix.order, name);
  }

  lemma {:induction false} WithoutAppend(a: seq<string>, b: seq<string>, name: string)
    ensures Without(a + b, name) == Without(a, name) + Without(b, name)
  {
    if a == [] {
      assert a + b == b;
    } else {
      assert (a + b)[1..] == a[1..] + b;
      WithoutAppend(a[1..], b, name);
    }
  }

  lemma {:induction false} WithoutAbsent(names: seq<string>, name: string)
    requires name !in names
    ensures Without(names, name) == names
  {
    if names != [] {
      WithoutAbsent(names[1..], name);
    }
  }

  lemma WithoutAt(before: seq<string>, name: string, after: seq<string>)
    requires name !in before && name !in after
    ensures Without(before + [name] + after, name) == before + after
  {
    assert Without([name], name) == [] by { OneLess(name); }
    hide Without;
    WithoutAppend(before + [name], after, name);
    WithoutAppend(before, [name], name);
    WithoutAbsent(before, name);
    WithoutAbsent(after, name);
    assert before + [] == before;
  }

  lemma OneLess(name: string)
    ensures Without([name], name) == []
  {
    assert [name][1..] == [];
  }

  /** Removing an entry leaves the others as they are and in their order. */
  lemma RemovedAt(ix: Index, i: nat)
    requires IsConsistent(ix) && i < |ix.order|
    ensures var r := Removed(ix, ix.order[i]);
      && r.order == ix.order[..i] + ix.order[i + 1..]
      && (forall n :: n in r.entries <==> n in ix.entries && n != ix.order[i])
      && forall n :: n in r.entries ==> r.entries[n] == ix.entries[n]
  {
    assert ix.order[..i] + [ix.order[i]] + ix.order[i + 1..] == ix.order;
    WithoutAt(ix.order[..i], ix.order[i], ix.order[i + 1..]);
  }

  /** Removing undoes adding a package that was not there. */
  lemma RemoveUndoesAdd(ix: Index, entry: IndexEntry)
    requires IsConsistent(ix) && entry.name !in ix.entries
    ensures Removed(Added(ix, entry), entry.name) == ix
  {
    hide Replaces;
    WithoutAt(ix.order, entry.name, []);
    assert ix.order + [entry.name] + [] == ix.order + [entry.name] && ix.order + [] == ix.order;
  }

  function AddedAll(ix: Index, stream: seq<IndexEntry>): Index
    decreases |stream|
  {
    if stream == [] then ix else AddedAll(Added(ix, stream[0]), stream[1..])
  }

  lemma {:induction false} AddedAllAppend(ix: Index, a: seq<IndexEntry>, b: seq<IndexEntry>)
    ensures AddedAll(ix, a + b) == AddedAll(AddedAll(ix, a), b)
    decreases |a|
  {
    hide Added;
    if a == [] {
      assert a + b == b;
    } else {
      assert (a + b)[1..] == a[1..] + b;
      AddedAllAppend(Added(ix, a[0]), a[1..], b);
    }
  }

  lemma AddedAllSnoc(ix: Index, stream: seq<IndexEntry>, e: IndexEntry)
    ensures AddedAll(ix, stream + [e]) == Added(AddedAll(ix, stream), e)
  {
    hide Added;
    AddedAllAppend(ix, stream, [e]);
    assert [e][1..] == [];
  }

  lemma {:induction false} AddedAllIsConsistent(ix: Index, stream: seq<IndexEntry>)
    requires IsConsistent(ix)
    ensures IsConsistent(AddedAll(ix, stream))
    decreases |stream|
  {
    hide IsConsistent, Added;
    if stream != [] {
      AddedIsConsistent(ix, stream[0]);
      AddedAllIsConsistent(Added(ix, stream[0]), stream[1..]);
    }
  }

  // ----- runs -----

  datatype Op = Add(entry: IndexEntry) | Remove(name: string)

  function Perform(ix: Index, op: Op): Index {
    match op
    case Add(e) => Added(ix, e)
    case Remove(n) => Removed(ix, n)
  }

  function Run(ix: Index, ops: seq<Op>): Index
    decreases |ops|
  {
    if ops == [] then ix else Run(Perform(ix, ops[0]), ops[1..])
  }

  /** Which names a run leaves behind, by looking at its operations only. */
  predicate StaysAfter(ops: seq<Op>, name: string, before: bool) {
    if ops == [] then before
    else StaysAfter(ops[1..], name,
                    match ops[0]
                    case Add(e) => e.name == name || before
                    case Remove(n) => n != name && before)
  }

  /** After every run the order holds, once each, the names added and not removed since. */
  lemma {:induction false} RunIsConsistent(ix: Index, ops: seq<Op>)
    requires IsConsistent(ix)
    ensures IsConsistent(Run(ix, ops))
    ensures forall n :: n in Run(ix, ops).order <==> StaysAfter(ops, n, n in ix.order)
    decreases |ops|
  {
    if ops != [] {
      PerformIsConsistent(ix, ops[0]);
      RunIsConsistent(Perform(ix, ops[0]), ops[1..]);
    }
  }

  lemma PerformIsConsistent(ix: Index, op: Op)
    requires IsConsistent(ix)
    ensures IsConsistent(Perform(ix, op))
    ensures forall n :: n in Perform(ix, op).order <==>
              match op case Add(e) => e.name == n || n in ix.order case Remove(r) => r != n && n in ix.order
  {
    hide Replaces;
    match op
    case Add(e) => AddedIsConsistent(ix, e);
    case Remove(n) => RemovedIsConsistent(ix, n);
  }

  // ----- the file -----

  /** The entries in the order in which they are written. */
  function Listed(ix: Index, order: seq<string>): (r: seq<IndexEntry>)
    ensures (forall n :: n in order ==> n in ix.entries) ==>
              |r| == |order| && forall i :: 0 <= i < |r| ==> r[i] == ix.entries[order[i]]
  {
    if order == [] then []
    else (if order[0] in ix.entries then [ix.entries[order[0]]] else []) + Listed(ix, order[1..])
  }

  /** The first `n` names of an index, with their entries. */
  ghost predicate IsPart(part: Index, ix: Index, n: nat)
    requires n <= |ix.order|
  {
    && part.order == ix.order[..n]
    && (forall k :: k in part.entries <==> k in ix.order[..n])
    && forall k :: k in part.entries ==> k in ix.entries && part.entries[k] == ix.entries[k]
  }

  lemma AddedNext(part: Index, ix: Index, n: nat)
    requires IsConsistent(ix) && n < |ix.order| && IsPart(part, ix, n)
    ensures ix.order[n] in ix.entries && IsPart(Added(part, ix.entries[ix.order[n]]), ix, n + 1)
  {
    hide Replaces;
    var name := ix.order[n];
    assert name in ix.order;
    assert name !in ix.order[..n];
    assert ix.order[..n + 1] == ix.order[..n] + [name];
  }

  lemma ListedIsOrder(ix: Index)
    requires IsConsistent(ix)
    ensures var all := Listed(ix, ix.order);
      && |all| == |ix.order|
      && forall i :: 0 <= i < |all| ==> ix.order[i] in ix.entries && all[i] == ix.entries[ix.order[i]]
  {
    assert forall i :: 0 <= i < |ix.order| ==> ix.order[i] in ix.order;
  }

  /** Adding, to an empty index, the entries that a consistent one lists rebuilds it. */
  lemma {:induction false} AddedListed(ix: Index, n: nat)
    requires IsConsistent(ix) && n <= |ix.order|
    ensures |Listed(ix, ix.order)| == |ix.order|
    ensures IsPart(AddedAll(EMPTY, Listed(ix, ix.order)[..n]), ix, n)
  {
    hide Added, IsConsistent, Listed, IsPart, AddedAll;
    ListedIsOrder(ix);
    var all := Listed(ix, ix.order);
    if n == 0 {
      EmptyIsPart(ix);
    } else {
      AddedListed(ix, n - 1);
      AddedNext(AddedAll(EMPTY, all[..n - 1]), ix, n - 1);
      AddedAllSnoc(EMPTY, all[..n - 1], all[n - 1]);
      assert all[..n] == all[..n - 1] + [all[n - 1]];
    }
  }

  lemma EmptyIsPart(ix: Index)
    ensures IsPart(AddedAll(EMPTY, []), ix, 0)
  {
  }

  lemma WholePart(part: Index, ix: Index)
    requires IsConsistent(ix) && IsPart(part, ix, |ix.order|)
    ensures part == ix
  {
    assert ix.order[..|ix.order|] == ix.order;
    assert part.entries == ix.entries;
  }

  /** Loading a saved index restores its entries and their order. */
  lemma LoadedSaved(ix: Index, encode: IndexEntry -> string, decode: string -> Option<IndexEntry>)
    requires IsConsistent(ix)
    requires forall n :: n in ix.entries ==> JsonLines.IsCoded(ix.entries[n], encode, decode)
    ensures AddedAll(EMPTY, JsonLines.Loaded(Text.Lines(JsonLines.Saved(Listed(ix, ix.order), encode)), true, decode))
              == ix
  {
    hide Text.Lines, JsonLines.Saved, JsonLines.Loaded, JsonLines.IsCoded;
    hide AddedAll, Added, IsConsistent, IsPart, Listed;
    var all := Listed(ix, ix.order);
    ListedIsOrder(ix);
    JsonLines.LoadedSaved(all, true, encode, decode);
    AddedListed(ix, |all|);
    assert all[..|all|] == all;
    WholePart(AddedAll(EMPTY, all), ix);
  }

  /**
   A malformed line is cut to 80 bytes for the warning about it, which panics if that cuts a character. Nothing
   is cut if nobody takes the warnings.
   */
  predicate PanicsOn(rawLine: string, decode: string -> Option<IndexEntry>) {
    var line := Text.Trim(rawLine);
    && line != "" && line[0] != '#' && decode(line).None?
    && |Digest.Utf8(line)| > 80 && !Digest.IsBoundary(Digest.Utf8(line), 80)
  }

  /** Loading goes through all lines unless one makes a warning panic. */
  predicate CanLoad(lines: seq<string>, decode: string -> Option<IndexEntry>, warns: bool) {
    warns ==> forall i :: 0 <= i < |lines| ==> !PanicsOn(lines[i], decode)
  }

  /** What was saved can always be loaded. */
  lemma SavedCanLoad(ix: Index, encode: IndexEntry -> string, decode: string -> Option<IndexEntry>, warns: bool)
    requires IsConsistent(ix)
    requires forall n :: n in ix.entries ==> JsonLines.IsCoded(ix.entries[n], encode, decode)
    ensures CanLoad(Text.Lines(JsonLines.Saved(Listed(ix, ix.order), encode)), decode, warns)
  {
    hide Text.Lines, Text.Unlines, Text.Trim, IsConsistent, Listed, Digest.Utf8;
    var all := Listed(ix, ix.order);
    ListedIsOrder(ix);
    var lines := JsonLines.Encoded(all, encode);
    forall i | 0 <= i < |lines|
      ensures '\n' !in lines[i] && Text.StripCarriageReturn(lines[i]) == lines[i]
      ensures decode(Text.Trim(lines[i])).Some?
    {
      assert JsonLines.IsCoded(ix.entries[ix.order[i]], encode, decode);
      Text.TrimTrimmed(lines[i]);
    }
    Text.LinesUnlines(lines);
    assert Text.Lines(Text.Unlines(lines)) == lines;
  }

  /** A line that makes loading panic: any 79 ASCII characters and an accented letter, if they are no entry. */
  lemma AccentAtEightyPanics(t: string, decode: string -> Option<IndexEntry>)
    requires |t| == 79 && Digest.IsAscii(t) && t[0] != '#' && !Text.IsWhitespace(t[0])
    requires decode(t + "\U{E9}").None?
    ensures PanicsOn(t + "\U{E9}", decode)
  {
    hide Text.Trim;
    var line := t + "\U{E9}";
    Text.TrimTrimmed(line);
    Digest.Utf8Append(t, "\U{E9}");
    Digest.Utf8Ascii(t);
    assert "\U{E9}"[1..] == "" && Digest.Utf8("\U{E9}") == [0xC3, 0xA9] + Digest.Utf8("");
    assert Digest.Utf8(line)[80] == 0xA9;
  }

  // ----- saving -----

  /** The files of a repository's index: `nucleus.db`, the file it is written by way of, and the hash beside it. */
  datatype IndexFiles = IndexFiles(db: Option<string>, tmp: Option<string>, sidecar: Option<string>)

  /** Which step of saving fails, and what it leaves of the file it was writing. */
  datatype SaveFault =
    | NoFault
    | TmpFails(left: Option<string>)
    | RenameFails
    | SidecarFails(left: Option<string>)

  function SidecarLine(sha: string): string {
    "sha256:" + sha + "  nucleus.db\n"
  }

  function SavedFiles(files: IndexFiles, content: string, sha: string -> string, fault: SaveFault): IndexFiles {
    match fault
    case NoFault => IndexFiles(Some(content), None, Some(SidecarLine(sha(content))))
    case TmpFails(left) => files.(tmp := left)
    case RenameFails => files.(tmp := Some(content))
    case SidecarFails(left) => IndexFiles(Some(content), None, left)
  }

  /** The hash beside an index is that of the index. */
  predicate IsDescribed(files: IndexFiles, sha: string -> string) {
    files.db.Some? ==> files.sidecar == Some(SidecarLine(sha(files.db.value)))
  }

  /**
   However saving ends, readers find the old index or all of the new one. The hash beside it still describes
   it exactly if saving did not fail between the two, or what it left there is the right line already.
   */
  lemma SaveIsAtomic(files: IndexFiles, content: string, sha: string -> string, fault: SaveFault)
    requires IsDescribed(files, sha)
    ensures var after := SavedFiles(files, content, sha, fault);
      && after.db == (if fault.TmpFails? || fault.RenameFails? then files.db else Some(content))
      && (fault == NoFault ==> after.tmp.None? && IsDescribed(after, sha))
      && (IsDescribed(after, sha) <==> (fault.SidecarFails? ==> fault.left == Some(SidecarLine(sha(content)))))
  {
  }

  /** An index that was saved without a fault is what loading finds, entry by entry and in order. */
  lemma SavedIsLoaded(ix: Index, files: IndexFiles, encode: IndexEntry -> string,
                      decode: string -> Option<IndexEntry>, sha: string -> string)
    requires IsConsistent(ix)
    requires forall n :: n in ix.entries ==> JsonLines.IsCoded(ix.entries[n], encode, decode)
    ensures var after := SavedFiles(files, JsonLines.Saved(Listed(ix, ix.order), encode), sha, NoFault);
      after.db.Some? && AddedAll(EMPTY, JsonLines.Loaded(Text.Lines(after.db.value), true, decode)) == ix
  {
    hide Text.Lines, JsonLines.Saved, JsonLines.Loaded, JsonLines.IsCoded, AddedAll, IsConsistent, Listed;
    LoadedSaved(ix, encode, decode);
  }

  // ----- the object -----

  class RepositoryIndex {
    var entries: map<string, IndexEntry>
    var order: seq<string>

    ghost predicate Valid()
      reads this
    {
      IsConsistent(View())
    }

    function View(): Index
      reads this
    {
      Index(entries, order)
    }

    constructor ()
      ensures View() == EMPTY && Valid()
    {
      entries, order := map[], [];
    }

    method AddEntry(entry: IndexEntry)
      requires Valid()
      modifies this
      ensures Valid()
      ensures View() == Added(old(View()), entry)
    {
      AddedIsConsistent(View(), entry);
      var shouldInsert := true;
      if entry.name in entries {
        var existing := entries[entry.name];
        match (Version.Parse(entry.version), Version.Parse(existing.version)) {
          case (Ok(n), Ok(o)) =>
            if Version.Less(o, n) {
              shouldInsert := true;
            } else if n == o {
              shouldInsert := entry.release >= existing.release;
            } else {
              shouldInsert := !Text.Less(entry.version, existing.version);
            }
          case _ =>
            shouldInsert := !Text.Less(entry.version, existing.version);
        }
      }
      if shouldInsert {
        if entry.name !in entries {
          order := order + [entry.name];
        }
        entries := entries[entry.name := entry];
      }
    }

    method RemoveEntry(name: string) returns (removed: Option<IndexEntry>)
      requires Valid()
      modifies this
      ensures Valid()
      ensures View() == Removed(old(View()), name)
      ensures removed == if name in old(entries) then Some(old(entries)[name]) else None
    {
      RemovedIsConsistent(View(), name);
      order := Without(order, name);
      removed := if name in entries then Some(entries[name]) else None;
      entries := entries - {name};
    }

    /** Write the entries in order, then put the file in its place, then its hash beside it. */
    method Save(encode: IndexEntry -> string, sha: string -> string, files: IndexFiles, fault: SaveFault)
      returns (ok: bool, after: IndexFiles)
      requires Valid()
      ensures ok <==> fault == NoFault
      ensures after == SavedFiles(files, JsonLines.Saved(Listed(View(), order), encode), sha, fault)
    {
      var content := Content(encode);
      after := files;
      if fault.TmpFails? {
        return false, after.(tmp := fault.left);
      }
      after := after.(tmp := Some(content));
      if fault.RenameFails? {
        return false, after;
      }
      after := after.(db := after.tmp, tmp := None);
      if fault.SidecarFails? {
        return false, after.(sidecar := fault.left);
      }
      after := after.(sidecar := Some(SidecarLine(sha(content))));
      ok := true;
    }

    /** The entries in order, one a line. */
    method Content(encode: IndexEntry -> string) returns (content: string)
      requires Valid()
      ensures content == JsonLines.Saved(Listed(View(), order), encode)
    {
      ghost var all := Listed(View(), order);
      content := "";
      assert content == JsonLines.Saved(all[..0], encode) by {
        assert JsonLines.Encoded(all[..0], encode) == [];
        assert Text.Unlines([]) == "";
      }
      for i := 0 to |order|
        invariant content == JsonLines.Saved(all[..i], encode)
      {
        JsonLines.SavedSnoc(all, i, encode);
        if order[i] in entries {
          content := content + encode(entries[order[i]]) + "\n";
        }
      }
      assert all[..|order|] == all;
    }

    /** `warns` tells whether somebody takes the warnings about malformed lines. */
    static method Load(content: string, decode: string -> Option<IndexEntry>, warns: bool)
      returns (ok: bool, index: RepositoryIndex)
      ensures fresh(index) && index.Valid()
      ensures ok <==> CanLoad(Text.Lines(content), decode, warns)
      ensures ok ==> index.View() == AddedAll(EMPTY, JsonLines.Loaded(Text.Lines(content), true, decode))
    {
      hide Text.Lines, Text.Trim, Added, IsConsistent, Digest.Utf8;
      index := new RepositoryIndex();
      var lines := Text.Lines(content);
      for i := 0 to |lines|
        invariant fresh(index) && index.Valid()
        invariant warns ==> forall j :: 0 <= j < i ==> !PanicsOn(lines[j], decode)
        invariant index.View() == AddedAll(EMPTY, JsonLines.Loaded(lines[..i], true, decode))
      {
        JsonLines.LoadedSnoc(lines, i, true, decode);
        ghost var before := JsonLines.Loaded(lines[..i], true, decode);
        assert before + [] == before;
        var line := Text.Trim(lines[i]);
        if line == "" || line[0] == '#' {
          continue;
        }
        var parsed := decode(line);
        if parsed.Some? {
          AddedAllSnoc(EMPTY, before, parsed.value);
          index.AddEntry(parsed.value);
        } else if warns && |Digest.Utf8(line)| > 80 && !Digest.IsBoundary(Digest.Utf8(line), 80) {
          assert PanicsOn(lines[i], decode);
          return false, index;
        }
      }
      assert lines[..|lines|] == lines;
      ok := true;
    }
  }
}
