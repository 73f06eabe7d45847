/**
 Rebuilding the index by scanning the package files. Directories list their files in no particular order,
 and `add_entry` does not always prefer the greater version, so what the index ends up with may depend on
 that order. This module says exactly when it does.
 */
module RepositoryScan {
  import opened Wrappers
  import opened DependsText
  import opened RepositoryIndex
  import JsonLines
  import ProtName
  import Text
  import Version

  // ----- the entry kept for one name -----

  /** What is left of the entries of one name, added one after the other. */
  function Kept(stream: seq<IndexEntry>): (r: IndexEntry)
    requires stream != []
    ensures r in stream
  {
    var last := stream[|stream| - 1];
    if |stream| == 1 then last
    else
      var kept := Kept(stream[..|stream| - 1]);
      if Replaces(last, kept) then last else kept
  }

  function OfName(stream: seq<IndexEntry>, name: string): (r: seq<IndexEntry>)
    ensures forall e :: e in r <==> e in stream && e.name == name
  {
    if stream == [] then []
    else
      var last := stream[|stream| - 1];
      OfName(stream[..|stream| - 1], name) + (if last.name == name then [last] else [])
  }

  lemma AddedAt(ix: Index, e: IndexEntry, name: string)
    ensures name in Added(ix, e).entries <==> e.name == name || name in ix.entries
    ensures e.name != name && name in ix.entries ==> Added(ix, e).entries[name] == ix.entries[name]
    ensures e.name == name && name !in ix.entries ==> Added(ix, e).entries[name] == e
    ensures e.name == name && name in ix.entries ==>
              Added(ix, e).entries[name] == if Replaces(e, ix.entries[name]) then e else ix.entries[name]
  {
    hide Replaces;
  }

  /** The index holds, for each name of the stream, what is kept of its own entries. */
  lemma {:induction false} IndexHoldsKept(stream: seq<IndexEntry>, name: string)
    ensures var ix := AddedAll(EMPTY, stream);
      && (name in ix.entries <==> OfName(stream, name) != [])
      && (name in ix.entries ==> ix.entries[name] == Kept(OfName(stream, name)))
    decreases |stream|
  {
    hide Replaces, Added;
    if stream != [] {
      hide AddedAll;
      var before, last := stream[..|stream| - 1], stream[|stream| - 1];
      assert stream == before + [last];
      AddedAllSnoc(EMPTY, before, last);
      IndexHoldsKept(before, name);
      AddedAt(AddedAll(EMPTY, before), last, name);
      var own := OfName(stream, name);
      assert own == OfName(before, name) + if last.name == name then [last] else [];
      assert last.name == name ==> own[..|own| - 1] == OfName(before, name);
      assert last.name != name ==> own == OfName(before, name);
    }
  }

  // ----- which entry should be kept -----

  /** The entries of one name whose versions differ in their numbers only. */
  ghost predicate IsStream(stream: seq<IndexEntry>, rest: string) {
    forall e :: e in stream ==> HasRest(e, rest)
  }

  predicate HasRest(e: IndexEntry, rest: string) {
    Version.Parse(e.version).Ok? && Version.Parse(e.version).value.rest == rest
  }

  function VersionOf(e: IndexEntry): Version.Version {
    match Version.Parse(e.version)
    case Ok(v) => v
    case Err(_) => Version.Version(0, 0, 0, "")
  }

  predicate OlderVersion(a: IndexEntry, b: IndexEntry) {
    Version.Less(VersionOf(a), VersionOf(b))
  }

  /** The order of (version, release), by number. */
  predicate Older(a: IndexEntry, b: IndexEntry) {
    OlderVersion(a, b) || (!OlderVersion(b, a) && a.release < b.release)
  }

  ghost predicate IsNewest(m: IndexEntry, stream: seq<IndexEntry>) {
    m in stream && forall e :: e in stream ==> !Older(m, e)
  }

  /** Every version older than a newest one is also smaller as a string. */
  ghost predicate StringsAgree(stream: seq<IndexEntry>) {
    forall m, e :: IsNewest(m, stream) && e in stream && OlderVersion(e, m) ==> Text.Less(e.version, m.version)
  }

  /** Among entries with equal `rest`, the rule prefers the newer one except where strings disagree. */
  lemma ReplacesByNumber(a: IndexEntry, b: IndexEntry, rest: string)
    requires HasRest(a, rest) && HasRest(b, rest)
    ensures Replaces(a, b) <==> !Older(a, b) || (OlderVersion(a, b) && !Text.Less(a.version, b.version))
  {
    hide Version.Parse, Text.Less;
    Version.LessIsStrict(VersionOf(a), VersionOf(b), VersionOf(a));
  }

  lemma OlderIsOrder(a: IndexEntry, b: IndexEntry, c: IndexEntry)
    ensures !Older(a, a)
    ensures Older(a, b) && Older(b, c) ==> Older(a, c)
    ensures !Older(a, b) && !Older(b, c) ==> !Older(a, c)
  {
    hide VersionOf;
  }

  lemma {:induction false} NewestExists(stream: seq<IndexEntry>) returns (m: IndexEntry)
    requires stream != []
    ensures IsNewest(m, stream)
    decreases |stream|
  {
    hide Older;
    var before, last := stream[..|stream| - 1], stream[|stream| - 1];
    assert forall e :: e in stream ==> e in before || e == last;
    OlderIsOrder(last, last, last);
    if before == [] {
      m := last;
    } else {
      m := NewestExists(before);
      forall e
        ensures Older(m, last) && !Older(m, e) ==> !Older(last, e)
      {
        OlderIsOrder(m, last, e);
      }
      m := if Older(m, last) then last else m;
    }
  }

  /** A newest entry always gets in, and only another gets it out again when the strings agree. */
  lemma NewestReplaces(m: IndexEntry, k: IndexEntry, stream: seq<IndexEntry>, rest: string)
    requires IsStream(stream, rest) && IsNewest(m, stream) && k in stream
    ensures Replaces(m, k)
    ensures Replaces(k, m) && StringsAgree(stream) ==> IsNewest(k, stream)
  {
    hide HasRest, Older, OlderVersion, Text.Less, Replaces;
    ReplacesByNumber(m, k, rest);
    ReplacesByNumber(k, m, rest);
    forall e | e in stream
      ensures !Older(k, m) ==> !Older(k, e)
    {
      OlderIsOrder(k, m, e);
    }
  }

  /** Once a newest entry has been scanned, a newest entry is kept. */
  lemma {:induction false} KeptIsNewest(scan: seq<IndexEntry>, m: IndexEntry, stream: seq<IndexEntry>, rest: string)
    requires IsStream(stream, rest) && StringsAgree(stream) && IsNewest(m, stream)
    requires m in scan && forall e :: e in scan ==> e in stream
    ensures IsNewest(Kept(scan), stream)
    decreases |scan|
  {
    hide Replaces, StringsAgree, IsNewest, IsStream;
    var before, last := scan[..|scan| - 1], scan[|scan| - 1];
    assert forall e :: e in scan <==> e in before || e == last;
    if m in before {
      KeptIsNewest(before, m, stream, rest);
      NewestReplaces(Kept(before), last, stream, rest);
    } else if before != [] {
      NewestReplaces(m, Kept(before), stream, rest);
    }
  }

  lemma MovedToEnd(s: seq<IndexEntry>, x: IndexEntry) returns (r: seq<IndexEntry>)
    requires x in s
    ensures multiset(r + [x]) == multiset(s)
  {
    var i :| 0 <= i < |s| && s[i] == x;
    r := s[..i] + s[i + 1..];
    assert s == s[..i] + [x] + s[i + 1..];
  }

  lemma SameElements(s: seq<IndexEntry>, t: seq<IndexEntry>)
    requires multiset(s) == multiset(t)
    ensures forall e :: e in s <==> e in t
  {
    forall e
      ensures e in s <==> e in t
    {
      assert e in s <==> e in multiset(s);
      assert e in t <==> e in multiset(t);
    }
  }

  /** A newest entry scanned last is kept. */
  lemma NewestLast(before: seq<IndexEntry>, m: IndexEntry, stream: seq<IndexEntry>, rest: string)
    requires IsStream(stream, rest) && IsNewest(m, stream) && forall e :: e in before ==> e in stream
    ensures Kept(before + [m]) == m
  {
    hide Replaces, IsNewest, IsStream;
    assert (before + [m])[..|before|] == before;
    if before != [] {
      NewestReplaces(m, Kept(before), stream, rest);
    }
  }

  /** An older version that is not smaller as a string drives out a newest entry scanned just before it. */
  lemma DrivenOut(before: seq<IndexEntry>, m: IndexEntry, e: IndexEntry, stream: seq<IndexEntry>, rest: string)
    requires IsStream(stream, rest) && IsNewest(m, stream) && forall x :: x in before ==> x in stream
    requires e in stream && OlderVersion(e, m) && !Text.Less(e.version, m.version)
    ensures Kept(before + [m, e]) == e
  {
    hide Replaces, IsNewest, IsStream, HasRest, OlderVersion, Text.Less;
    var s := before + [m, e];
    assert s[..|s| - 1] == before + [m];
    NewestLast(before, m, stream, rest);
    assert HasRest(m, rest) && HasRest(e, rest) by { InStream(m, e, stream, rest); }
    ReplacesByNumber(e, m, rest);
  }

  lemma InStream(m: IndexEntry, e: IndexEntry, stream: seq<IndexEntry>, rest: string)
    requires IsStream(stream, rest) && IsNewest(m, stream) && e in stream
    ensures HasRest(m, rest) && HasRest(e, rest)
  {
  }

  /** Where the strings disagree, two scans of the same files keep different versions. */
  lemma OrderMatters(stream: seq<IndexEntry>, rest: string) returns (s: seq<IndexEntry>, t: seq<IndexEntry>)
    requires IsStream(stream, rest) && !StringsAgree(stream)
    ensures s != [] && multiset(s) == multiset(stream) && IsNewest(Kept(s), stream)
    ensures t != [] && multiset(t) == multiset(stream) && OlderVersion(Kept(t), Kept(s))
  {
    hide Kept, IsNewest, IsStream, OlderVersion, Text.Less;
    var m, e :| IsNewest(m, stream) && e in stream && OlderVersion(e, m) && !Text.Less(e.version, m.version);
    assert m in stream && m != e by { hide *; NewestDiffers(m, e, stream); }
    var others := MovedToEnd(stream, m);
    s := others + [m];
    SameElements(s, stream);
    NewestLast(others, m, stream, rest);
    var fewer := MovedToEnd(others, e);
    t := fewer + [m, e];
    assert multiset(t) == multiset(fewer + [e]) + multiset([m]);
    assert multiset(s) == multiset(others) + multiset([m]);
    SameElements(t, stream);
    DrivenOut(fewer, m, e, stream, rest);
  }

  lemma NewestDiffers(m: IndexEntry, e: IndexEntry, stream: seq<IndexEntry>)
    requires IsNewest(m, stream) && OlderVersion(e, m)
    ensures m in stream && m != e && Older(e, m)
  {
    hide VersionOf;
  }

  /**
   Every order of scanning keeps a newest entry exactly when every older version of the name is also
   smaller as a string.
   */
  lemma EveryScanKeepsNewest(stream: seq<IndexEntry>, rest: string)
    requires stream != [] && IsStream(stream, rest)
    ensures (forall s | s != [] && multiset(s) == multiset(stream) :: IsNewest(Kept(s), stream))
            <==> StringsAgree(stream)
  {
    hide StringsAgree, Kept, IsStream, VersionOf;
    if StringsAgree(stream) {
      var m := NewestExists(stream);
      forall s: seq<IndexEntry> | s != [] && multiset(s) == multiset(stream)
        ensures IsNewest(Kept(s), stream)
      {
        SameElements(s, stream);
        KeptIsNewest(s, m, stream, rest);
      }
    } else {
      var s, t := OrderMatters(stream, rest);
      assert Older(Kept(t), Kept(s));
    }
  }

  predicate SameKey(a: IndexEntry, b: IndexEntry) {
    Version.SameNumbers(VersionOf(a), VersionOf(b)) && a.release == b.release
  }

  /** Likewise, the key that is kept is the same for every order of scanning. */
  lemma EveryScanKeepsSameKey(stream: seq<IndexEntry>, rest: string)
    requires stream != [] && IsStream(stream, rest)
    ensures (forall s, t | s != [] && t != [] && multiset(s) == multiset(stream) && multiset(t) == multiset(stream) ::
               SameKey(Kept(s), Kept(t)))
            <==> StringsAgree(stream)
  {
    hide StringsAgree, Kept, IsStream, VersionOf;
    EveryScanKeepsNewest(stream, rest);
    if !StringsAgree(stream) {
      var s, t := OrderMatters(stream, rest);
      assert !SameKey(Kept(s), Kept(t));
    }
  }

  /** `9.0.0` drives out `10.0.0`, although it is the older one: as a string it is the greater. */
  lemma NineReplacesTen(nine: IndexEntry, ten: IndexEntry)
    requires nine.version == "9.0.0" && ten.version == "10.0.0"
    ensures OlderVersion(nine, ten) && Replaces(nine, ten) && Replaces(ten, nine)
    ensures Kept([ten, nine]) == nine && Kept([nine, ten]) == ten
  {
    hide Version.Parse, Replaces;
    assert Version.Print(9, 0, 0) == "9.0.0" && Version.Print(10, 0, 0) == "10.0.0" by { Text.SmallNumbers(); }
    Version.ParsePrinted(9, 0, 0);
    Version.ParsePrinted(10, 0, 0);
    ReplacesByNumber(nine, ten, "");
    ReplacesByNumber(ten, nine, "");
    assert [ten, nine][..1] == [ten] && [nine, ten][..1] == [nine];
  }

  // ----- scanning the directories -----

  /** What reading a file of a category directory gives; the digest is missing if it cannot be read. */
  datatype ScannedFile = ScannedFile(
    filename: string, sha256: Option<string>, depends: Depends, description: string, license: string, size: nat)

  /** A category that is there; listing its directory may fail. */
  datatype Category = Category(name: string, listable: bool, files: set<ScannedFile>)

  /** The extension is `prot` and something stands before it. */
  predicate IsProtFile(f: ScannedFile) {
    |f.filename| > 5 && f.filename[|f.filename| - 5..] == ".prot"
  }

  function EntryOf(category: string, f: ScannedFile, numeric: char -> bool): IndexEntry
    requires IsProtFile(f) && f.sha256.Some?
  {
    var parsed := ProtName.Parsed(f.filename[..|f.filename| - 5], numeric);
    IndexEntry(parsed.name, parsed.version, parsed.release, f.description, f.license, parsed.arch, category,
               category + "/" + f.filename, f.sha256.value, f.depends, [], [], f.size, "")
  }

  /** A file written under a readable name is indexed under the name, version and release it was packed with. */
  lemma PackedIsIndexed(p: ProtName.ProtName, category: string, f: ScannedFile, numeric: char -> bool)
    requires ProtName.IsReadable(p, numeric) && p.release < Text.U32_BOUND
    requires f.filename == ProtName.FileStem(p) + ".prot" && f.sha256.Some?
    ensures IsProtFile(f)
    ensures var e := EntryOf(category, f, numeric);
      e.name == p.name && e.version == p.version && e.release == p.release && e.arch == p.arch
  {
    hide ProtName.Parsed, ProtName.IsReadable;
    ProtName.ReadsBack(p, numeric);
    assert f.filename[..|f.filename| - 5] == ProtName.FileStem(p);
    assert f.filename[|f.filename| - 5..] == ".prot";
  }

  /** The directory can be listed and every package file in it can be hashed. */
  ghost predicate IsReadable(c: Category) {
    c.listable && forall f :: f in c.files && IsProtFile(f) ==> f.sha256.Some?
  }

  ghost predicate IsUnreadable(categories: seq<Category>) {
    exists i :: 0 <= i < |categories| && !IsReadable(categories[i])
  }

  /** The entries of every package file in the given categories. */
  ghost predicate Covers(scan: seq<IndexEntry>, categories: seq<Category>, numeric: char -> bool) {
    forall e :: e in scan <==> exists i, f :: 0 <= i < |categories| && IsEntryOf(e, categories[i], f, numeric)
  }

  predicate IsEntryOf(e: IndexEntry, c: Category, f: ScannedFile, numeric: char -> bool) {
    f in c.files && IsProtFile(f) && f.sha256.Some? && e == EntryOf(c.name, f, numeric)
  }

  /** The package files among some files. */
  function ProtFiles(files: set<ScannedFile>): set<ScannedFile> {
    set f | f in files && IsProtFile(f)
  }

  /** How many package files there are in all. */
  function ProtCount(categories: seq<Category>): nat {
    if categories == [] then 0
    else ProtCount(categories[..|categories| - 1]) + |ProtFiles(categories[|categories| - 1].files)|
  }

  lemma OneFileMore(files: set<ScannedFile>, f: ScannedFile)
    requires f !in files
    ensures ProtFiles(files + {f}) == if IsProtFile(f) then ProtFiles(files) + {f} else ProtFiles(files)
    ensures |ProtFiles(files + {f})| == |ProtFiles(files)| + if IsProtFile(f) then 1 else 0
  {
    hide IsProtFile;
    assert ProtFiles(files + {f}) == if IsProtFile(f) then ProtFiles(files) + {f} else ProtFiles(files);
  }

  /** What the scan of a directory has done once only `files` are left of it. */
  ghost predicate ScanInv(c: Category, files: set<ScannedFile>, numeric: char -> bool, count: nat,
                          scan: seq<IndexEntry>)
  {
    && files <= c.files && count == |scan| == |ProtFiles(c.files - files)|
    && (forall f :: f in c.files - files && IsProtFile(f) ==> f.sha256.Some?)
    && forall e :: e in scan <==> exists f :: f !in files && IsEntryOf(e, c, f, numeric)
  }

  lemma ScanBegins(c: Category, numeric: char -> bool)
    ensures ScanInv(c, c.files, numeric, 0, [])
  {
    assert c.files - c.files == {} && ProtFiles({}) == {};
  }

  lemma ScanSkips(c: Category, files: set<ScannedFile>, f: ScannedFile, numeric: char -> bool, count: nat,
                  scan: seq<IndexEntry>)
    requires ScanInv(c, files, numeric, count, scan) && f in files && !IsProtFile(f)
    ensures ScanInv(c, files - {f}, numeric, count, scan)
  {
    hide EntryOf, ProtFiles;
    OneFileMore(c.files - files, f);
    assert c.files - (files - {f}) == c.files - files + {f};
  }

  lemma ScanAdds(c: Category, files: set<ScannedFile>, f: ScannedFile, numeric: char -> bool, count: nat,
                 scan: seq<IndexEntry>)
    requires ScanInv(c, files, numeric, count, scan) && f in files && IsProtFile(f) && f.sha256.Some?
    ensures ScanInv(c, files - {f}, numeric, count + 1, scan + [EntryOf(c.name, f, numeric)])
  {
    hide EntryOf, ProtFiles, IsProtFile;
    OneFileMore(c.files - files, f);
    assert c.files - (files - {f}) == c.files - files + {f};
    var entry := EntryOf(c.name, f, numeric);
    assert IsEntryOf(entry, c, f, numeric);
    forall e
      ensures e in scan + [entry] <==> e in scan || e == entry
    {
    }
  }

  lemma ScanEnds(c: Category, numeric: char -> bool, count: nat, scan: seq<IndexEntry>)
    requires c.listable && ScanInv(c, {}, numeric, count, scan)
    ensures IsReadable(c) && count == |scan| == |ProtFiles(c.files)|
    ensures forall e :: e in scan <==> exists f :: IsEntryOf(e, c, f, numeric)
  {
    hide EntryOf;
    assert c.files - {} == c.files;
  }

  /** The loop over one directory, in whatever order it lists its files. */
  method ScanCategory(index: RepositoryIndex, c: Category, numeric: char -> bool, ghost before: seq<IndexEntry>)
    returns (ok: bool, count: nat, ghost scan: seq<IndexEntry>)
    requires index.Valid() && index.View() == AddedAll(EMPTY, before)
    modifies index
    ensures ok <==> IsReadable(c)
    ensures ok ==> index.Valid() && index.View() == AddedAll(EMPTY, before + scan)
    ensures ok ==> count == |scan| == |ProtFiles(c.files)|
    ensures ok ==> forall e :: e in scan <==> exists f :: IsEntryOf(e, c, f, numeric)
  {
    hide Added, AddedAll, EntryOf, ProtFiles, IsProtFile, ScanInv;
    var files := c.files;
    count, scan := 0, [];
    assert before + scan == before;
    if !c.listable {
      return false, count, scan;
    }
    ScanBegins(c, numeric);
    while files != {}
      invariant files <= c.files && ScanInv(c, files, numeric, count, scan)
      invariant index.Valid() && index.View() == AddedAll(EMPTY, before + scan)
      decreases files
    {
      var f :| f in files;
      if !IsProtFile(f) {
        ScanSkips(c, files, f, numeric, count, scan);
        files := files - {f};
        continue;
      }
      if f.sha256.None? {
        return false, count, scan;
      }
      ScanAdds(c, files, f, numeric, count, scan);
      var entry := EntryOf(c.name, f, numeric);
      AddedAllSnoc(EMPTY, before + scan, entry);
      assert before + scan + [entry] == before + (scan + [entry]);
      index.AddEntry(entry);
      files, count, scan := files - {f}, count + 1, scan + [entry];
    }
    ScanEnds(c, numeric, count, scan);
    ok := true;
  }

  /** `rebuild_index`: one category after the other; what cannot be read ends it, and nothing is saved then. */
  method RebuildIndex(categories: seq<Category>, numeric: char -> bool, encode: IndexEntry -> string,
                      sha: string -> string, files: IndexFiles, fault: SaveFault)
    returns (ok: bool, after: IndexFiles, count: nat, ghost scan: seq<IndexEntry>)
    ensures ok <==> !IsUnreadable(categories) && fault == NoFault
    ensures IsUnreadable(categories) ==> after == files
    ensures !IsUnreadable(categories) ==>
              var ix := AddedAll(EMPTY, scan);
              && Covers(scan, categories, numeric) && count == |scan| == ProtCount(categories)
              && after == SavedFiles(files, JsonLines.Saved(Listed(ix, ix.order), encode), sha, fault)
  {
    hide IsEntryOf, IsReadable;
    var index := new RepositoryIndex();
    count, scan := 0, [];
    for i := 0 to |categories|
      invariant fresh(index) && index.Valid() && index.View() == AddedAll(EMPTY, scan) && count == |scan|
      invariant count == ProtCount(categories[..i])
      invariant forall j :: 0 <= j < i ==> IsReadable(categories[j])
      invariant forall e :: e in scan <==> exists j, f :: 0 <= j < i && IsEntryOf(e, categories[j], f, numeric)
    {
      var more, n;
      ghost var added;
      more, n, added := ScanCategory(index, categories[i], numeric, scan);
      if !more {
        return false, files, count, scan;
      }
      assert categories[..i + 1][..i] == categories[..i];
      count, scan := count + n, scan + added;
    }
    assert categories[..|categories|] == categories;
    ok, after := index.Save(encode, sha, files, fault);
  }

  /**
   However the directories list their files, a rebuilt index holds a newest package of every name whose
   older versions are also smaller as strings.
   */
  lemma RebuildKeepsNewest(scan: seq<IndexEntry>, other: seq<IndexEntry>, categories: seq<Category>,
                           numeric: char -> bool, name: string, rest: string)
    requires Covers(scan, categories, numeric) && Covers(other, categories, numeric)
    requires IsStream(OfName(scan, name), rest) && StringsAgree(OfName(scan, name))
    ensures var ix, iy := AddedAll(EMPTY, scan), AddedAll(EMPTY, other);
      && (name in ix.entries <==> name in iy.entries)
      && (name in ix.entries ==>
            IsNewest(ix.entries[name], OfName(scan, name)) && SameKey(ix.entries[name], iy.entries[name]))
  {
    hide Covers, StringsAgree, Kept, AddedAll, IsStream, VersionOf;
    IndexHoldsKept(scan, name);
    IndexHoldsKept(other, name);
    assert forall e :: e in scan <==> e in other by { SameCover(scan, other, categories, numeric); }
    var stream, again := OfName(scan, name), OfName(other, name);
    if stream != [] {
      var m := NewestExists(stream);
      assert again != [] by { assert m in again; }
      KeptIsNewest(stream, m, stream, rest);
      KeptIsNewest(again, m, stream, rest);
    } else {
      assert forall e :: e in again ==> e in stream;
    }
  }

  lemma SameCover(scan: seq<IndexEntry>, other: seq<IndexEntry>, categories: seq<Category>, numeric: char -> bool)
    requires Covers(scan, categories, numeric) && Covers(other, categories, numeric)
    ensures forall e :: e in scan <==> e in other
  {
    hide IsEntryOf;
  }
}
