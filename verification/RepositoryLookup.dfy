/** From a scanned package file to the package manager that looks it up: the index says what the file is. */
module RepositoryLookup {
  import opened Wrappers
  import I = RepositoryIndex
  import opened RepositoryScan
  import opened Lysin
  import opened LysinAnswers
  import LysinPlans
  import LocalDb
  import ProtName
  import Text

  /** The entry is what was read of a package file in a category directory, with its path below the root. */
  predicate Describes(e: I.IndexEntry, category: string, f: ScannedFile) {
    && e.filename == category + "/" + f.filename && e.category == category && f.sha256 == Some(e.sha256)
    && e.depends.build == f.depends.build && e.depends.runtime == f.depends.runtime
    && e.description == f.description && e.license == f.license && e.installedSize == f.size
    && e.provided == [] && e.conflicts == [] && e.buildDate == ""
  }

  /** Every entry of a rebuilt index describes a package file that is there, whichever order it was scanned in. */
  lemma EntryIsScanned(scan: seq<I.IndexEntry>, categories: seq<Category>, numeric: char -> bool,
                       name: string)
    returns (i: nat, f: ScannedFile)
    requires Covers(scan, categories, numeric) && name in I.AddedAll(I.EMPTY, scan).entries
    ensures i < |categories| && f in categories[i].files && IsProtFile(f)
    ensures Describes(I.AddedAll(I.EMPTY, scan).entries[name], categories[i].name, f)
    ensures I.AddedAll(I.EMPTY, scan).entries[name].name == name
  {
    hide I.AddedAll, ProtName.Parsed;
    IndexHoldsKept(scan, name);
    var e := I.AddedAll(I.EMPTY, scan).entries[name];
    assert e in scan;
    i, f :| 0 <= i < |categories| && IsEntryOf(e, categories[i], f, numeric);
  }

  /** A package file with a readable name is known to the rebuilt index, under the name it was packed with. */
  lemma ScannedIsIndexed(scan: seq<I.IndexEntry>, categories: seq<Category>, numeric: char -> bool,
                         i: nat, f: ScannedFile, p: ProtName.ProtName)
    requires Covers(scan, categories, numeric) && i < |categories| && f in categories[i].files && f.sha256.Some?
    requires ProtName.IsReadable(p, numeric) && p.release < Text.U32_BOUND
    requires f.filename == ProtName.FileStem(p) + ".prot"
    ensures p.name in I.AddedAll(I.EMPTY, scan).entries
  {
    hide I.AddedAll, EntryOf, ProtName.IsReadable, ProtName.FileStem;
    PackedIsIndexed(p, categories[i].name, f, numeric);
    var e := EntryOf(categories[i].name, f, numeric);
    assert IsEntryOf(e, categories[i], f, numeric);
    assert e in scan && e in OfName(scan, p.name);
    IndexHoldsKept(scan, p.name);
  }

  /** The package manager finds the files of the repository under their paths below its root. */
  ghost predicate Serves(prots: map<string, Prot>, categories: seq<Category>) {
    forall i, f :: 0 <= i < |categories| && f in categories[i].files && IsProtFile(f) && f.sha256.Some? ==>
      var path := categories[i].name + "/" + f.filename;
      path in prots && Some(prots[path].sha256) == f.sha256
  }

  /**
   So in a repository that serves the files it was scanned from, the package file of every entry is found and
   has the hash promised: an install or an update from it can fail at a bad member only.
   */
  lemma ScannedIsFound(scan: seq<I.IndexEntry>, categories: seq<Category>, numeric: char -> bool,
                       prots: map<string, Prot>, name: string, w: World)
    requires Covers(scan, categories, numeric) && Serves(prots, categories)
    requires name in I.AddedAll(I.EMPTY, scan).entries
    ensures var ix := I.AddedAll(I.EMPTY, scan);
      var repo, entry := Opened(ix, prots), ix.entries[name];
      && entry.filename in prots && prots[entry.filename].sha256 == entry.sha256
      && (InstalledSingle(w, name, Config([repo], map[])).error.None? <==> Bad !in prots[entry.filename].members)
      && forall current :: LysinPlans.CanApply(Planned(current, entry, repo)) <==>
           Bad !in prots[entry.filename].members
  {
    var ix := I.AddedAll(I.EMPTY, scan);
    var repo, entry := Opened(ix, prots), ix.entries[name];
    var i, f := EntryIsScanned(scan, categories, numeric, name);
    assert entry.filename in prots && prots[entry.filename].sha256 == entry.sha256;
    hide I.AddedAll, Covers, Serves, InstalledSingle, LocalDb.FindIn, IsRecordOf, RefName;
    var config := Config([repo], map[]);
    LookupAnswers(name, [repo], 0);
    SingleAnswers(w, name, config, entry, repo);
    assert IsProtOf(prots[entry.filename], entry, repo, config);
  }

  /** And the local store is asked for a package under the very name that its file was packed with. */
  lemma CachedUnderItsName(p: ProtName.ProtName, category: string, f: ScannedFile, numeric: char -> bool)
    requires ProtName.IsReadable(p, numeric) && p.release < Text.U32_BOUND
    requires f.filename == ProtName.FileStem(p) + ".prot" && f.sha256.Some?
    ensures IsProtFile(f) && RefName(EntryOf(category, f, numeric)) + ".prot" == f.filename
  {
    hide EntryOf, ProtName.IsReadable, IsProtFile, Text.Decimal;
    PackedIsIndexed(p, category, f, numeric);
  }
}
