/** The database of installed packages, a list that is kept in a file of JSON lines. */
module LocalDb {
  import opened Wrappers
  import JsonLines
  import Text

  /** A record; the date of installation is left out. */
  datatype InstalledPackage = InstalledPackage(
    name: string, version: string, release: nat, packageHash: string, files: seq<string>, depends: seq<string>,
    origin: string)

  // ----- the list -----

  /** The first record of a name. */
  function FindIn(db: seq<InstalledPackage>, name: string): (r: Option<InstalledPackage>)
    ensures r.None? <==> forall p :: p in db ==> p.name != name
    ensures r.Some? ==> r.value in db && r.value.name == name
  {
    if db == [] then None
    else if db[0].name == name then Some(db[0])
    else FindIn(db[1..], name)
  }

  predicate IsIn(db: seq<InstalledPackage>, name: string) {
    FindIn(db, name).Some?
  }

  function Retained(db: seq<InstalledPackage>, name: string): (r: seq<InstalledPackage>)
    ensures forall p :: p in r <==> p in db && p.name != name
  {
    if db == [] then []
    else (if db[0].name == name then [] else [db[0]]) + Retained(db[1..], name)
  }

  function AddedTo(db: seq<InstalledPackage>, p: InstalledPackage): seq<InstalledPackage> {
    Retained(db, p.name) + [p]
  }

  function RemovedFrom(db: seq<InstalledPackage>, name: string): seq<InstalledPackage> {
    if db == [] then []
    else if db[0].name == name then db[1..]
    else [db[0]] + RemovedFrom(db[1..], name)
  }

  ghost predicate HasDistinctNames(db: seq<InstalledPackage>) {
    forall i, j :: 0 <= i < j < |db| ==> db[i].name != db[j].name
  }

  lemma {:induction false} FindAppend(a: seq<InstalledPackage>, b: seq<InstalledPackage>, name: string)
    ensures FindIn(a + b, name) == if FindIn(a, name).Some? then FindIn(a, name) else FindIn(b, name)
  {
    if a == [] {
      assert a + b == b;
    } else {
      assert (a + b)[1..] == a[1..] + b;
      FindAppend(a[1..], b, name);
    }
  }

  lemma {:induction false} FindRetained(db: seq<InstalledPackage>, name: string, n: string)
    ensures FindIn(Retained(db, name), n) == if n == name then None else FindIn(db, n)
  {
    if db != [] {
      FindRetained(db[1..], name, n);
      var rest := Retained(db[1..], name);
      FindAppend(if db[0].name == name then [] else [db[0]], rest, n);
    }
  }

  /** Adding a package sets the record of its name and no other. */
  lemma FindAdded(db: seq<InstalledPackage>, p: InstalledPackage, n: string)
    ensures FindIn(AddedTo(db, p), n) == if n == p.name then Some(p) else FindIn(db, n)
  {
    FindRetained(db, p.name, n);
    FindAppend(Retained(db, p.name), [p], n);
  }

  /** With distinct names, removing a name takes its record away and no other. */
  lemma {:induction false} FindRemoved(db: seq<InstalledPackage>, name: string, n: string)
    requires HasDistinctNames(db)
    ensures FindIn(RemovedFrom(db, name), n) == if n == name then None else FindIn(db, n)
  {
    if db != [] {
      assert forall p :: p in db[1..] ==> p.name != db[0].name;
      if db[0].name != name {
        FindRemoved(db[1..], name, n);
        assert ([db[0]] + RemovedFrom(db[1..], name))[1..] == RemovedFrom(db[1..], name);
      }
    }
  }

  lemma {:induction false} RetainedIsDistinct(db: seq<InstalledPackage>, name: string)
    requires HasDistinctNames(db)
    ensures HasDistinctNames(Retained(db, name))
  {
    if db != [] {
      RetainedIsDistinct(db[1..], name);
      assert forall p :: p in db[1..] ==> p.name != db[0].name;
      assert forall p :: p in Retained(db[1..], name) ==> p in db[1..];
    }
  }

  /** Whatever the list was, the added name is in it once; distinct names stay distinct. */
  lemma AddedIsDistinct(db: seq<InstalledPackage>, p: InstalledPackage)
    requires HasDistinctNames(db)
    ensures HasDistinctNames(AddedTo(db, p))
  {
    RetainedIsDistinct(db, p.name);
  }

  lemma {:induction false} RemovedMembers(db: seq<InstalledPackage>, name: string)
    ensures forall p :: p in RemovedFrom(db, name) ==> p in db
  {
    if db != [] {
      RemovedMembers(db[1..], name);
    }
  }

  lemma {:induction false} RemovedIsDistinct(db: seq<InstalledPackage>, name: string)
    requires HasDistinctNames(db)
    ensures HasDistinctNames(RemovedFrom(db, name))
  {
    if db != [] {
      RemovedIsDistinct(db[1..], name);
      RemovedMembers(db[1..], name);
      assert forall p :: p in db[1..] ==> p.name != db[0].name;
    }
  }

  lemma {:induction false} RemovedAppend(a: seq<InstalledPackage>, b: seq<InstalledPackage>, name: string)
    requires FindIn(a, name).None?
    ensures RemovedFrom(a + b, name) == a + RemovedFrom(b, name)
  {
    if a == [] {
      assert a + b == b;
    } else {
      var rest, r := a[1..], RemovedFrom(b, name);
      assert (a + b)[0] == a[0] && (a + b)[1..] == rest + b;
      RemovedAppend(rest, b, name);
      assert [a[0]] + (rest + r) == a + r;
    }
  }

  /** With distinct names, to be recorded is to be found. */
  lemma {:induction false} MemberIsFound(db: seq<InstalledPackage>, p: InstalledPackage)
    requires HasDistinctNames(db)
    ensures p in db <==> FindIn(db, p.name) == Some(p)
  {
    if db != [] && p in db {
      assert forall q :: q in db[1..] ==> q.name != db[0].name;
      if p != db[0] {
        MemberIsFound(db[1..], p);
      }
    }
  }

  lemma SameName(db: seq<InstalledPackage>, p: InstalledPackage, q: InstalledPackage)
    requires HasDistinctNames(db) && p in db && q in db
    ensures p.name == q.name ==> p == q
  {
  }

  /** Removing takes out the first record of the name. */
  lemma RemovedAt(db: seq<InstalledPackage>, name: string, i: nat)
    requires i <= |db| && (forall j :: 0 <= j < i ==> db[j].name != name) && (i < |db| ==> db[i].name == name)
    ensures FindIn(db, name) == if i < |db| then Some(db[i]) else None
    ensures RemovedFrom(db, name) == if i < |db| then db[..i] + db[i + 1..] else db
  {
    var a, b := db[..i], db[i..];
    assert db == a + b;
    FindAppend(a, b, name);
    RemovedAppend(a, b, name);
    assert b != [] ==> b[1..] == db[i + 1..];
  }

  /** With distinct names, what adding leaves of the others is what removing leaves: all of them, in order. */
  lemma {:induction false} RetainedIsRemoved(db: seq<InstalledPackage>, name: string)
    requires HasDistinctNames(db)
    ensures Retained(db, name) == RemovedFrom(db, name)
  {
    if db != [] {
      RetainedIsRemoved(db[1..], name);
      if db[0].name == name {
        AbsentIsKept(db[1..], name);
      }
    }
  }

  lemma {:induction false} AbsentIsKept(db: seq<InstalledPackage>, name: string)
    requires forall p :: p in db ==> p.name != name
    ensures RemovedFrom(db, name) == db
  {
    if db != [] {
      AbsentIsKept(db[1..], name);
      assert [db[0]] + db[1..] == db;
    }
  }

  /** Adding takes the record of the name out of its place and puts the new one at the end. */
  lemma AddedAt(db: seq<InstalledPackage>, p: InstalledPackage, i: nat)
    requires HasDistinctNames(db)
    requires i <= |db| && (i < |db| ==> db[i].name == p.name)
    requires i == |db| ==> forall q :: q in db ==> q.name != p.name
    ensures AddedTo(db, p) == (if i < |db| then db[..i] + db[i + 1..] else db) + [p]
  {
    RetainedIsRemoved(db, p.name);
    RemovedAt(db, p.name, i);
  }

  // ----- the file -----

  /** What loading finds; there may be no file yet. */
  function Stored(file: Option<string>, decode: string -> Option<InstalledPackage>): seq<InstalledPackage> {
    match file
    case None => []
    case Some(content) => JsonLines.Loaded(Text.Lines(content), false, decode)
  }

  ghost predicate IsCodec(encode: InstalledPackage -> string, decode: string -> Option<InstalledPackage>) {
    forall p :: JsonLines.IsCoded(p, encode, decode)
  }

  class LocalDb {
    var packages: seq<InstalledPackage>
    /** The content of `installed.db`. */
    var file: Option<string>

    constructor (file: Option<string>)
      ensures packages == [] && this.file == file
    {
      packages, this.file := [], file;
    }

    method Load(decode: string -> Option<InstalledPackage>)
      modifies this`packages
      ensures packages == Stored(file, decode)
    {
      hide Text.Lines, Text.Trim;
      packages := [];
      if file.None? {
        return;
      }
      var lines := Text.Lines(file.value);
      var loaded := [];
      for i := 0 to |lines|
        invariant loaded == JsonLines.Loaded(lines[..i], false, decode)
      {
        JsonLines.LoadedSnoc(lines, i, false, decode);
        var trimmed := Text.Trim(lines[i]);
        if trimmed == "" {
          continue;
        }
        var parsed := decode(trimmed);
        if parsed.Some? {
          loaded := loaded + [parsed.value];
        }
      }
      assert lines[..|lines|] == lines;
      packages := loaded;
    }

    /** What is saved is what the next load finds. */
    method Save(encode: InstalledPackage -> string, ghost decode: string -> Option<InstalledPackage>)
      requires IsCodec(encode, decode)
      modifies this`file
      ensures file == Some(JsonLines.Saved(packages, encode))
      ensures Stored(file, decode) == packages
    {
      var content := "";
      for i := 0 to |packages|
        invariant content == JsonLines.Saved(packages[..i], encode)
      {
        JsonLines.SavedSnoc(packages, i, encode);
        content := content + encode(packages[i]) + "\n";
      }
      assert packages[..|packages|] == packages;
      JsonLines.LoadedSaved(packages, false, encode, decode);
      file := Some(content);
    }

    method Add(p: InstalledPackage)
      modifies this`packages
      ensures packages == AddedTo(old(packages), p)
    {
      packages := Retained(packages, p.name);
      packages := packages + [p];
    }

    method Remove(name: string) returns (removed: Option<InstalledPackage>)
      modifies this`packages
      ensures packages == RemovedFrom(old(packages), name)
      ensures removed == FindIn(old(packages), name)
    {
      var i := 0;
      while i < |packages| && packages[i].name != name
        invariant i <= |packages|
        invariant forall j :: 0 <= j < i ==> packages[j].name != name
      {
        i := i + 1;
      }
      RemovedAt(packages, name, i);
      removed := None;
      if i < |packages| {
        removed := Some(packages[i]);
        packages := packages[..i] + packages[i + 1..];
      }
    }
  }
}
