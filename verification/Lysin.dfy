/** The package manager: installing, removing and updating packages from a list of repositories. */
module Lysin {
  import opened Wrappers
  import opened LocalDb
  import Digest
  import ProtName
  import RepositoryIndex
  import Text
  import Version

  type IndexEntry = RepositoryIndex.IndexEntry
  type Content = seq<Digest.Byte>
  type Files = map<string, Content>

  /** A member of an archive: a file under `FILES/`, with the path it is unpacked to, or something else. */
  datatype Member = File(path: string, content: Content) | Skipped | Bad

  /** A package file: what hashing it gives and what unpacking it meets. */
  datatype Prot = Prot(sha256: string, members: seq<Member>)

  /** A configured repository: no such path, no readable index, or an index and some package files. */
  datatype Repo = Missing | Broken | Opened(index: RepositoryIndex.Index, prots: map<string, Prot>)

  /** The repositories in order, and what the local store has under each package name. */
  datatype Config = Config(repos: seq<Repo>, cache: map<string, Prot>)

  datatype Error =
    | NotFound | RepositoryBroken | FileMissing | HashMismatch | UnpackFailed
    | NotInstalled | HasDependents(names: seq<string>)

  /** The database and the files of the system. */
  datatype World = World(db: seq<InstalledPackage>, files: Files)

  datatype Outcome = Outcome(world: World, error: Option<Error>)

  // ----- dependencies by name -----

  function FirstWord(s: string): (r: string)
    ensures r <= s && forall i :: 0 <= i < |r| ==> !Text.IsWhitespace(r[i])
    ensures |r| < |s| ==> Text.IsWhitespace(s[|r|])
  {
    if s == "" || Text.IsWhitespace(s[0]) then "" else [s[0]] + FirstWord(s[1..])
  }

  /** `dep.split_whitespace().next().unwrap_or(dep)` */
  function DependencyName(dep: string): string {
    var word := FirstWord(Text.TrimStart(dep));
    if word == "" then dep else word
  }

  // ----- looking a package up -----

  function FindInRepos(name: string, repos: seq<Repo>): (r: Result<(IndexEntry, Repo), Error>)
    ensures r.Ok? ==> r.value.1 in repos && r.value.1.Opened?
    ensures r.Ok? ==> name in r.value.1.index.entries && r.value.0 == r.value.1.index.entries[name]
  {
    if repos == [] then Err(NotFound)
    else match repos[0]
      case Missing => FindInRepos(name, repos[1..])
      case Broken => Err(RepositoryBroken)
      case Opened(index, _) =>
        if name in index.entries then Ok((index.entries[name], repos[0])) else FindInRepos(name, repos[1..])
  }

  method FindPackageInRepos(name: string, config: Config) returns (r: Result<(IndexEntry, Repo), Error>)
    ensures r == FindInRepos(name, config.repos)
  {
    for i := 0 to |config.repos|
      invariant FindInRepos(name, config.repos) == FindInRepos(name, config.repos[i..])
    {
      assert config.repos[i..][1..] == config.repos[i + 1..];
      match config.repos[i]
      case Missing =>
      case Broken =>
        return Err(RepositoryBroken);
      case Opened(index, _) =>
        if name in index.entries {
          return Ok((index.entries[name], config.repos[i]));
        }
    }
    r := Err(NotFound);
  }

  function RefName(entry: IndexEntry): string {
    ProtName.FileStem(ProtName.ProtName(entry.name, entry.version, entry.release, entry.arch))
  }

  /** The local store is asked first. */
  function ResolveProt(entry: IndexEntry, repo: Repo, cache: map<string, Prot>): Result<Prot, Error>
    requires repo.Opened?
  {
    if RefName(entry) in cache then Ok(cache[RefName(entry)]) else ProtInRepo(entry, repo)
  }

  function ProtInRepo(entry: IndexEntry, repo: Repo): Result<Prot, Error>
    requires repo.Opened?
  {
    if entry.filename in repo.prots then Ok(repo.prots[entry.filename]) else Err(FileMissing)
  }

  // ----- unpacking -----

  datatype Unpacked = Unpacked(files: Files, extracted: seq<string>, ok: bool)

  /** Files written before a bad member is met stay where they are. */
  function Unpack(files: Files, extracted: seq<string>, members: seq<Member>): Unpacked
    decreases |members|
  {
    if members == [] then Unpacked(files, extracted, true)
    else match members[0]
      case Bad => Unpacked(files, extracted, false)
      case Skipped => Unpack(files, extracted, members[1..])
      case File(path, content) => Unpack(files[path := content], extracted + [path], members[1..])
  }

  function Record(entry: IndexEntry, extracted: seq<string>): InstalledPackage {
    InstalledPackage(entry.name, entry.version, entry.release, entry.sha256, extracted, entry.depends.runtime,
                     entry.filename)
  }

  /** Unpack a verified package file and record it. */
  function UnpackAndRecord(w: World, entry: IndexEntry, prot: Prot): Outcome {
    var u := Unpack(w.files, [], prot.members);
    if u.ok then Outcome(World(AddedTo(w.db, Record(entry, u.extracted)), u.files), None)
    else Outcome(w.(files := u.files), Some(UnpackFailed))
  }

  function FilesWithout(files: Files, paths: seq<string>): Files {
    files - (set p | p in paths)
  }

  // ----- installing -----

  function InstalledSingle(w: World, name: string, config: Config): Outcome {
    match FindInRepos(name, config.repos)
    case Err(e) => Outcome(w, Some(e))
    case Ok((entry, repo)) =>
      match ResolveProt(entry, repo, config.cache)
      case Err(e) => Outcome(w, Some(e))
      case Ok(prot) =>
        if prot.sha256 != entry.sha256 then Outcome(w, Some(HashMismatch)) else UnpackAndRecord(w, entry, prot)
  }

  function InstalledAll(w: World, deps: seq<string>, config: Config): Outcome
    decreases |deps|
  {
    if deps == [] then Outcome(w, None)
    else if IsIn(w.db, DependencyName(deps[0])) then InstalledAll(w, deps[1..], config)
    else
      var o := InstalledSingle(w, DependencyName(deps[0]), config);
      if o.error.Some? then o else InstalledAll(o.world, deps[1..], config)
  }

  function Installed(w: World, name: string, config: Config): Outcome {
    if IsIn(w.db, name) then Outcome(w, None)
    else match FindInRepos(name, config.repos)
      case Err(e) => Outcome(w, Some(e))
      case Ok((entry, _)) =>
        var o := InstalledAll(w, entry.depends.runtime, config);
        if o.error.Some? then o else InstalledSingle(o.world, name, config)
  }

  // ----- removing -----

  predicate DependsOn(p: InstalledPackage, name: string) {
    exists i :: 0 <= i < |p.depends| && DependencyName(p.depends[i]) == name
  }

  /** The other installed names whose first record names `name` as a dependency. */
  function Dependents(db: seq<InstalledPackage>, names: seq<string>, name: string): (r: seq<string>)
    ensures forall n :: n in r <==> n in names && n != name && IsIn(db, n) && DependsOn(FindIn(db, n).value, name)
  {
    if names == [] then []
    else
      var n := names[0];
      (if n != name && IsIn(db, n) && DependsOn(FindIn(db, n).value, name) then [n] else []) +
      Dependents(db, names[1..], name)
  }

  function NamesIn(db: seq<InstalledPackage>): (r: seq<string>)
    ensures |r| == |db| && forall i :: 0 <= i < |db| ==> r[i] == db[i].name
  {
    if db == [] then [] else [db[0].name] + NamesIn(db[1..])
  }

  function Removed(w: World, name: string, force: bool): Outcome {
    match FindIn(w.db, name)
    case None => Outcome(w, Some(NotInstalled))
    case Some(pkg) =>
      var dependents := Dependents(w.db, NamesIn(w.db), name);
      if dependents != [] && !force then Outcome(w, Some(HasDependents(dependents)))
      else Outcome(World(RemovedFrom(w.db, name), FilesWithout(w.files, pkg.files)), None)
  }

  // ----- updating -----

  predicate VersionIsNewer(newer: string, current: string) {
    match (Version.Parse(newer), Version.Parse(current))
    case (Ok(n), Ok(c)) => Version.Less(c, n)
    case _ => Text.Less(current, newer)
  }

  predicate IsNewer(version: string, release: nat, current: string, currentRelease: nat) {
    VersionIsNewer(version, current) || (version == current && release > currentRelease)
  }

  /** The first repository with something newer. */
  function FindNewer(name: string, version: string, release: nat, repos: seq<Repo>)
    : (r: Result<Option<(IndexEntry, Repo)>, Error>)
    ensures r.Ok? && r.value.Some? ==>
              var (entry, repo) := r.value.value;
              && repo in repos && repo.Opened? && name in repo.index.entries && entry == repo.index.entries[name]
              && IsNewer(entry.version, entry.release, version, release)
  {
    if repos == [] then Ok(None)
    else match repos[0]
      case Missing => FindNewer(name, version, release, repos[1..])
      case Broken => Err(RepositoryBroken)
      case Opened(index, _) =>
        if name in index.entries
           && IsNewer(index.entries[name].version, index.entries[name].release, version, release)
        then Ok(Some((index.entries[name], repos[0])))
        else FindNewer(name, version, release, repos[1..])
  }

  datatype Planned = Planned(current: InstalledPackage, entry: IndexEntry, repo: Repo)

  /** A package whose check fails is passed over. */
  function PlannedFor(p: InstalledPackage, repos: seq<Repo>): (r: seq<Planned>)
    ensures forall u :: u in r ==> u.repo.Opened?
  {
    match FindNewer(p.name, p.version, p.release, repos)
    case Ok(Some((entry, repo))) => [Planned(p, entry, repo)]
    case _ => []
  }

  /** The packages with something newer. */
  function Plan(db: seq<InstalledPackage>, repos: seq<Repo>): (r: seq<Planned>)
    ensures forall u :: u in r ==> u.repo.Opened?
  {
    if db == [] then [] else PlannedFor(db[0], repos) + Plan(db[1..], repos)
  }

  lemma PlanOfNone(repos: seq<Repo>)
    ensures Plan([], repos) == []
  {
  }

  /** The plan for the records from the `i`-th on, with what is planned already put before it. */
  lemma PlanStep(before: seq<Planned>, db: seq<InstalledPackage>, i: nat, repos: seq<Repo>)
    requires i < |db|
    ensures before + Plan(db[i..], repos) == before + PlannedFor(db[i], repos) + Plan(db[i + 1..], repos)
  {
    hide PlannedFor;
    assert db[i..][1..] == db[i + 1..];
    var step, rest := PlannedFor(db[i], repos), Plan(db[i + 1..], repos);
    assert Plan(db[i..], repos) == step + rest;
    hide Plan;
    assert before + (step + rest) == before + step + rest;
  }

  /** The package file is checked before the old files go; the local store is not asked. */
  function UpdatedSingle(w: World, u: Planned): Outcome
    requires u.repo.Opened?
  {
    match ProtInRepo(u.entry, u.repo)
    case Err(e) => Outcome(w, Some(e))
    case Ok(prot) =>
      if prot.sha256 != u.entry.sha256 then Outcome(w, Some(HashMismatch))
      else UnpackAndRecord(w.(files := FilesWithout(w.files, u.current.files)), u.entry, prot)
  }

  datatype UpdateOutcome = UpdateOutcome(world: World, updated: nat, failed: nat)

  function UpdatedAll(w: World, updated: nat, failed: nat, plan: seq<Planned>): UpdateOutcome
    requires forall u :: u in plan ==> u.repo.Opened?
    decreases |plan|
  {
    if plan == [] then UpdateOutcome(w, updated, failed)
    else
      var o := UpdatedSingle(w, plan[0]);
      if o.error.None? then UpdatedAll(o.world, updated + 1, failed, plan[1..])
      else UpdatedAll(o.world, updated, failed + 1, plan[1..])
  }

  function Updated(w: World, config: Config): UpdateOutcome {
    UpdatedAll(w, 0, 0, Plan(w.db, config.repos))
  }

  // ----- the operations -----

  datatype Codec = Codec(encode: InstalledPackage -> string, decode: string -> Option<InstalledPackage>)

  /** A system: its database with the file it is kept in, and its files. */
  class Host {
    const db: LocalDb
    var files: Files

    constructor (dbFile: Option<string>, files: Files)
      ensures fresh(db) && db.file == dbFile && this.files == files
    {
      db := new LocalDb(dbFile);
      this.files := files;
    }

    /** What a program started now would find. */
    function OnDisk(codec: Codec): World
      reads this, db
    {
      World(Stored(db.file, codec.decode), files)
    }

    function View(): World
      reads this, db
    {
      World(db.packages, files)
    }

    method UnpackProt(prot: Prot) returns (extracted: seq<string>, ok: bool)
      modifies this`files
      ensures Unpacked(files, extracted, ok) == Unpack(old(files), [], prot.members)
    {
      extracted := [];
      for i := 0 to |prot.members|
        invariant Unpack(old(files), [], prot.members) == Unpack(files, extracted, prot.members[i..])
      {
        assert prot.members[i..][1..] == prot.members[i + 1..];
        match prot.members[i]
        case Bad =>
          return extracted, false;
        case Skipped =>
        case File(path, content) =>
          files := files[path := content];
          extracted := extracted + [path];
      }
      ok := true;
    }

    method UnpackRecordSave(entry: IndexEntry, prot: Prot, codec: Codec) returns (error: Option<Error>)
      requires IsCodec(codec.encode, codec.decode) && OnDisk(codec) == View()
      modifies this`files, db
      ensures OnDisk(codec) == View()
      ensures Outcome(View(), error) == UnpackAndRecord(old(View()), entry, prot)
    {
      hide Unpack, Stored, IsCodec;
      var extracted, ok := UnpackProt(prot);
      if !ok {
        return Some(UnpackFailed);
      }
      db.Add(Record(entry, extracted));
      db.Save(codec.encode, codec.decode);
      error := None;
    }

    method InstallSingle(name: string, config: Config, codec: Codec) returns (error: Option<Error>)
      requires IsCodec(codec.encode, codec.decode) && OnDisk(codec) == View()
      modifies this`files, db
      ensures OnDisk(codec) == View()
      ensures Outcome(View(), error) == InstalledSingle(old(View()), name, config)
    {
      hide UnpackAndRecord, Stored, IsCodec, FindInRepos;
      var found := FindPackageInRepos(name, config);
      if found.Err? {
        return Some(found.error);
      }
      var (entry, repo) := found.value;
      var resolved := ResolveProt(entry, repo, config.cache);
      if resolved.Err? {
        return Some(resolved.error);
      }
      if resolved.value.sha256 != entry.sha256 {
        return Some(HashMismatch);
      }
      error := UnpackRecordSave(entry, resolved.value, codec);
    }

    /** Only the direct dependencies are installed along. */
    method Install(name: string, config: Config, codec: Codec) returns (error: Option<Error>)
      requires IsCodec(codec.encode, codec.decode)
      modifies this`files, db
      ensures Outcome(OnDisk(codec), error) == Installed(old(OnDisk(codec)), name, config)
    {
      hide InstalledSingle, Stored, IsCodec, FindInRepos, FindIn, DependencyName;
      db.Load(codec.decode);
      if IsIn(db.packages, name) {
        return None;
      }
      var found := FindPackageInRepos(name, config);
      if found.Err? {
        return Some(found.error);
      }
      var deps := found.value.0.depends.runtime;
      ghost var w := View();
      for i := 0 to |deps|
        invariant OnDisk(codec) == View()
        invariant InstalledAll(w, deps, config) == InstalledAll(View(), deps[i..], config)
      {
        assert deps[i..][1..] == deps[i + 1..];
        var depName := DependencyName(deps[i]);
        if !IsIn(db.packages, depName) {
          error := InstallSingle(depName, config, codec);
          if error.Some? {
            return;
          }
        }
      }
      error := InstallSingle(name, config, codec);
    }

    method RemoveFiles(paths: seq<string>)
      modifies this`files
      ensures files == FilesWithout(old(files), paths)
    {
      for i := 0 to |paths|
        invariant files == FilesWithout(old(files), paths[..i])
      {
        if paths[i] in files {
          files := files - {paths[i]};
        }
      }
      assert paths[..|paths|] == paths;
    }

    method Remove(name: string, force: bool, codec: Codec) returns (error: Option<Error>)
      requires IsCodec(codec.encode, codec.decode)
      modifies this`files, db
      ensures Outcome(OnDisk(codec), error) == Removed(old(OnDisk(codec)), name, force)
    {
      hide Stored, IsCodec, DependencyName;
      db.Load(codec.decode);
      var found := FindIn(db.packages, name);
      if found.None? {
        return Some(NotInstalled);
      }
      var dependents := Dependents(db.packages, NamesIn(db.packages), name);
      if dependents != [] && !force {
        return Some(HasDependents(dependents));
      }
      RemoveFiles(found.value.files);
      var _ := db.Remove(name);
      db.Save(codec.encode, codec.decode);
      error := None;
    }

    method UpdateSingle(u: Planned, codec: Codec) returns (error: Option<Error>)
      requires u.repo.Opened?
      requires IsCodec(codec.encode, codec.decode) && OnDisk(codec) == View()
      modifies this`files, db
      ensures OnDisk(codec) == View()
      ensures Outcome(View(), error) == UpdatedSingle(old(View()), u)
    {
      hide UnpackAndRecord, FilesWithout, Stored, IsCodec;
      var prot := ProtInRepo(u.entry, u.repo);
      if prot.Err? {
        return Some(prot.error);
      }
      if prot.value.sha256 != u.entry.sha256 {
        return Some(HashMismatch);
      }
      RemoveFiles(u.current.files);
      error := UnpackRecordSave(u.entry, prot.value, codec);
    }

    method FindNewerVersion(pkg: InstalledPackage, repos: seq<Repo>)
      returns (r: Result<Option<(IndexEntry, Repo)>, Error>)
      ensures r == FindNewer(pkg.name, pkg.version, pkg.release, repos)
    {
      hide VersionIsNewer;
      ghost var all := FindNewer(pkg.name, pkg.version, pkg.release, repos);
      for i := 0 to |repos|
        invariant all == FindNewer(pkg.name, pkg.version, pkg.release, repos[i..])
      {
        assert repos[i..][1..] == repos[i + 1..];
        match repos[i]
        case Missing =>
        case Broken =>
          return Err(RepositoryBroken);
        case Opened(index, _) =>
          if pkg.name in index.entries {
            var entry := index.entries[pkg.name];
            if VersionIsNewer(entry.version, pkg.version) {
              return Ok(Some((entry, repos[i])));
            }
            if entry.version == pkg.version && entry.release > pkg.release {
              return Ok(Some((entry, repos[i])));
            }
          }
      }
      r := Ok(None);
    }

    /** The first half of `update`: what has something newer. */
    method CollectUpdates(installed: seq<InstalledPackage>, repos: seq<Repo>) returns (toUpdate: seq<Planned>)
      ensures toUpdate == Plan(installed, repos)
    {
      hide FindNewer, Plan, IsNewer;
      toUpdate := [];
      assert installed[0..] == installed && [] + Plan(installed, repos) == Plan(installed, repos);
      for i := 0 to |installed|
        invariant Plan(installed, repos) == toUpdate + Plan(installed[i..], repos)
      {
        PlanStep(toUpdate, installed, i, repos);
        ghost var step := PlannedFor(installed[i], repos);
        var newer := FindNewerVersion(installed[i], repos);
        if newer.Ok? && newer.value.Some? {
          var (entry, repo) := newer.value.value;
          assert step == [Planned(installed[i], entry, repo)];
          toUpdate := toUpdate + [Planned(installed[i], entry, repo)];
        } else {
          assert step == [] && toUpdate + step == toUpdate;
        }
      }
      PlanOfNone(repos);
      assert installed[|installed|..] == [] && toUpdate + [] == toUpdate;
    }

    method Update(config: Config, codec: Codec) returns (updatedCount: nat, failedCount: nat)
      requires IsCodec(codec.encode, codec.decode)
      modifies this`files, db
      ensures UpdateOutcome(OnDisk(codec), updatedCount, failedCount) == Updated(old(OnDisk(codec)), config)
    {
      hide Plan, UpdatedSingle, Stored, IsCodec;
      db.Load(codec.decode);
      ghost var w := View();
      var toUpdate := CollectUpdates(db.packages, config.repos);
      updatedCount, failedCount := 0, 0;
      for i := 0 to |toUpdate|
        invariant OnDisk(codec) == View()
        invariant UpdatedAll(w, 0, 0, toUpdate) == UpdatedAll(View(), updatedCount, failedCount, toUpdate[i..])
      {
        assert toUpdate[i..][1..] == toUpdate[i + 1..];
        var error := UpdateSingle(toUpdate[i], codec);
        if error.None? {
          updatedCount := updatedCount + 1;
        } else {
          failedCount := failedCount + 1;
        }
      }
    }
  }
}
