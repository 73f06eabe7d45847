/** When installing, removing and updating succeed, and what they answer when they do not. */
module LysinAnswers {
  import opened Wrappers
  import opened LocalDb
  import opened Lysin
  import opened LysinPlans
  import opened LysinDepends

  // ----- looking a package up -----

  predicate Holds(repo: Repo, name: string) {
    repo.Opened? && name in repo.index.entries
  }

  /** The search for a name ends here: a repository that has it, or one that cannot be read. */
  predicate Ends(repo: Repo, name: string) {
    repo.Broken? || Holds(repo, name)
  }

  /**
   The first repository that has the name decides, unless one that cannot be read comes before it; those that
   are missing or do not have the name are passed over.
   */
  lemma {:induction false} LookupAnswers(name: string, repos: seq<Repo>, i: nat)
    requires i <= |repos| && (forall j :: 0 <= j < i ==> !Ends(repos[j], name))
    requires i < |repos| ==> Ends(repos[i], name)
    ensures FindInRepos(name, repos) ==
              if i == |repos| then Err(NotFound)
              else if repos[i].Broken? then Err(RepositoryBroken)
              else Ok((repos[i].index.entries[name], repos[i]))
    decreases |repos|
  {
    if i > 0 {
      assert forall j :: 0 <= j < i - 1 ==> repos[1..][j] == repos[j + 1];
      LookupAnswers(name, repos[1..], i - 1);
      assert !Ends(repos[0], name);
    }
  }

  /** The repository has the package, newer. */
  predicate Offers(repo: Repo, name: string, version: string, release: nat) {
    Holds(repo, name) && IsNewer(repo.index.entries[name].version, repo.index.entries[name].release, version, release)
  }

  /** Likewise for an update: only what is newer counts, and older offers are passed over. */
  lemma {:induction false} NewerAnswers(name: string, version: string, release: nat, repos: seq<Repo>, i: nat)
    requires i <= |repos|
    requires forall j :: 0 <= j < i ==> !repos[j].Broken? && !Offers(repos[j], name, version, release)
    requires i < |repos| ==> repos[i].Broken? || Offers(repos[i], name, version, release)
    ensures FindNewer(name, version, release, repos) ==
              if i == |repos| then Ok(None)
              else if repos[i].Broken? then Err(RepositoryBroken)
              else Ok(Some((repos[i].index.entries[name], repos[i])))
    decreases |repos|
  {
    hide IsNewer;
    if i > 0 {
      assert forall j :: 0 <= j < i - 1 ==> repos[1..][j] == repos[j + 1];
      NewerAnswers(name, version, release, repos[1..], i - 1);
      assert !Offers(repos[0], name, version, release);
    }
  }

  // ----- installing -----

  /** The package file that is used for an entry: the one in the local store if there is one. */
  predicate IsProtOf(prot: Prot, entry: IndexEntry, repo: Repo, config: Config)
    requires repo.Opened?
  {
    if RefName(entry) in config.cache then prot == config.cache[RefName(entry)]
    else entry.filename in repo.prots && prot == repo.prots[entry.filename]
  }

  predicate IsFileIn(members: seq<Member>, path: string) {
    exists i :: 0 <= i < |members| && members[i].File? && members[i].path == path
  }

  lemma {:induction false} UnpackLists(files: Files, extracted: seq<string>, members: seq<Member>, path: string)
    requires Bad !in members
    ensures path in Unpack(files, extracted, members).extracted <==> path in extracted || IsFileIn(members, path)
    decreases |members|
  {
    if members != [] {
      var rest := members[1..];
      assert forall i :: 0 < i < |members| ==> members[i] == rest[i - 1];
      assert forall i :: 0 <= i < |rest| ==> rest[i] == members[i + 1];
      match members[0]
      case Bad =>
      case Skipped => UnpackLists(files, extracted, rest, path);
      case File(p, content) => UnpackLists(files[p := content], extracted + [p], rest, path);
    }
  }

  /** The record of a package that is installed or updated from an entry and a package file. */
  ghost predicate IsRecordOf(p: InstalledPackage, entry: IndexEntry, prot: Prot) {
    && p.name == entry.name && p.version == entry.version && p.release == entry.release
    && p.packageHash == entry.sha256 && p.depends == entry.depends.runtime && p.origin == entry.filename
    && forall path :: path in p.files <==> IsFileIn(prot.members, path)
  }

  lemma UnpackAnswers(w: World, entry: IndexEntry, prot: Prot)
    ensures var o := UnpackAndRecord(w, entry, prot);
      if Bad in prot.members then o.error == Some(UnpackFailed) && o.world.db == w.db
      else o.error.None? && FindIn(o.world.db, entry.name).Some?
           && IsRecordOf(FindIn(o.world.db, entry.name).value, entry, prot)
  {
    hide Unpack, FindIn, AddedTo, IsFileIn;
    UnpackEnds(w.files, [], prot.members);
    if Bad !in prot.members {
      var u := Unpack(w.files, [], prot.members);
      FindAdded(w.db, Record(entry, u.extracted), entry.name);
      forall path
        ensures path in u.extracted <==> IsFileIn(prot.members, path)
      {
        UnpackLists(w.files, [], prot.members, path);
      }
    }
  }

  /**
   Installing one package that is found: it fails if there is no package file, if that has another hash than
   the index says, or if a member of it is bad; in no other case. What is recorded is what the index says, with
   the files of the package.
   */
  lemma SingleAnswers(w: World, name: string, config: Config, entry: IndexEntry, repo: Repo)
    requires FindInRepos(name, config.repos) == Ok((entry, repo)) && repo.Opened?
    ensures var o := InstalledSingle(w, name, config);
      && ((forall prot :: !IsProtOf(prot, entry, repo, config)) ==> o == Outcome(w, Some(FileMissing)))
      && forall prot :: IsProtOf(prot, entry, repo, config) ==>
           if prot.sha256 != entry.sha256 then o == Outcome(w, Some(HashMismatch))
           else if Bad in prot.members then o.error == Some(UnpackFailed) && o.world.db == w.db
           else o.error.None? && FindIn(o.world.db, entry.name).Some?
                && IsRecordOf(FindIn(o.world.db, entry.name).value, entry, prot)
  {
    hide FindInRepos, UnpackAndRecord, FindIn, IsRecordOf, RefName;
    var resolved := ResolveProt(entry, repo, config.cache);
    if resolved.Ok? {
      assert IsProtOf(resolved.value, entry, repo, config);
      UnpackAnswers(w, entry, resolved.value);
    }
  }

  /** The package is found, and its package file is there, as the index says, and without a bad member. */
  ghost predicate IsObtainable(name: string, config: Config) {
    && FindInRepos(name, config.repos).Ok?
    && var (entry, repo) := FindInRepos(name, config.repos).value;
      exists prot :: IsProtOf(prot, entry, repo, config) && prot.sha256 == entry.sha256 && Bad !in prot.members
  }

  lemma SingleSucceeds(w: World, name: string, config: Config)
    ensures InstalledSingle(w, name, config).error.None? <==> IsObtainable(name, config)
    ensures InstalledSingle(w, name, config).error.Some? ==> InstalledSingle(w, name, config).world.db == w.db
    ensures FindInRepos(name, config.repos).Err? ==>
              InstalledSingle(w, name, config) == Outcome(w, Some(FindInRepos(name, config.repos).error))
  {
    hide FindIn, IsRecordOf, RefName, UnpackAndRecord;
    var found := FindInRepos(name, config.repos);
    if found.Ok? {
      SingleAnswers(w, name, config, found.value.0, found.value.1);
      if RefName(found.value.0) in config.cache {
        assert IsProtOf(config.cache[RefName(found.value.0)], found.value.0, found.value.1, config);
      } else if found.value.0.filename in found.value.1.prots {
        assert IsProtOf(found.value.1.prots[found.value.0.filename], found.value.0, found.value.1, config);
      }
    }
  }

  lemma {:induction false} AllSucceed(w: World, deps: seq<string>, config: Config)
    requires AreConsistent(config)
    ensures InstalledAll(w, deps, config).error.None? <==>
              forall n :: Names(deps, n) ==> IsIn(w.db, n) || IsObtainable(n, config)
    decreases |deps|
  {
    hide FindIn, InstalledSingle, DependencyName, AreConsistent, FindInRepos, IsObtainable;
    if deps != [] {
      var dep := DependencyName(deps[0]);
      assert forall n :: Names(deps, n) <==> n == dep || Names(deps[1..], n) by { NamesCons(deps); }
      var o := if IsIn(w.db, dep) then Outcome(w, None) else InstalledSingle(w, dep, config);
      if !IsIn(w.db, dep) {
        SingleSucceeds(w, dep, config);
        InstallSingleRecords(w, dep, config);
      }
      if o.error.None? {
        AllSucceed(o.world, deps[1..], config);
        assert forall n :: n != dep ==> (IsIn(o.world.db, n) <==> IsIn(w.db, n));
      }
    }
  }

  lemma NamesCons(deps: seq<string>)
    requires deps != []
    ensures forall n :: Names(deps, n) <==> n == DependencyName(deps[0]) || Names(deps[1..], n)
  {
    hide DependencyName;
    forall n
      ensures Names(deps, n) <==> n == DependencyName(deps[0]) || Names(deps[1..], n)
    {
      if i :| 0 <= i < |deps[1..]| && DependencyName(deps[1..][i]) == n {
        assert DependencyName(deps[i + 1]) == n;
      }
      if i :| 0 < i < |deps| && DependencyName(deps[i]) == n {
        assert deps[1..][i - 1] == deps[i];
      }
    }
  }

  /**
   Exactly when `install` succeeds: the package is installed already, or it can be had and so can each of its
   direct dependencies that is not installed.
   */
  lemma InstallSucceeds(w: World, name: string, config: Config)
    requires AreConsistent(config)
    ensures Installed(w, name, config).error.None? <==>
              || IsIn(w.db, name)
              || (IsObtainable(name, config)
                  && forall n :: Names(NeedsOf(name, config), n) ==> IsIn(w.db, n) || IsObtainable(n, config))
    ensures IsIn(w.db, name) ==> Installed(w, name, config) == Outcome(w, None)
    ensures !IsIn(w.db, name) && FindInRepos(name, config.repos).Err? ==>
              Installed(w, name, config) == Outcome(w, Some(FindInRepos(name, config.repos).error))
  {
    hide FindIn, InstalledSingle, InstalledAll, AreConsistent, Names;
    if !IsIn(w.db, name) && FindInRepos(name, config.repos).Ok? {
      var deps := NeedsOf(name, config);
      AllSucceed(w, deps, config);
      SingleSucceeds(InstalledAll(w, deps, config).world, name, config);
    }
  }

  /** Why installing one package fails does not depend on what is installed. */
  lemma ErrorIsSame(w: World, v: World, name: string, config: Config)
    ensures InstalledSingle(w, name, config).error == InstalledSingle(v, name, config).error
  {
    hide Unpack, AddedTo, FindInRepos, RefName;
    var found := FindInRepos(name, config.repos);
    if found.Ok? {
      var prot := ResolveProt(found.value.0, found.value.1, config.cache);
      if prot.Ok? {
        UnpackEnds(w.files, [], prot.value.members);
        UnpackEnds(v.files, [], prot.value.members);
      }
    }
  }

  lemma {:induction false} AllStop(w: World, deps: seq<string>, config: Config, i: nat)
    requires AreConsistent(config) && i < |deps|
    requires !IsIn(w.db, DependencyName(deps[i])) && !IsObtainable(DependencyName(deps[i]), config)
    requires forall j :: 0 <= j < i ==>
               IsIn(w.db, DependencyName(deps[j])) || IsObtainable(DependencyName(deps[j]), config)
    ensures InstalledAll(w, deps, config).error == InstalledSingle(w, DependencyName(deps[i]), config).error
    decreases |deps|
  {
    hide FindIn, InstalledSingle, DependencyName, AreConsistent, FindInRepos, IsObtainable;
    var dep, bad := DependencyName(deps[0]), DependencyName(deps[i]);
    SingleSucceeds(w, dep, config);
    if i > 0 {
      var o := if IsIn(w.db, dep) then Outcome(w, None) else InstalledSingle(w, dep, config);
      InstallSingleRecords(w, dep, config);
      assert dep != bad;
      forall j | 0 <= j < i - 1
        ensures IsIn(o.world.db, DependencyName(deps[1..][j])) || IsObtainable(DependencyName(deps[1..][j]), config)
      {
        assert deps[1..][j] == deps[j + 1];
      }
      AllStop(o.world, deps[1..], config, i - 1);
      ErrorIsSame(w, o.world, bad, config);
    }
  }

  /**
   What an install that fails answers: the first direct dependency, in the order of the entry, that is neither
   installed nor to be had gives the error; without one it is the package itself that does.
   */
  lemma InstallAnswers(w: World, name: string, config: Config, i: nat)
    requires AreConsistent(config) && !IsIn(w.db, name) && FindInRepos(name, config.repos).Ok?
    requires i <= |NeedsOf(name, config)|
    requires var deps := NeedsOf(name, config);
      && (forall j :: 0 <= j < i ==>
            IsIn(w.db, DependencyName(deps[j])) || IsObtainable(DependencyName(deps[j]), config))
      && (i < |deps| ==> !IsIn(w.db, DependencyName(deps[i])) && !IsObtainable(DependencyName(deps[i]), config))
    ensures var deps := NeedsOf(name, config);
      Installed(w, name, config).error ==
        InstalledSingle(w, if i < |deps| then DependencyName(deps[i]) else name, config).error
  {
    hide FindIn, InstalledSingle, AreConsistent, IsObtainable, DependencyName, InstalledAll, FindInRepos;
    var deps := NeedsOf(name, config);
    if i < |deps| {
      AllStop(w, deps, config, i);
      SingleSucceeds(w, DependencyName(deps[i]), config);
    } else {
      AllSucceed(w, deps, config);
      ErrorIsSame(w, InstalledAll(w, deps, config).world, name, config);
    }
  }

  // ----- removing -----

  /** `n` is another recorded package that depends on `name`. */
  predicate IsDependent(db: seq<InstalledPackage>, n: string, name: string) {
    n != name && IsIn(db, n) && DependsOn(FindIn(db, n).value, name)
  }

  /**
   Exactly when `remove` succeeds and why it does not: the package has to be recorded, and without force no
   other one may depend on it; those that do are the ones listed. A removal that is refused changes nothing,
   and one that goes through takes the record of the name and the files it lists, and nothing else.
   */
  lemma RemoveAnswers(w: World, name: string, force: bool)
    ensures var o := Removed(w, name, force);
      && (o.error.None? <==> IsIn(w.db, name) && (force || forall n :: !IsDependent(w.db, n, name)))
      && (o.error == Some(NotInstalled) <==> !IsIn(w.db, name))
      && (o.error.Some? && o.error != Some(NotInstalled) ==>
            && o.error.value.HasDependents? && o.error.value.names != []
            && forall n :: n in o.error.value.names <==> IsDependent(w.db, n, name))
      && (o.error.Some? ==> o.world == w)
      && (o.error.None? ==>
            && (HasDistinctNames(w.db) ==>
                  forall n :: FindIn(o.world.db, n) == if n == name then None else FindIn(w.db, n))
            && forall path :: path in o.world.files <==>
                 path in w.files && path !in FindIn(w.db, name).value.files)
      && (forall path :: path in o.world.files ==> o.world.files[path] == w.files[path])
  {
    hide FindIn, HasDistinctNames, DependsOn, RemovedFrom;
    var o := Removed(w, name, force);
    var dependents := Dependents(w.db, NamesIn(w.db), name);
    forall n
      ensures n in dependents <==> IsDependent(w.db, n, name)
      ensures HasDistinctNames(w.db) ==>
                FindIn(RemovedFrom(w.db, name), n) == if n == name then None else FindIn(w.db, n)
    {
      if IsIn(w.db, n) {
        NamedIn(w.db, n);
      }
      if HasDistinctNames(w.db) {
        FindRemoved(w.db, name, n);
      }
    }
    assert dependents != [] ==> IsDependent(w.db, dependents[0], name);
  }

  // ----- updating -----

  /**
   A single update takes the package file from the repository, never from the local store, and touches nothing
   until it is there with the right hash. What it records is what the index says, with the files of the package.
   */
  lemma UpdateAnswers(w: World, u: Planned)
    requires u.repo.Opened?
    ensures var o := UpdatedSingle(w, u);
      if u.entry.filename !in u.repo.prots then o == Outcome(w, Some(FileMissing))
      else
        var prot := u.repo.prots[u.entry.filename];
        if prot.sha256 != u.entry.sha256 then o == Outcome(w, Some(HashMismatch))
        else if Bad in prot.members then o.error == Some(UnpackFailed) && o.world.db == w.db
        else o.error.None? && FindIn(o.world.db, u.entry.name).Some?
             && IsRecordOf(FindIn(o.world.db, u.entry.name).value, u.entry, prot)
  {
    hide UnpackAndRecord, FindIn, IsRecordOf, FilesWithout;
    if u.entry.filename in u.repo.prots {
      UnpackAnswers(w.(files := FilesWithout(w.files, u.current.files)), u.entry, u.repo.prots[u.entry.filename]);
    }
  }

  /** The planned updates that can be applied. */
  function Applicable(plan: seq<Planned>): (r: seq<Planned>)
    requires forall u :: u in plan ==> u.repo.Opened?
    ensures |r| <= |plan| && forall u :: u in r <==> u in plan && CanApply(u)
  {
    if plan == [] then [] else (if CanApply(plan[0]) then [plan[0]] else []) + Applicable(plan[1..])
  }

  /** Every planned update is counted once: as updated if it can be applied, and otherwise as failed. */
  lemma {:induction false} UpdateCounts(w: World, updated: nat, failed: nat, plan: seq<Planned>)
    requires forall u :: u in plan ==> u.repo.Opened?
    ensures var o := UpdatedAll(w, updated, failed, plan);
      && o.updated == updated + |Applicable(plan)|
      && o.failed == failed + |plan| - |Applicable(plan)|
    decreases |plan|
  {
    hide UpdatedSingle, CanApply;
    if plan != [] {
      SucceedsIfApplicable(w, plan[0]);
      var o := UpdatedSingle(w, plan[0]);
      if o.error.None? {
        UpdateCounts(o.world, updated + 1, failed, plan[1..]);
      } else {
        UpdateCounts(o.world, updated, failed + 1, plan[1..]);
      }
    }
  }
}
