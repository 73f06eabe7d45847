/**
 What is on the disk, over every run of the package manager: the files nobody manages, and the files of the
 packages in the database, with the contents of the package files recorded there.
 */
module LysinFiles {
  import opened Wrappers
  import opened LocalDb
  import opened Lysin

  /** Which package may hold a path, and what the package file with a given hash unpacks to. */
  datatype Catalogue = Catalogue(owner: string -> Option<string>, archive: string -> Files)

  /** The files that unpacking writes; of two members with one path the later one stays. */
  function Contents(members: seq<Member>): Files {
    if members == [] then map[]
    else match members[0]
      case File(path, content) => map[path := content] + Contents(members[1..])
      case _ => Contents(members[1..])
  }

  /** A package file that unpacks without error to the files of its hash, all of them its own. */
  ghost predicate IsSound(prot: Prot, entry: IndexEntry, c: Catalogue) {
    && Bad !in prot.members
    && Contents(prot.members) == c.archive(entry.sha256)
    && forall path :: path in Contents(prot.members) ==> c.owner(path) == Some(entry.name)
  }

  ghost predicate IsSoundIfVerified(prot: Result<Prot, Error>, entry: IndexEntry, c: Catalogue) {
    prot.Ok? && prot.value.sha256 == entry.sha256 ==> IsSound(prot.value, entry, c)
  }

  /** Entries stand under their own names, and package files that pass the hash check are sound. */
  ghost predicate IsTidy(config: Config, c: Catalogue) {
    forall repo, n | repo in config.repos && repo.Opened? && n in repo.index.entries ::
      var entry := repo.index.entries[n];
      && entry.name == n
      && IsSoundIfVerified(ResolveProt(entry, repo, config.cache), entry, c)
      && IsSoundIfVerified(ProtInRepo(entry, repo), entry, c)
  }

  ghost predicate IsRecorded(p: InstalledPackage, c: Catalogue) {
    && (forall path :: path in p.files <==> path in c.archive(p.packageHash))
    && forall path :: path in p.files ==> c.owner(path) == Some(p.name)
  }

  ghost predicate AreRecorded(db: seq<InstalledPackage>, c: Catalogue) {
    forall p :: p in db ==> IsRecorded(p, c)
  }

  ghost predicate IsUnmanaged(base: Files, c: Catalogue) {
    forall path :: path in base ==> c.owner(path).None?
  }

  ghost predicate Holds(files: Files, part: Files) {
    forall path :: path in part ==> path in files && files[path] == part[path]
  }

  /** The files of all packages but `name` are in place; nothing else is there but the base and `extra`. */
  ghost predicate AccountedBut(w: World, base: Files, c: Catalogue, name: Option<string>, extra: set<string>) {
    && Holds(w.files, base)
    && (forall p :: p in w.db && Some(p.name) != name ==> Holds(w.files, c.archive(p.packageHash)))
    && forall path :: path in w.files ==>
         || path in base || path in extra
         || exists p :: p in w.db && Some(p.name) != name && path in p.files
  }

  /** The disk is exactly the base and the recorded files, and no name is recorded twice. */
  ghost predicate IsAccounted(w: World, base: Files, c: Catalogue) {
    HasDistinctNames(w.db) && AreRecorded(w.db, c) && AccountedBut(w, base, c, None, {})
  }

  // ----- the parts of an operation -----

  lemma {:induction false} UnpackMerges(files: Files, extracted: seq<string>, members: seq<Member>)
    requires Bad !in members
    ensures var u := Unpack(files, extracted, members);
      && u.ok && u.files == files + Contents(members)
      && forall path :: path in u.extracted <==> path in extracted || path in Contents(members)
    decreases |members|
  {
    if members != [] {
      match members[0]
      case Skipped =>
        UnpackMerges(files, extracted, members[1..]);
      case File(path, content) =>
        UnpackMerges(files[path := content], extracted + [path], members[1..]);
        assert files[path := content] == files + map[path := content];
        MergeAssociative(files, map[path := content], Contents(members[1..]));
    }
  }

  lemma MergeAssociative(a: Files, b: Files, d: Files)
    ensures (a + b) + d == a + (b + d)
  {
  }

  /** Unpacking and recording a sound package file accounts for its package. */
  lemma RecordIsAccounted(w: World, entry: IndexEntry, prot: Prot, base: Files, c: Catalogue, extra: set<string>)
    requires HasDistinctNames(w.db) && AreRecorded(w.db, c) && IsUnmanaged(base, c) && IsSound(prot, entry, c)
    requires AccountedBut(w, base, c, Some(entry.name), extra)
    requires forall path :: path in extra ==> path in c.archive(entry.sha256)
    ensures var o := UnpackAndRecord(w, entry, prot);
      && o.error.None? && IsAccounted(o.world, base, c)
      && FindIn(o.world.db, entry.name) == Some(Record(entry, Unpack(w.files, [], prot.members).extracted))
  {
    UnpackMerges(w.files, [], prot.members);
    var u := Unpack(w.files, [], prot.members);
    var r := Record(entry, u.extracted);
    AddedIsDistinct(w.db, r);
    FindAdded(w.db, r, entry.name);
    var db := AddedTo(w.db, r);
    assert forall p :: p in db <==> p == r || (p in w.db && p.name != entry.name);
    MergedIsAccounted(w, World(db, u.files), r, base, c, extra);
  }

  lemma MergedIsAccounted(w: World, v: World, r: InstalledPackage, base: Files, c: Catalogue, extra: set<string>)
    requires AreRecorded(w.db, c) && IsUnmanaged(base, c) && IsRecorded(r, c)
    requires AccountedBut(w, base, c, Some(r.name), extra)
    requires forall path :: path in extra ==> path in r.files
    requires v.files == w.files + c.archive(r.packageHash)
    requires forall p :: p in v.db <==> p == r || (p in w.db && p.name != r.name)
    ensures AccountedBut(v, base, c, None, {}) && AreRecorded(v.db, c)
  {
    var own := c.archive(r.packageHash);
    assert Holds(v.files, base);
    forall p | p in v.db
      ensures Holds(v.files, c.archive(p.packageHash))
    {
      if p != r {
        assert Holds(w.files, c.archive(p.packageHash)) && IsRecorded(p, c);
      }
    }
    forall path | path in v.files && path !in base
      ensures exists p :: p in v.db && path in p.files
    {
      if path in own || path in extra {
        assert r in v.db && path in r.files;
      } else {
        var p :| p in w.db && Some(p.name) != Some(r.name) && path in p.files;
        assert p in v.db;
      }
    }
  }

  lemma DeletedIsHeld(files: Files, p: InstalledPackage, q: InstalledPackage, c: Catalogue)
    requires IsRecorded(p, c) && IsRecorded(q, c) && q.name != p.name
    requires Holds(files, c.archive(q.packageHash))
    ensures Holds(FilesWithout(files, p.files), c.archive(q.packageHash))
  {
  }

  lemma BaseIsHeld(files: Files, p: InstalledPackage, base: Files, c: Catalogue)
    requires Holds(files, base) && IsUnmanaged(base, c) && IsRecorded(p, c)
    ensures Holds(FilesWithout(files, p.files), base)
  {
  }

  /** Deleting the files of one package leaves those of the others. */
  lemma DeletedIsAccounted(w: World, p: InstalledPackage, base: Files, c: Catalogue)
    requires IsAccounted(w, base, c) && IsUnmanaged(base, c) && p in w.db
    ensures AccountedBut(w.(files := FilesWithout(w.files, p.files)), base, c, Some(p.name), {})
  {
    var files := FilesWithout(w.files, p.files);
    assert IsRecorded(p, c);
    BaseIsHeld(w.files, p, base, c);
    hide IsUnmanaged, IsRecorded, Holds, HasDistinctNames;
    forall q | q in w.db && q.name != p.name
      ensures Holds(files, c.archive(q.packageHash))
    {
      assert Holds(w.files, c.archive(q.packageHash)) && IsRecorded(q, c);
      DeletedIsHeld(w.files, p, q, c);
    }
    forall path | path in files && path !in base
      ensures exists q :: q in w.db && Some(q.name) != Some(p.name) && path in q.files
    {
      var q :| q in w.db && path in q.files;
      SameName(w.db, p, q);
    }
  }

  lemma FoundIsSound(name: string, config: Config, c: Catalogue)
    requires IsTidy(config, c) && FindInRepos(name, config.repos).Ok?
    ensures var (entry, repo) := FindInRepos(name, config.repos).value;
      entry.name == name && IsSoundIfVerified(ResolveProt(entry, repo, config.cache), entry, c)
  {
    hide IsSoundIfVerified, ResolveProt, FindInRepos;
  }

  /** If the name is recorded at all, it is with the package that would be installed now. */
  ghost predicate IsCurrent(db: seq<InstalledPackage>, name: string, config: Config) {
    FindIn(db, name).Some? && FindInRepos(name, config.repos).Ok? ==>
      FindIn(db, name).value.packageHash == FindInRepos(name, config.repos).value.0.sha256
  }

  lemma InstallSingleIsAccounted(w: World, name: string, config: Config, base: Files, c: Catalogue)
    requires IsAccounted(w, base, c) && IsUnmanaged(base, c) && IsTidy(config, c) && IsCurrent(w.db, name, config)
    ensures var o := InstalledSingle(w, name, config);
      && IsAccounted(o.world, base, c)
      && IsCurrent(o.world.db, name, config)
      && (forall n :: n != name ==> FindIn(o.world.db, n) == FindIn(w.db, n))
  {
    hide FindIn, FindInRepos, ResolveProt, IsTidy, UnpackAndRecord, AccountedBut, HasDistinctNames, IsSound;
    var found := FindInRepos(name, config.repos);
    if found.Ok? {
      var (entry, repo) := found.value;
      FoundIsSound(name, config, c);
      var prot := ResolveProt(entry, repo, config.cache);
      if prot.Ok? && prot.value.sha256 == entry.sha256 {
        var extra: set<string> := set path | path in c.archive(entry.sha256);
        AllButCurrent(w, name, entry.sha256, extra, base, c);
        RecordIsAccounted(w, entry, prot.value, base, c, extra);
        OthersAreFound(w, entry, prot.value);
      }
    }
  }

  lemma OthersAreFound(w: World, entry: IndexEntry, prot: Prot)
    ensures forall n :: n != entry.name ==> FindIn(UnpackAndRecord(w, entry, prot).world.db, n) == FindIn(w.db, n)
  {
    hide Unpack, FindIn, AddedTo;
    var u := Unpack(w.files, [], prot.members);
    forall n | n != entry.name
      ensures FindIn(AddedTo(w.db, Record(entry, u.extracted)), n) == FindIn(w.db, n)
    {
      FindAdded(w.db, Record(entry, u.extracted), n);
    }
  }

  lemma AllButCurrent(w: World, name: string, hash: string, extra: set<string>, base: Files, c: Catalogue)
    requires IsAccounted(w, base, c)
    requires FindIn(w.db, name).Some? ==> FindIn(w.db, name).value.packageHash == hash
    requires forall path :: path in c.archive(hash) ==> path in extra
    ensures AccountedBut(w, base, c, Some(name), extra)
  {
    hide IsUnmanaged, FindIn;
    forall path | path in w.files && path !in base && path !in extra
      ensures exists p :: p in w.db && Some(p.name) != Some(name) && path in p.files
    {
      var p :| p in w.db && path in p.files;
      assert IsRecorded(p, c);
      MemberIsFound(w.db, p);
      assert p.name != name;
    }
  }

  // ----- the operations -----

  lemma {:induction false} InstallAllIsAccounted(w: World, deps: seq<string>, name: string, config: Config, base: Files,
                                                 c: Catalogue)
    requires IsAccounted(w, base, c) && IsUnmanaged(base, c) && IsTidy(config, c) && IsCurrent(w.db, name, config)
    ensures var o := InstalledAll(w, deps, config);
      IsAccounted(o.world, base, c) && IsCurrent(o.world.db, name, config)
    decreases |deps|
  {
    hide IsAccounted, IsTidy, IsUnmanaged, FindIn, FindInRepos, InstalledSingle, DependencyName;
    if deps != [] {
      var dep := DependencyName(deps[0]);
      if IsIn(w.db, dep) {
        InstallAllIsAccounted(w, deps[1..], name, config, base, c);
      } else {
        InstallSingleIsAccounted(w, dep, config, base, c);
        var o := InstalledSingle(w, dep, config);
        assert IsCurrent(o.world.db, name, config);
        if o.error.None? {
          InstallAllIsAccounted(o.world, deps[1..], name, config, base, c);
        }
      }
    }
  }

  /** Installing accounts for every file, whether it succeeds or stops half-way. */
  lemma InstallIsAccounted(w: World, name: string, config: Config, base: Files, c: Catalogue)
    requires IsAccounted(w, base, c) && IsUnmanaged(base, c) && IsTidy(config, c)
    ensures IsAccounted(Installed(w, name, config).world, base, c)
  {
    hide IsAccounted, IsTidy, IsUnmanaged, FindIn, FindInRepos, InstalledSingle, InstalledAll;
    var found := FindInRepos(name, config.repos);
    if !IsIn(w.db, name) && found.Ok? {
      var deps := found.value.0.depends.runtime;
      InstallAllIsAccounted(w, deps, name, config, base, c);
      InstallSingleIsAccounted(InstalledAll(w, deps, config).world, name, config, base, c);
    }
  }

  lemma RemoveIsAccounted(w: World, name: string, force: bool, base: Files, c: Catalogue)
    requires IsAccounted(w, base, c) && IsUnmanaged(base, c)
    ensures IsAccounted(Removed(w, name, force).world, base, c)
  {
    hide Dependents, NamesIn, RemovedFrom, FindIn, AccountedBut, DependsOn;
    var found := FindIn(w.db, name);
    if found.Some? {
      var p := found.value;
      DeletedIsAccounted(w, p, base, c);
      RemovedIsDistinct(w.db, name);
      var db, files := RemovedFrom(w.db, name), FilesWithout(w.files, p.files);
      assert forall q :: q in db <==> q in w.db && q.name != name by { RemovedIsOthers(w.db, name); }
      OthersAccounted(World(w.db, files), db, name, base, c);
    }
  }

  lemma RemovedIsOthers(db: seq<InstalledPackage>, name: string)
    requires HasDistinctNames(db)
    ensures forall q :: q in RemovedFrom(db, name) <==> q in db && q.name != name
  {
    RemovedIsDistinct(db, name);
    forall q: InstalledPackage
      ensures q in RemovedFrom(db, name) <==> q in db && q.name != name
    {
      MemberIsFound(db, q);
      MemberIsFound(RemovedFrom(db, name), q);
      FindRemoved(db, name, q.name);
    }
  }

  lemma OthersAccounted(w: World, db: seq<InstalledPackage>, name: string, base: Files, c: Catalogue)
    requires AccountedBut(w, base, c, Some(name), {}) && AreRecorded(w.db, c)
    requires forall q :: q in db <==> q in w.db && q.name != name
    ensures AccountedBut(World(db, w.files), base, c, None, {}) && AreRecorded(db, c)
  {
    hide Holds, IsRecorded;
    forall path | path in w.files && path !in base
      ensures exists p :: p in db && path in p.files
    {
      var p :| p in w.db && Some(p.name) != Some(name) && path in p.files;
      assert p in db;
    }
  }

  // ----- updates -----

  /** Each planned update is for a recorded package, under its own name, and no two are for the same. */
  ghost predicate IsPlanFor(plan: seq<Planned>, db: seq<InstalledPackage>, c: Catalogue) {
    && (forall u :: u in plan ==> u.repo.Opened? && FindIn(db, u.current.name) == Some(u.current))
    && (forall u :: u in plan ==>
          u.entry.name == u.current.name && IsSoundIfVerified(ProtInRepo(u.entry, u.repo), u.entry, c))
    && forall i, j :: 0 <= i < j < |plan| ==> plan[i].current.name != plan[j].current.name
  }

  lemma PlannedIsSound(p: InstalledPackage, config: Config, c: Catalogue)
    requires IsTidy(config, c)
    ensures forall u :: u in PlannedFor(p, config.repos) ==>
              && u.repo.Opened? && u.current == p && u.entry.name == p.name
              && IsSoundIfVerified(ProtInRepo(u.entry, u.repo), u.entry, c)
    ensures |PlannedFor(p, config.repos)| <= 1
  {
    hide FindNewer, IsSoundIfVerified, ProtInRepo, IsNewer, ResolveProt;
  }

  lemma {:induction false} PlanIsForDb(db: seq<InstalledPackage>, config: Config, c: Catalogue)
    requires IsTidy(config, c) && HasDistinctNames(db)
    ensures var plan := Plan(db, config.repos);
      && (forall u :: u in plan ==> u.repo.Opened? && u.current in db && u.entry.name == u.current.name)
      && (forall u :: u in plan ==> IsSoundIfVerified(ProtInRepo(u.entry, u.repo), u.entry, c))
      && forall i, j :: 0 <= i < j < |plan| ==> plan[i].current.name != plan[j].current.name
  {
    hide IsTidy, PlannedFor, IsSoundIfVerified, ProtInRepo;
    if db != [] {
      var head, tail := PlannedFor(db[0], config.repos), Plan(db[1..], config.repos);
      var plan := Plan(db, config.repos);
      PlannedIsSound(db[0], config, c);
      PlanIsForDb(db[1..], config, c);
      assert plan == head + tail;
      assert forall p :: p in db[1..] ==> p.name != db[0].name;
      forall i, j | 0 <= i < j < |plan|
        ensures plan[i].current.name != plan[j].current.name
      {
        assert plan[j] == tail[j - |head|] && plan[j] in tail;
        if i < |head| {
          assert plan[i] in head;
        } else {
          assert plan[i] == tail[i - |head|];
        }
      }
    }
  }

  lemma UpdateSingleIsAccounted(w: World, plan: seq<Planned>, base: Files, c: Catalogue)
    requires IsAccounted(w, base, c) && IsUnmanaged(base, c) && plan != [] && IsPlanFor(plan, w.db, c)
    ensures var v := UpdatedSingle(w, plan[0]).world;
      IsAccounted(v, base, c) && IsPlanFor(plan[1..], v.db, c)
  {
    hide FindIn, AccountedBut, AreRecorded, IsSound, UnpackAndRecord, FilesWithout;
    var u := plan[0];
    var prot := ProtInRepo(u.entry, u.repo);
    if prot.Ok? && prot.value.sha256 == u.entry.sha256 {
      var cleared := w.(files := FilesWithout(w.files, u.current.files));
      DeletedIsAccounted(w, u.current, base, c);
      RecordIsAccounted(cleared, u.entry, prot.value, base, c, {});
      OthersAreFound(cleared, u.entry, prot.value);
      assert forall x :: x in plan[1..] ==> x.current.name != u.entry.name;
    }
  }

  lemma {:induction false} UpdateAllIsAccounted(w: World, updated: nat, failed: nat, plan: seq<Planned>, base: Files,
                                                c: Catalogue)
    requires IsAccounted(w, base, c) && IsUnmanaged(base, c) && IsPlanFor(plan, w.db, c)
    ensures IsAccounted(UpdatedAll(w, updated, failed, plan).world, base, c)
    decreases |plan|
  {
    hide IsAccounted, IsUnmanaged, UpdatedSingle;
    if plan != [] {
      UpdateSingleIsAccounted(w, plan, base, c);
      hide IsPlanFor;
      var o := UpdatedSingle(w, plan[0]);
      if o.error.None? {
        UpdateAllIsAccounted(o.world, updated + 1, failed, plan[1..], base, c);
      } else {
        UpdateAllIsAccounted(o.world, updated, failed + 1, plan[1..], base, c);
      }
    }
  }

  lemma UpdateIsAccounted(w: World, config: Config, base: Files, c: Catalogue)
    requires IsAccounted(w, base, c) && IsUnmanaged(base, c) && IsTidy(config, c)
    ensures IsAccounted(Updated(w, config).world, base, c)
  {
    hide AccountedBut, AreRecorded, IsUnmanaged, Plan, FindIn, IsSoundIfVerified, ProtInRepo, IsTidy;
    var plan := Plan(w.db, config.repos);
    PlanIsForDb(w.db, config, c);
    forall u | u in plan
      ensures FindIn(w.db, u.current.name) == Some(u.current)
    {
      MemberIsFound(w.db, u.current);
    }
    UpdateAllIsAccounted(w, 0, 0, plan, base, c);
  }

  // ----- runs -----

  datatype Op = Install(name: string) | Remove(name: string, force: bool) | Update

  /** An operation, with the repositories as they are at the time. */
  datatype Step = Step(op: Op, config: Config)

  function Performed(w: World, s: Step): World {
    match s.op
    case Install(name) => Installed(w, name, s.config).world
    case Remove(name, force) => Removed(w, name, force).world
    case Update => Updated(w, s.config).world
  }

  function Run(w: World, steps: seq<Step>): World
    decreases |steps|
  {
    if steps == [] then w else Run(Performed(w, steps[0]), steps[1..])
  }

  /** After every run the disk is exactly the base and what the database records, contents included. */
  lemma {:induction false} RunIsAccounted(w: World, steps: seq<Step>, base: Files, c: Catalogue)
    requires IsAccounted(w, base, c) && IsUnmanaged(base, c)
    requires forall s :: s in steps ==> IsTidy(s.config, c)
    ensures IsAccounted(Run(w, steps), base, c)
    decreases |steps|
  {
    hide IsAccounted, IsUnmanaged, IsTidy, Installed, Removed, Updated;
    if steps != [] {
      var s := steps[0];
      match s.op {
        case Install(name) => InstallIsAccounted(w, name, s.config, base, c);
        case Remove(name, force) => RemoveIsAccounted(w, name, force, base, c);
        case Update => UpdateIsAccounted(w, s.config, base, c);
      }
      RunIsAccounted(Performed(w, s), steps[1..], base, c);
    }
  }

  /** The database determines the disk: equal records, in whatever order, mean equal files. */
  lemma RecordsDetermineFiles(v: World, w: World, base: Files, c: Catalogue)
    requires IsAccounted(v, base, c) && IsAccounted(w, base, c)
    requires forall p :: p in v.db <==> p in w.db
    ensures v.files == w.files
  {
    hide AccountedBut, AreRecorded, HasDistinctNames, Holds;
    FilesAreIn(v, w, base, c);
    FilesAreIn(w, v, base, c);
    HeldBothWays(v.files, w.files);
  }

  lemma HeldBothWays(a: Files, b: Files)
    requires Holds(a, b) && Holds(b, a)
    ensures a == b
  {
    assert a.Keys == b.Keys;
  }

  lemma FilesAreIn(v: World, w: World, base: Files, c: Catalogue)
    requires AccountedBut(v, base, c, None, {}) && AccountedBut(w, base, c, None, {}) && AreRecorded(v.db, c)
    requires forall p :: p in v.db ==> p in w.db
    ensures Holds(w.files, v.files)
  {
    forall path | path in v.files
      ensures path in w.files && w.files[path] == v.files[path]
    {
      if path !in base {
        var p :| p in v.db && path in p.files;
        assert IsRecorded(p, c);
        assert Holds(v.files, c.archive(p.packageHash)) && Holds(w.files, c.archive(p.packageHash));
      }
    }
  }

  /** A run that comes back to the packages it started from leaves no trace on the disk. */
  lemma RunLeavesNoTrace(w: World, steps: seq<Step>, base: Files, c: Catalogue)
    requires IsAccounted(w, base, c) && IsUnmanaged(base, c)
    requires forall s :: s in steps ==> IsTidy(s.config, c)
    requires forall p :: p in w.db <==> p in Run(w, steps).db
    ensures Run(w, steps).files == w.files
  {
    hide IsAccounted, IsUnmanaged, IsTidy, Run;
    RunIsAccounted(w, steps, base, c);
    RecordsDetermineFiles(Run(w, steps), w, base, c);
  }

  // ----- package files that do not unpack -----

  /** The members that are unpacked. */
  function BeforeBad(members: seq<Member>): seq<Member> {
    if members == [] || members[0].Bad? then [] else [members[0]] + BeforeBad(members[1..])
  }

  ghost predicate BelongTo(members: seq<Member>, name: string, c: Catalogue) {
    forall m :: m in members && m.File? ==> c.owner(m.path) == Some(name)
  }

  /** What was unpacked before the bad member stays on the disk. */
  lemma {:induction false} UnpackStops(files: Files, extracted: seq<string>, members: seq<Member>)
    requires Bad in members
    ensures var u := Unpack(files, extracted, members);
      !u.ok && u.files == files + Contents(BeforeBad(members))
    decreases |members|
  {
    match members[0]
    case Bad =>
      assert files + map[] == files;
    case Skipped =>
      UnpackStops(files, extracted, members[1..]);
      assert ([members[0]] + BeforeBad(members[1..]))[1..] == BeforeBad(members[1..]);
    case File(path, content) =>
      UnpackStops(files[path := content], extracted + [path], members[1..]);
      assert ([members[0]] + BeforeBad(members[1..]))[1..] == BeforeBad(members[1..]);
      assert files[path := content] == files + map[path := content];
      MergeAssociative(files, map[path := content], Contents(BeforeBad(members[1..])));
  }

  lemma {:induction false} BelongingContents(members: seq<Member>, name: string, c: Catalogue)
    requires BelongTo(members, name, c)
    ensures forall path :: path in Contents(BeforeBad(members)) ==> c.owner(path) == Some(name)
  {
    if members != [] && !members[0].Bad? {
      BelongingContents(members[1..], name, c);
      assert ([members[0]] + BeforeBad(members[1..]))[1..] == BeforeBad(members[1..]);
      assert members[0] in members;
    }
  }

  /** What the database says is there of a package. */
  function RecordedFiles(db: seq<InstalledPackage>, name: string, c: Catalogue): Files {
    match FindIn(db, name)
    case Some(p) => c.archive(p.packageHash)
    case None => map[]
  }

  /** With all other files accounted for, the disk is, exactly if the package's own files are those recorded. */
  lemma OwnFilesDecide(w: World, part: Files, name: string, base: Files, c: Catalogue)
    requires HasDistinctNames(w.db) && AreRecorded(w.db, c) && IsUnmanaged(base, c)
    requires AccountedBut(w, base, c, Some(name), {})
    requires forall path :: path in part ==> c.owner(path) == Some(name)
    ensures IsAccounted(w.(files := w.files + part), base, c) <==> part == RecordedFiles(w.db, name, c)
  {
    var v := w.(files := w.files + part);
    OthersOwnNothing(w, name, base, c);
    if part == RecordedFiles(w.db, name, c) {
      OwnFilesFit(w, v, part, name, base, c);
    }
    if IsAccounted(v, base, c) {
      OwnFilesAreRecorded(w, v, part, name, base, c);
    }
  }

  lemma OthersOwnNothing(w: World, name: string, base: Files, c: Catalogue)
    requires AreRecorded(w.db, c) && IsUnmanaged(base, c) && AccountedBut(w, base, c, Some(name), {})
    ensures forall path :: path in w.files ==> c.owner(path) != Some(name)
  {
    hide Holds;
    forall path | path in w.files
      ensures c.owner(path) != Some(name)
    {
      if path !in base {
        var q :| q in w.db && Some(q.name) != Some(name) && path in q.files;
        assert IsRecorded(q, c);
      }
    }
  }

  lemma HeldBeside(files: Files, part: Files, rest: Files)
    requires Holds(files, rest) && forall path :: path in files ==> path !in part
    ensures Holds(files + part, rest) && Holds(files + part, part)
  {
  }

  lemma OwnFilesFit(w: World, v: World, part: Files, name: string, base: Files, c: Catalogue)
    requires HasDistinctNames(w.db) && AreRecorded(w.db, c) && AccountedBut(w, base, c, Some(name), {})
    requires v == w.(files := w.files + part) && part == RecordedFiles(w.db, name, c)
    requires forall path :: path in w.files ==> path !in part
    ensures IsAccounted(v, base, c)
  {
    HeldBeside(w.files, part, base);
    hide FindIn, Holds, HasDistinctNames;
    forall p | p in v.db
      ensures Holds(v.files, c.archive(p.packageHash))
    {
      MemberIsFound(w.db, p);
      if p.name != name {
        HeldBeside(w.files, part, c.archive(p.packageHash));
      }
    }
    forall path | path in v.files && path !in base
      ensures exists p :: p in v.db && path in p.files
    {
      if path in part {
        assert IsRecorded(FindIn(w.db, name).value, c);
      } else {
        var p :| p in w.db && Some(p.name) != Some(name) && path in p.files;
        assert p in v.db;
      }
    }
  }

  lemma OwnedIsRecorded(v: World, name: string, path: string, base: Files, c: Catalogue)
    requires IsAccounted(v, base, c) && IsUnmanaged(base, c) && path in v.files && c.owner(path) == Some(name)
    ensures path in RecordedFiles(v.db, name, c)
  {
    hide Holds, FindIn, HasDistinctNames;
    assert path !in base;
    var p :| p in v.db && path in p.files;
    assert IsRecorded(p, c);
    MemberIsFound(v.db, p);
  }

  lemma RecordedIsOwned(v: World, name: string, base: Files, c: Catalogue)
    requires IsAccounted(v, base, c)
    ensures Holds(v.files, RecordedFiles(v.db, name, c))
    ensures forall path :: path in RecordedFiles(v.db, name, c) ==> c.owner(path) == Some(name)
  {
    hide FindIn, HasDistinctNames, Holds;
    if IsIn(v.db, name) {
      var p := FindIn(v.db, name).value;
      assert IsRecorded(p, c) && Holds(v.files, c.archive(p.packageHash));
    } else {
      assert Holds(v.files, map[]) by { NothingHeld(v.files); }
    }
  }

  lemma NothingHeld(files: Files)
    ensures Holds(files, map[])
  {
  }

  lemma SameOwnFiles(files: Files, part: Files, own: Files, name: string, c: Catalogue)
    requires forall path :: path in files ==> c.owner(path) != Some(name)
    requires forall path :: path in own ==> c.owner(path) == Some(name)
    requires Holds(files + part, own) && forall path :: path in part ==> path in own
    ensures part == own
  {
    assert part.Keys == own.Keys;
  }

  lemma OwnFilesAreRecorded(w: World, v: World, part: Files, name: string, base: Files, c: Catalogue)
    requires IsAccounted(v, base, c) && IsUnmanaged(base, c) && v == w.(files := w.files + part)
    requires forall path :: path in w.files ==> c.owner(path) != Some(name)
    requires forall path :: path in part ==> c.owner(path) == Some(name)
    ensures part == RecordedFiles(v.db, name, c)
  {
    hide IsAccounted, IsUnmanaged, RecordedFiles, Holds;
    RecordedIsOwned(v, name, base, c);
    forall path | path in part
      ensures path in RecordedFiles(v.db, name, c)
    {
      OwnedIsRecorded(v, name, path, base, c);
    }
    SameOwnFiles(w.files, part, RecordedFiles(v.db, name, c), name, c);
  }

  /**
   When a verified package file of a package not yet installed cannot be unpacked to the end, the disk stays
   accounted for exactly if the bad member came before any file: what was unpacked before it is recorded
   nowhere.
   */
  lemma FailedUnpackLeaks(w: World, entry: IndexEntry, prot: Prot, base: Files, c: Catalogue)
    requires IsAccounted(w, base, c) && IsUnmanaged(base, c) && !IsIn(w.db, entry.name)
    requires Bad in prot.members && BelongTo(prot.members, entry.name, c)
    ensures var o := UnpackAndRecord(w, entry, prot);
      && o.error == Some(UnpackFailed) && o.world.db == w.db
      && (IsAccounted(o.world, base, c) <==> Contents(BeforeBad(prot.members)) == map[])
  {
    UnpackStops(w.files, [], prot.members);
    BelongingContents(prot.members, entry.name, c);
    hide Unpack, BelongTo, Contents, BeforeBad, FindIn, AccountedBut;
    AllButMissing(w, entry.name, base, c);
    OwnFilesDecide(w, Contents(BeforeBad(prot.members)), entry.name, base, c);
  }

  lemma AllButMissing(w: World, name: string, base: Files, c: Catalogue)
    requires IsAccounted(w, base, c) && !IsIn(w.db, name)
    ensures AccountedBut(w, base, c, Some(name), {})
  {
    hide FindIn, Holds;
    assert forall p :: p in w.db ==> p.name != name;
  }

  /**
   When the new package file of an update cannot be unpacked to the end, the old files are gone and the old
   record stays: the disk is accounted for exactly if what came before the bad member is what was there.
   */
  lemma FailedUpdateLeaks(w: World, u: Planned, prot: Prot, base: Files, c: Catalogue)
    requires IsAccounted(w, base, c) && IsUnmanaged(base, c)
    requires u.repo.Opened? && u.current in w.db && u.entry.name == u.current.name
    requires ProtInRepo(u.entry, u.repo) == Ok(prot) && prot.sha256 == u.entry.sha256
    requires Bad in prot.members && BelongTo(prot.members, u.entry.name, c)
    ensures var o := UpdatedSingle(w, u);
      && o.error == Some(UnpackFailed) && o.world.db == w.db
      && (IsAccounted(o.world, base, c) <==>
            Contents(BeforeBad(prot.members)) == c.archive(u.current.packageHash))
  {
    var rest := w.(files := FilesWithout(w.files, u.current.files));
    UnpackStops(rest.files, [], prot.members);
    BelongingContents(prot.members, u.entry.name, c);
    DeletedIsAccounted(w, u.current, base, c);
    MemberIsFound(w.db, u.current);
    hide Unpack, BelongTo, Contents, BeforeBad, FindIn, AccountedBut, FilesWithout;
    OwnFilesDecide(rest, Contents(BeforeBad(prot.members)), u.entry.name, base, c);
  }

  // ----- damaged package files -----

  /** A package file with one good file and then a bad member, and one that is bad from the start. */
  const HALF: Prot := Prot("sum", [File("/usr/bin/tool", [1]), Bad])
  const BROKEN: Prot := Prot("sum", [Bad])

  /** Every path belongs to `tool`, and its only package file unpacks to one file. */
  const TOOL: Catalogue := Catalogue(_ => Some("tool"), _ => map["/usr/bin/tool" := [0]])

  lemma HalfContents()
    ensures Contents(BeforeBad(HALF.members)) == map["/usr/bin/tool" := [1]]
    ensures Contents(BeforeBad(BROKEN.members)) == map[]
    ensures BelongTo(HALF.members, "tool", TOOL) && BelongTo(BROKEN.members, "tool", TOOL)
    ensures Bad in HALF.members && Bad in BROKEN.members
  {
    assert HALF.members[1] == Bad && BROKEN.members[0] == Bad;
    assert BeforeBad(HALF.members) == [File("/usr/bin/tool", [1])] by {
      assert HALF.members[1..] == [Bad];
    }
    assert [File("/usr/bin/tool", [1])][1..] == [];
    var file: Files := map["/usr/bin/tool" := [1]];
    assert file + map[] == file;
  }

  /** On an empty system, the first one leaves a file behind that no record accounts for. */
  lemma HalfPackageLeaks(entry: IndexEntry)
    requires entry.name == "tool"
    ensures var o := UnpackAndRecord(World([], map[]), entry, HALF);
      && IsAccounted(World([], map[]), map[], TOOL) && o.error == Some(UnpackFailed)
      && o.world == World([], map["/usr/bin/tool" := [1]]) && !IsAccounted(o.world, map[], TOOL)
  {
    var w := World([], map[]);
    HalfContents();
    assert IsAccounted(w, map[], TOOL);
    UnpackStops(w.files, [], HALF.members);
    hide BeforeBad, Contents;
    FailedUnpackLeaks(w, entry, HALF, map[], TOOL);
    assert map["/usr/bin/tool" := [1]] == map[] + map["/usr/bin/tool" := [1]];
    assert "/usr/bin/tool" in map["/usr/bin/tool" := [1]];
  }

  /** With `tool` installed, updating it to the second one takes its file away and leaves its record. */
  lemma BrokenUpdateLeaks(u: Planned)
    requires u.current == InstalledPackage("tool", "1.0", 1, "old", ["/usr/bin/tool"], [], "tool.prot")
    requires u.repo.Opened? && u.entry.name == "tool" && u.entry.sha256 == "sum"
    requires ProtInRepo(u.entry, u.repo) == Ok(BROKEN)
    ensures var w := World([u.current], map["/usr/bin/tool" := [0]]);
      var o := UpdatedSingle(w, u);
      && IsAccounted(w, map[], TOOL) && o.error == Some(UnpackFailed)
      && o.world == World([u.current], map[]) && !IsAccounted(o.world, map[], TOOL)
  {
    var w := World([u.current], map["/usr/bin/tool" := [0]]);
    HalfContents();
    ToolIsAccounted(w, u.current);
    assert u.current in w.db;
    hide BeforeBad, Contents;
    FailedUpdateLeaks(w, u, BROKEN, map[], TOOL);
    assert "/usr/bin/tool" in TOOL.archive("old");
    assert FilesWithout(w.files, u.current.files) == map[];
    UnpackStops(map[], [], BROKEN.members);
  }

  lemma ToolIsAccounted(w: World, p: InstalledPackage)
    requires p.name == "tool" && p.files == ["/usr/bin/tool"]
    requires w == World([p], map["/usr/bin/tool" := [0]])
    ensures IsAccounted(w, map[], TOOL)
  {
    assert p in w.db;
    assert IsRecorded(p, TOOL);
  }
}
