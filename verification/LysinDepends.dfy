/** Which dependencies are there after installing and removing packages, and how dependencies are named. */
module LysinDepends {
  import opened Wrappers
  import opened LocalDb
  import opened Lysin
  import opened LysinPlans
  import DependencySpec
  import DependsText
  import RepositoryIndex
  import Text
  import Version

  // ----- direct dependencies -----

  /** The package is recorded, and so are all the packages its record depends on. */
  predicate HasDependencies(db: seq<InstalledPackage>, name: string) {
    match FindIn(db, name)
    case None => false
    case Some(p) => forall i :: 0 <= i < |p.depends| ==> IsIn(db, DependencyName(p.depends[i]))
  }

  /** Every record of `db` is in `later` as it was. */
  ghost predicate Keeps(db: seq<InstalledPackage>, later: seq<InstalledPackage>) {
    forall n :: IsIn(db, n) ==> FindIn(later, n) == FindIn(db, n)
  }

  lemma KeptDependencies(db: seq<InstalledPackage>, later: seq<InstalledPackage>, name: string)
    requires Keeps(db, later) && HasDependencies(db, name)
    ensures HasDependencies(later, name)
  {
    hide FindIn, DependencyName;
    var p := FindIn(db, name).value;
    assert IsIn(db, name);
    forall i | 0 <= i < |p.depends|
      ensures IsIn(later, DependencyName(p.depends[i]))
    {
      assert IsIn(db, DependencyName(p.depends[i]));
    }
  }

  /** Installing one package records it with the dependencies of its entry, or changes no record. */
  lemma InstallSingleRecords(w: World, name: string, config: Config)
    requires AreConsistent(config)
    ensures var o := InstalledSingle(w, name, config);
      && (forall n :: n != name ==> FindIn(o.world.db, n) == FindIn(w.db, n))
      && (o.error.Some? ==> o.world.db == w.db)
      && (o.error.None? ==>
            && FindIn(o.world.db, name).Some? && FindInRepos(name, config.repos).Ok?
            && FindIn(o.world.db, name).value.depends == FindInRepos(name, config.repos).value.0.depends.runtime)
  {
    hide FindIn, Unpack, ResolveProt, AddedTo, FindInRepos;
    var found := FindInRepos(name, config.repos);
    if found.Ok? {
      var (entry, repo) := found.value;
      assert entry.name == name;
      var prot := ResolveProt(entry, repo, config.cache);
      if prot.Ok? {
        var r := Record(entry, Unpack(w.files, [], prot.value.members).extracted);
        forall n
          ensures FindIn(AddedTo(w.db, r), n) == if n == name then Some(r) else FindIn(w.db, n)
        {
          FindAdded(w.db, r, n);
        }
      }
    }
  }

  /** The dependency loop keeps every record and, if it succeeds, leaves all the dependencies recorded. */
  lemma {:induction false} InstallAllRecords(w: World, deps: seq<string>, config: Config)
    requires AreConsistent(config)
    ensures var o := InstalledAll(w, deps, config);
      && Keeps(w.db, o.world.db)
      && (o.error.None? ==> forall i :: 0 <= i < |deps| ==> IsIn(o.world.db, DependencyName(deps[i])))
    decreases |deps|
  {
    hide FindIn, InstalledSingle, DependencyName, AreConsistent, FindInRepos;
    if deps != [] {
      var dep := DependencyName(deps[0]);
      var o := if IsIn(w.db, dep) then Outcome(w, None) else InstalledSingle(w, dep, config);
      if !IsIn(w.db, dep) {
        InstallSingleRecords(w, dep, config);
      }
      assert Keeps(w.db, o.world.db);
      if o.error.None? {
        assert IsIn(o.world.db, dep);
        InstallAllRecords(o.world, deps[1..], config);
      }
    }
  }

  /** Installing keeps every record; a package that was not there has its direct dependencies afterwards. */
  lemma InstallRecords(w: World, name: string, config: Config)
    requires AreConsistent(config)
    ensures var o := Installed(w, name, config);
      && Keeps(w.db, o.world.db)
      && (o.error.None? && !IsIn(w.db, name) ==> HasDependencies(o.world.db, name))
  {
    hide FindIn, InstalledSingle, InstalledAll, DependencyName, AreConsistent, FindInRepos;
    var found := FindInRepos(name, config.repos);
    if !IsIn(w.db, name) && found.Ok? {
      var deps := found.value.0.depends.runtime;
      InstallAllRecords(w, deps, config);
      var o := InstalledAll(w, deps, config);
      if o.error.None? {
        InstallSingleRecords(o.world, name, config);
      }
    }
  }

  /**
   A successful `install` leaves the direct dependencies installed exactly if the package was not installed
   before, or had them already: for a package that came in as a dependency it does nothing.
   */
  lemma InstallLeavesDependencies(w: World, name: string, config: Config)
    requires AreConsistent(config) && Installed(w, name, config).error.None?
    ensures HasDependencies(Installed(w, name, config).world.db, name) <==>
              !IsIn(w.db, name) || HasDependencies(w.db, name)
  {
    hide HasDependencies, InstalledSingle, InstalledAll, AreConsistent, FindInRepos, FindIn;
    InstallRecords(w, name, config);
  }

  lemma {:induction false} InstallAllAddsOnly(w: World, deps: seq<string>, config: Config, n: string)
    requires AreConsistent(config)
    requires !IsIn(w.db, n) && IsIn(InstalledAll(w, deps, config).world.db, n)
    ensures exists i :: 0 <= i < |deps| && DependencyName(deps[i]) == n
    decreases |deps|
  {
    hide FindIn, InstalledSingle, DependencyName, AreConsistent, FindInRepos;
    if deps != [] {
      var dep := DependencyName(deps[0]);
      var o := if IsIn(w.db, dep) then Outcome(w, None) else InstalledSingle(w, dep, config);
      InstallSingleRecords(w, dep, config);
      if dep != n {
        InstallAllAddsOnly(o.world, deps[1..], config, n);
        var i :| 0 <= i < |deps[1..]| && DependencyName(deps[1..][i]) == n;
        assert DependencyName(deps[i + 1]) == n;
      }
    }
  }

  /** Only one level: a package that is new after an install is the one asked for or a direct dependency of it. */
  lemma InstallIsOneLevelDeep(w: World, name: string, config: Config, n: string)
    requires AreConsistent(config)
    requires !IsIn(w.db, n) && IsIn(Installed(w, name, config).world.db, n)
    ensures FindInRepos(name, config.repos).Ok?
    ensures var deps := FindInRepos(name, config.repos).value.0.depends.runtime;
      n == name || exists i :: 0 <= i < |deps| && DependencyName(deps[i]) == n
  {
    hide FindIn, InstalledSingle, InstalledAll, DependencyName, AreConsistent, FindInRepos;
    var deps := FindInRepos(name, config.repos).value.0.depends.runtime;
    var o := InstalledAll(w, deps, config);
    InstallSingleRecords(o.world, name, config);
    if n != name {
      InstallAllAddsOnly(w, deps, config, n);
    }
  }

  // ----- all dependencies -----

  /** What the repositories say that a package needs. */
  function NeedsOf(name: string, config: Config): seq<string> {
    match FindInRepos(name, config.repos)
    case Ok((entry, _)) => entry.depends.runtime
    case Err(_) => []
  }

  predicate Names(deps: seq<string>, n: string) {
    exists i :: 0 <= i < |deps| && DependencyName(deps[i]) == n
  }

  /** Every record has its direct dependencies. */
  ghost predicate AllHaveDependencies(db: seq<InstalledPackage>) {
    forall n :: IsIn(db, n) ==> HasDependencies(db, n)
  }

  /** Each name of the chain is that of a dependency of the record before it. */
  ghost predicate IsDependencyChain(db: seq<InstalledPackage>, chain: seq<string>) {
    forall i :: 0 < i < |chain| && IsIn(db, chain[i - 1]) ==> Names(FindIn(db, chain[i - 1]).value.depends, chain[i])
  }

  /** Then all is there that a record depends on, by way of however many others. */
  lemma {:induction false} AllMeansAll(db: seq<InstalledPackage>, chain: seq<string>)
    requires AllHaveDependencies(db) && IsDependencyChain(db, chain) && chain != [] && IsIn(db, chain[0])
    ensures forall i :: 0 <= i < |chain| ==> IsIn(db, chain[i])
  {
    hide FindIn, DependencyName;
    if |chain| > 1 {
      var init, last := chain[..|chain| - 1], chain[|chain| - 1];
      AllMeansAll(db, init);
      var before := init[|init| - 1];
      assert IsIn(db, before) && HasDependencies(db, before);
      assert Names(FindIn(db, before).value.depends, last);
    }
  }

  /** What the dependency loop adds, it adds with the dependencies of its entry. */
  lemma {:induction false} InstallAllNeeds(w: World, deps: seq<string>, config: Config, n: string)
    requires AreConsistent(config)
    requires !IsIn(w.db, n) && IsIn(InstalledAll(w, deps, config).world.db, n)
    ensures FindIn(InstalledAll(w, deps, config).world.db, n).value.depends == NeedsOf(n, config)
    decreases |deps|
  {
    hide FindIn, InstalledSingle, DependencyName, AreConsistent, FindInRepos;
    if deps != [] {
      var dep := DependencyName(deps[0]);
      var o := if IsIn(w.db, dep) then Outcome(w, None) else InstalledSingle(w, dep, config);
      InstallSingleRecords(w, dep, config);
      if o.error.None? {
        if IsIn(o.world.db, n) {
          InstallAllRecords(o.world, deps[1..], config);
        } else {
          InstallAllNeeds(o.world, deps[1..], config, n);
        }
      }
    }
  }

  /** What is recorded after a successful install of a new package, and with which dependencies. */
  lemma InstallOutcome(w: World, name: string, config: Config, n: string)
    requires AreConsistent(config) && !IsIn(w.db, name) && Installed(w, name, config).error.None?
    ensures var db := Installed(w, name, config).world.db;
      && (IsIn(db, n) <==> IsIn(w.db, n) || n == name || Names(NeedsOf(name, config), n))
      && (IsIn(w.db, n) ==> FindIn(db, n) == FindIn(w.db, n))
      && (IsIn(db, n) && !IsIn(w.db, n) ==> FindIn(db, n).value.depends == NeedsOf(n, config))
  {
    hide FindIn, InstalledSingle, InstalledAll, DependencyName, AreConsistent, FindInRepos;
    var deps := NeedsOf(name, config);
    var o := InstalledAll(w, deps, config);
    InstallAllRecords(w, deps, config);
    InstallSingleRecords(o.world, name, config);
    if !IsIn(w.db, n) && n != name {
      if IsIn(o.world.db, n) {
        InstallAllNeeds(w, deps, config, n);
        InstallAllAddsOnly(w, deps, config, n);
      }
    }
  }

  /** Whatever is installed along needs nothing beyond what is there, asked for, or installed along too. */
  ghost predicate OneLevelIsEnough(db: seq<InstalledPackage>, name: string, config: Config) {
    forall d, n :: Names(NeedsOf(name, config), d) && !IsIn(db, d) && Names(NeedsOf(d, config), n) ==>
      IsIn(db, n) || n == name || Names(NeedsOf(name, config), n)
  }

  lemma NeedsAreThere(w: World, name: string, config: Config, d: string)
    requires AreConsistent(config) && !IsIn(w.db, name) && Installed(w, name, config).error.None?
    requires !IsIn(w.db, d) && IsIn(Installed(w, name, config).world.db, d)
    ensures HasDependencies(Installed(w, name, config).world.db, d) <==>
              forall n :: Names(NeedsOf(d, config), n) ==>
                IsIn(w.db, n) || n == name || Names(NeedsOf(name, config), n)
  {
    hide FindIn, Installed, NeedsOf, AreConsistent, DependencyName;
    var db, needs := Installed(w, name, config).world.db, NeedsOf(d, config);
    InstallOutcome(w, name, config, d);
    forall i | 0 <= i < |needs|
      ensures Names(needs, DependencyName(needs[i]))
      ensures IsIn(db, DependencyName(needs[i])) <==>
                var n := DependencyName(needs[i]);
                IsIn(w.db, n) || n == name || Names(NeedsOf(name, config), n)
    {
      InstallOutcome(w, name, config, DependencyName(needs[i]));
    }
  }

  /**
   Started on a system where nothing is missing, a successful `install` leaves nothing missing, directly or
   by way of others, exactly if the package was installed already or one level is enough: all that its
   uninstalled direct dependencies need is installed, the package itself, or another direct dependency.
   */
  lemma InstallIsComplete(w: World, name: string, config: Config)
    requires AreConsistent(config) && AllHaveDependencies(w.db) && Installed(w, name, config).error.None?
    ensures AllHaveDependencies(Installed(w, name, config).world.db) <==>
              IsIn(w.db, name) || OneLevelIsEnough(w.db, name, config)
  {
    if !IsIn(w.db, name) {
      hide FindIn, Installed, NeedsOf, AreConsistent, HasDependencies, Names;
      var db := Installed(w, name, config).world.db;
      InstallRecords(w, name, config);
      forall n
        ensures IsIn(db, n) <==> IsIn(w.db, n) || n == name || Names(NeedsOf(name, config), n)
        ensures IsIn(w.db, n) ==> HasDependencies(db, n)
        ensures !IsIn(w.db, n) && IsIn(db, n) ==>
                  (HasDependencies(db, n) <==>
                    forall m :: Names(NeedsOf(n, config), m) ==>
                      IsIn(w.db, m) || m == name || Names(NeedsOf(name, config), m))
      {
        InstallOutcome(w, name, config, n);
        if IsIn(w.db, n) {
          KeptDependencies(w.db, db, n);
        } else if IsIn(db, n) {
          NeedsAreThere(w, name, config, n);
        }
      }
      assert HasDependencies(db, name);
    }
  }

  // ----- removing -----

  lemma NamedIn(db: seq<InstalledPackage>, n: string)
    requires IsIn(db, n)
    ensures n in NamesIn(db)
  {
    var p := FindIn(db, n).value;
    var i :| 0 <= i < |db| && db[i] == p;
    assert NamesIn(db)[i] == n;
  }

  /** A removal that goes through takes a dependency away from a package exactly if its record names it. */
  lemma RemoveTakesDependencies(w: World, name: string, force: bool, n: string)
    requires HasDistinctNames(w.db) && Removed(w, name, force).error.None?
    requires n != name && HasDependencies(w.db, n)
    ensures HasDependencies(Removed(w, name, force).world.db, n) <==> !DependsOn(FindIn(w.db, n).value, name)
  {
    hide HasDistinctNames, FindIn, RemovedFrom, DependencyName, FilesWithout, Dependents, NamesIn;
    var p, db := FindIn(w.db, n).value, RemovedFrom(w.db, name);
    FindRemoved(w.db, name, n);
    forall i | 0 <= i < |p.depends|
      ensures IsIn(db, DependencyName(p.depends[i])) <==> DependencyName(p.depends[i]) != name
    {
      FindRemoved(w.db, name, DependencyName(p.depends[i]));
      assert IsIn(w.db, DependencyName(p.depends[i]));
    }
  }

  /** The guard: no other recorded package depends on what is removed without force. */
  lemma RemoveKeepsDependencies(w: World, name: string, n: string)
    requires HasDistinctNames(w.db) && Removed(w, name, false).error.None?
    requires n != name && HasDependencies(w.db, n)
    ensures HasDependencies(Removed(w, name, false).world.db, n)
  {
    NamedIn(w.db, n);
    assert n !in Dependents(w.db, NamesIn(w.db), name);
    hide HasDependencies, HasDistinctNames, Removed, DependsOn, Dependents, NamesIn;
    RemoveTakesDependencies(w, name, false, n);
  }

  // ----- updating -----

  predicate AreIn(db: seq<InstalledPackage>, deps: seq<string>) {
    forall i :: 0 <= i < |deps| ==> IsIn(db, DependencyName(deps[i]))
  }

  /** The two databases record the same names. */
  ghost predicate SameNames(db: seq<InstalledPackage>, later: seq<InstalledPackage>) {
    forall n :: IsIn(db, n) <==> IsIn(later, n)
  }

  /** The dependencies that the records of `later` have, given a plan carried out as far as it can be. */
  ghost predicate TakesOver(db: seq<InstalledPackage>, later: seq<InstalledPackage>, plan: seq<Planned>)
    requires forall u :: u in plan ==> u.repo.Opened?
  {
    && (forall u :: u in plan && CanApply(u) ==>
          FindIn(later, u.entry.name).Some? && FindIn(later, u.entry.name).value.depends == u.entry.depends.runtime)
    && (forall u :: u in plan && !CanApply(u) ==> FindIn(later, u.entry.name) == FindIn(db, u.entry.name))
    && (forall n :: !IsPlanned(plan, n) ==> FindIn(later, n) == FindIn(db, n))
  }

  ghost predicate AreRecorded(plan: seq<Planned>, db: seq<InstalledPackage>) {
    forall u :: u in plan ==> IsIn(db, u.entry.name)
  }

  lemma UpdateSingleTakesOver(w: World, u: Planned)
    requires u.repo.Opened? && IsIn(w.db, u.entry.name) && HasDistinctNames(w.db)
    ensures var db := UpdatedSingle(w, u).world.db;
      && SameNames(w.db, db) && HasDistinctNames(db)
      && (CanApply(u) ==>
            FindIn(db, u.entry.name).Some? && FindIn(db, u.entry.name).value.depends == u.entry.depends.runtime)
      && (!CanApply(u) ==> db == w.db)
      && (forall n :: n != u.entry.name ==> FindIn(db, n) == FindIn(w.db, n))
  {
    hide FindIn, UpdatedSingle, CanApply, HasDistinctNames;
    SucceedsIfApplicable(w, u);
    if UpdatedSingle(w, u).error.None? {
      UpdateSingleFinds(w, u);
    }
  }

  lemma {:induction false} UpdateAllTakesOver(w: World, updated: nat, failed: nat, plan: seq<Planned>)
    requires IsPlan(plan) && AreRecorded(plan, w.db) && HasDistinctNames(w.db)
    ensures var db := UpdatedAll(w, updated, failed, plan).world.db;
      SameNames(w.db, db) && HasDistinctNames(db) && TakesOver(w.db, db, plan)
    decreases |plan|
  {
    hide FindIn, UpdatedSingle, CanApply, HasDistinctNames;
    if plan != [] {
      var u, rest := plan[0], plan[1..];
      UpdateSingleTakesOver(w, u);
      var o := UpdatedSingle(w, u);
      assert AreRecorded(rest, o.world.db);
      if o.error.None? {
        UpdateAllTakesOver(o.world, updated + 1, failed, rest);
      } else {
        UpdateAllTakesOver(o.world, updated, failed + 1, rest);
      }
      OneMoreTaken(w.db, o.world.db, UpdatedAll(w, updated, failed, plan).world.db, plan);
    }
  }

  lemma OneMoreTaken(db: seq<InstalledPackage>, mid: seq<InstalledPackage>, later: seq<InstalledPackage>,
                     plan: seq<Planned>)
    requires plan != [] && IsPlan(plan) && TakesOver(mid, later, plan[1..])
    requires var u := plan[0];
      && (CanApply(u) ==>
            FindIn(mid, u.entry.name).Some? && FindIn(mid, u.entry.name).value.depends == u.entry.depends.runtime)
      && (!CanApply(u) ==> mid == db)
      && (forall n :: n != u.entry.name ==> FindIn(mid, n) == FindIn(db, n))
    ensures TakesOver(db, later, plan)
  {
    hide FindIn, CanApply;
    var name, rest := plan[0].entry.name, plan[1..];
    assert !IsPlanned(rest, name);
    assert forall u :: u in plan <==> u == plan[0] || u in rest;
    assert forall u :: u in rest ==> u.entry.name != name;
    assert forall n :: !IsPlanned(plan, n) ==> n != name && !IsPlanned(rest, n);
  }

  /** After an update a package that it replaces has its dependencies exactly if they were installed before. */
  lemma UpdateDependencies(w: World, config: Config, n: string)
    requires HasDistinctNames(w.db) && AreConsistent(config)
    ensures var plan, db := Plan(w.db, config.repos), Updated(w, config).world.db;
      && HasDistinctNames(db)
      && (forall u :: u in plan && u.entry.name == n && CanApply(u) ==>
            (HasDependencies(db, n) <==> AreIn(w.db, u.entry.depends.runtime)))
      && ((forall u :: u in plan && u.entry.name == n ==> !CanApply(u)) ==>
            (HasDependencies(db, n) <==> HasDependencies(w.db, n)))
  {
    hide FindIn, Plan, PlannedFor, UpdatedAll, CanApply, HasDistinctNames, AreConsistent, DependencyName;
    var plan, db := Plan(w.db, config.repos), Updated(w, config).world.db;
    PlanIsPlan(w.db, config);
    forall u | u in plan
      ensures IsIn(w.db, u.entry.name)
    {
      MemberIsFound(w.db, u.current);
    }
    UpdateAllTakesOver(w, 0, 0, plan);
    SameNamesSameIn(w.db, db);
    if !IsPlanned(plan, n) {
      assert FindIn(db, n) == FindIn(w.db, n);
    }
  }

  lemma SameNamesSameIn(db: seq<InstalledPackage>, later: seq<InstalledPackage>)
    requires SameNames(db, later)
    ensures forall deps :: AreIn(db, deps) <==> AreIn(later, deps)
  {
    hide IsIn, DependencyName;
  }

  // ----- a run -----

  datatype Op = Install(name: string, config: Config) | Remove(name: string, force: bool) | Update(config: Config)

  datatype State = State(world: World, completed: set<string>)

  /** `completed` follows the packages whose own installation has succeeded and that have not been removed. */
  function Performed(s: State, op: Op): State {
    match op
    case Install(name, config) =>
      var o := Installed(s.world, name, config);
      State(o.world, if !IsIn(s.world.db, name) && o.error.None? then s.completed + {name} else s.completed)
    case Remove(name, force) =>
      var o := Removed(s.world, name, force);
      State(o.world, if o.error.None? then s.completed - {name} else s.completed)
    case Update(config) => State(Updated(s.world, config).world, s.completed)
  }

  function Run(s: State, ops: seq<Op>): State
    decreases |ops|
  {
    if ops == [] then s else Run(Performed(s, ops[0]), ops[1..])
  }

  ghost predicate IsClosed(s: State) {
    HasDistinctNames(s.world.db) && forall n :: n in s.completed ==> HasDependencies(s.world.db, n)
  }

  /**
   What an operation must not do, as one can see beforehand: force a removal that a completed package depends
   on, or update a completed package to one with dependencies that are not installed.
   */
  ghost predicate Spares(s: State, op: Op) {
    match op
    case Install(_, _) => true
    case Remove(name, force) =>
      force && IsIn(s.world.db, name) ==>
        forall n :: n in s.completed && n != name && IsIn(s.world.db, n) ==>
          !DependsOn(FindIn(s.world.db, n).value, name)
    case Update(config) =>
      forall u :: u in Plan(s.world.db, config.repos) && u.entry.name in s.completed && CanApply(u) ==>
        AreIn(s.world.db, u.entry.depends.runtime)
  }

  ghost predicate HasConsistentConfig(op: Op) {
    !op.Remove? ==> AreConsistent(op.config)
  }

  lemma {:induction false} InstallAllIsDistinct(w: World, deps: seq<string>, config: Config)
    requires HasDistinctNames(w.db)
    ensures HasDistinctNames(InstalledAll(w, deps, config).world.db)
    decreases |deps|
  {
    hide HasDistinctNames, InstalledSingle, DependencyName, FindIn;
    if deps != [] {
      var dep := DependencyName(deps[0]);
      if IsIn(w.db, dep) {
        InstallAllIsDistinct(w, deps[1..], config);
      } else {
        InstallSingleIsDistinct(w, dep, config);
        InstallAllIsDistinct(InstalledSingle(w, dep, config).world, deps[1..], config);
      }
    }
  }

  lemma InstallSingleIsDistinct(w: World, name: string, config: Config)
    requires HasDistinctNames(w.db)
    ensures HasDistinctNames(InstalledSingle(w, name, config).world.db)
  {
    hide HasDistinctNames, Unpack, ResolveProt, AddedTo, FindInRepos;
    var found := FindInRepos(name, config.repos);
    if found.Ok? {
      var (entry, repo) := found.value;
      var prot := ResolveProt(entry, repo, config.cache);
      if prot.Ok? {
        AddedIsDistinct(w.db, Record(entry, Unpack(w.files, [], prot.value.members).extracted));
      }
    }
  }

  lemma InstallIsClosed(s: State, name: string, config: Config)
    requires IsClosed(s) && AreConsistent(config)
    ensures IsClosed(Performed(s, Install(name, config)))
  {
    hide HasDistinctNames, HasDependencies, InstalledSingle, InstalledAll, AreConsistent, FindInRepos, FindIn, Keeps;
    var w := s.world;
    InstallRecords(w, name, config);
    var found := FindInRepos(name, config.repos);
    if !IsIn(w.db, name) && found.Ok? {
      InstallAllIsDistinct(w, found.value.0.depends.runtime, config);
      InstallSingleIsDistinct(InstalledAll(w, found.value.0.depends.runtime, config).world, name, config);
    }
    var o := Installed(w, name, config);
    forall n | n in s.completed
      ensures HasDependencies(o.world.db, n)
    {
      KeptDependencies(w.db, o.world.db, n);
    }
  }

  lemma RemoveIsClosed(s: State, name: string, force: bool)
    requires IsClosed(s)
    ensures IsClosed(Performed(s, Remove(name, force))) <==> Spares(s, Remove(name, force))
  {
    hide HasDistinctNames, RemovedFrom, Dependents, NamesIn, FilesWithout, FindIn, DependsOn;
    var w, o := s.world, Removed(s.world, name, force);
    RemovedIsDistinct(w.db, name);
    forall n | n in s.completed
      ensures IsIn(w.db, n)
      ensures n != name && o.error.None? ==>
                (HasDependencies(o.world.db, n) <==> !DependsOn(FindIn(w.db, n).value, name))
      ensures n != name && o.error.None? && !force ==> HasDependencies(o.world.db, n)
    {
      hide HasDependencies, Removed;
      assert IsIn(w.db, n) by { DependentIsIn(w.db, n); }
      if n != name && o.error.None? {
        RemoveTakesDependencies(w, name, force, n);
        if !force {
          RemoveKeepsDependencies(w, name, n);
        }
      }
    }
    hide HasDependencies;
  }

  lemma DependentIsIn(db: seq<InstalledPackage>, n: string)
    requires HasDependencies(db, n)
    ensures IsIn(db, n)
  {
  }

  lemma UpdateIsClosed(s: State, config: Config)
    requires IsClosed(s) && AreConsistent(config)
    ensures IsClosed(Performed(s, Update(config))) <==> Spares(s, Update(config))
  {
    hide HasDistinctNames, HasDependencies, Updated, Plan, CanApply, AreIn, AreConsistent;
    var w, plan, db := s.world, Plan(s.world.db, config.repos), Updated(s.world, config).world.db;
    UpdateDependencies(w, config, "");
    forall u | u in plan && CanApply(u)
      ensures HasDependencies(db, u.entry.name) <==> AreIn(w.db, u.entry.depends.runtime)
    {
      UpdateDependencies(w, config, u.entry.name);
    }
    forall n | n in s.completed
      ensures HasDependencies(db, n) || exists u :: u in plan && u.entry.name == n && CanApply(u)
    {
      UpdateDependencies(w, config, n);
    }
  }

  /** An operation leaves every completed package with its dependencies exactly if it spares them. */
  lemma StepIsClosed(s: State, op: Op)
    requires IsClosed(s) && HasConsistentConfig(op)
    ensures IsClosed(Performed(s, op)) <==> Spares(s, op)
  {
    hide IsClosed, AreConsistent, Performed;
    match op {
      case Install(name, config) => InstallIsClosed(s, name, config);
      case Remove(name, force) =>
        hide Spares;
        RemoveIsClosed(s, name, force);
      case Update(config) =>
        hide Spares;
        UpdateIsClosed(s, config);
    }
  }

  ghost predicate SparesAll(s: State, ops: seq<Op>)
    decreases |ops|
  {
    ops == [] || (Spares(s, ops[0]) && SparesAll(Performed(s, ops[0]), ops[1..]))
  }

  /**
   Over every run of installs, some of which fail half-way, removals and updates that spare them, every
   package whose own installation was completed and that was not removed since has all its direct
   dependencies installed.
   */
  lemma {:induction false} RunIsClosed(s: State, ops: seq<Op>)
    requires IsClosed(s) && (forall op :: op in ops ==> HasConsistentConfig(op)) && SparesAll(s, ops)
    ensures IsClosed(Run(s, ops))
    decreases |ops|
  {
    hide IsClosed, HasConsistentConfig, Performed, Spares;
    if ops != [] {
      StepIsClosed(s, ops[0]);
      RunIsClosed(Performed(s, ops[0]), ops[1..]);
    }
  }

  /** Installs and removals without force spare whatever there is. */
  lemma {:induction false} UnforcedSpares(s: State, ops: seq<Op>)
    requires forall op :: op in ops ==> op.Install? || (op.Remove? && !op.force)
    ensures SparesAll(s, ops)
    decreases |ops|
  {
    hide Performed;
    if ops != [] {
      UnforcedSpares(Performed(s, ops[0]), ops[1..]);
    }
  }

  // ----- the name of a dependency -----

  lemma {:induction false} FirstWordIs(s: string, word: string)
    requires word <= s && forall i :: 0 <= i < |word| ==> !Text.IsWhitespace(word[i])
    ensures FirstWord(s) == word <==> |s| == |word| || Text.IsWhitespace(s[|word|])
    decreases |word|
  {
    if word != "" {
      FirstWordIs(s[1..], word[1..]);
      assert [s[0]] + word[1..] == word;
    }
  }

  /** The name that a dependency is parsed to stands at its start. */
  lemma {:induction false} ParsedNameIsPrefix(input: string, k: nat)
    requires k <= 5 && input != "" && Text.IsTrimmed(input) && DependencySpec.ParseFrom(input, k).Ok?
    ensures DependencySpec.ParseFrom(input, k).value.name <= input
    decreases 5 - k
  {
    hide DependencySpec.IsValidName, DependencySpec.ParseAround;
    if k < 5 {
      match Text.Find(input, DependencySpec.OPERATORS[k])
      case None => ParsedNameIsPrefix(input, k + 1);
      case Some(idx) => AroundIsPrefix(input, idx, k);
    }
  }

  lemma AroundIsPrefix(input: string, idx: nat, k: nat)
    requires k < 5 && input != "" && Text.IsTrimmed(input) && Text.IsAt(input, DependencySpec.OPERATORS[k], idx)
    requires DependencySpec.ParseAround(input, idx, k).Ok?
    ensures DependencySpec.ParseAround(input, idx, k).value.name <= input
  {
    hide DependencySpec.IsValidName, Version.Parse, Text.Trim;
    TrimmedPrefix(input, idx);
  }

  lemma TrimmedPrefix(input: string, idx: nat)
    requires input != "" && !Text.IsWhitespace(input[0]) && idx <= |input|
    ensures Text.Trim(input[..idx]) <= input
  {
    var head := input[..idx];
    assert Text.TrimStart(head) == head;
    Text.TrimEndSplits(head);
  }

  lemma FirstWordOfTrimmed(dep: string, name: string)
    requires name != "" && name <= Text.Trim(dep) && forall i :: 0 <= i < |name| ==> !Text.IsWhitespace(name[i])
    ensures var t := Text.Trim(dep);
      DependencyName(dep) == name <==> |t| == |name| || Text.IsWhitespace(t[|name|])
  {
    hide FirstWord, Text.IsWhitespace, Text.TrimStart, Text.TrimEnd;
    var s, t := Text.TrimStart(dep), Text.Trim(dep);
    var n := |name|;
    Text.TrimEndSplits(s);
    assert t == s[..|t|] && Text.IsBlank(s[|t|..]);
    FirstWordIs(s, name);
    assert |t| == n < |s| ==> s[|t|..][0] == s[n];
    assert |t| > n ==> t[n] == s[n];
    assert FirstWord(s) == "" ==> !(name <= s) by { FirstWordIs(s, ""); assert s != "" ==> name[0] == s[0]; }
  }

  /**
   Install and remove take the first word of a dependency for its name. That is the name the recipe parser
   reads exactly if nothing, or white space, follows the name: `glibc>=2.39` is taken for a package called
   `glibc>=2.39`.
   */
  lemma FirstWordIsParsedName(dep: string)
    requires DependencySpec.ParseSpec(dep).Ok?
    ensures var t, name := Text.Trim(dep), DependencySpec.ParseSpec(dep).value.name;
      && name <= t
      && (DependencyName(dep) == name <==> |t| == |name| || Text.IsWhitespace(t[|name|]))
  {
    hide DependencySpec.ParseFrom, DependencySpec.IsValidName, FirstWord, Text.Trim, DependencyName;
    var t, name := Text.Trim(dep), DependencySpec.ParseSpec(dep).value.name;
    Text.TrimIsPiece(dep);
    ParsedNameIsPrefix(t, 0);
    DependencySpec.ParsedFromIsValid(t, 0);
    DependencySpec.ValidNameChars(name);
    FirstWordOfTrimmed(dep, name);
  }

  // ----- at an input -----

  lemma ParsedUnspaced()
    ensures DependencySpec.ParseSpec("glibc>=2.39").Ok? && DependencySpec.ParseSpec("glibc>=2.39").value.name == "glibc"
  {
    ShortVersionParses();
    ShortNameIsValid();
    hide *;
    UnspacedIsWritten();
    DependencySpec.WrittenReadsBack("", "glibc", "", 0, "", "2.39", "");
    NothingBeforeFirst("2.39");
  }

  lemma UnspacedIsWritten()
    ensures "" + DependencySpec.Written("glibc", "", 0, "", "2.39") + "" == "glibc>=2.39"
    ensures Text.IsBlank("")
  {
  }

  lemma NothingBeforeFirst(v: string)
    ensures !DependencySpec.HoldsHigherOperator(v, 0)
  {
  }

  /** A dependency written without a space is taken for a package of that long name. */
  lemma UnspacedDependency()
    ensures DependencyName("glibc>=2.39") == "glibc>=2.39"
    ensures DependencySpec.ParseSpec("glibc>=2.39").Ok? && DependencySpec.ParseSpec("glibc>=2.39").value.name == "glibc"
  {
    hide DependencySpec.ParseSpec;
    ParsedUnspaced();
    FirstWordIs("glibc>=2.39", "glibc>=2.39");
    assert Text.TrimStart("glibc>=2.39") == "glibc>=2.39";
  }

  lemma ShortNameIsValid()
    ensures DependencySpec.IsValidName("glibc")
  {
    Text.SplitNone("glibc", '-');
  }

  lemma ShortVersionParses()
    ensures Text.IsTrimmed("2.39") && Version.Parse("2.39").Ok?
  {
    hide Text.Split, Text.SplitOnce, Text.Trim, Text.ParseUnsigned, Text.Decimal;
    Text.TrimTrimmed("2.39");
    assert "2" + ['.'] + "39" == "2.39";
    Text.SplitCons("2", '.', "39");
    Text.SplitNone("39", '.');
    Text.ParseDecimal(2, Text.U64_BOUND);
    Text.ParseDecimal(39, Text.U64_BOUND);
    Text.ParseDecimal(0, Text.U64_BOUND);
    SmallDecimals();
  }

  lemma SmallDecimals()
    ensures Text.Decimal(0) == "0" && Text.Decimal(2) == "2" && Text.Decimal(39) == "39"
  {
    assert Text.Decimal(3) == "3" && Text.Decimal(39) == Text.Decimal(3) + "9";
  }

  /** A repository with `a`, which needs `b`, which needs `c`. */
  function ChainEntry(name: string, needs: seq<string>): IndexEntry {
    RepositoryIndex.IndexEntry(name, "1.0", 1, "", "", "any", "core", name + ".prot", "sum",
                               DependsText.Depends([], needs), [], [], 0, "")
  }

  const CHAIN: Config := Config(
    [Opened(
       RepositoryIndex.Index(
         map["a" := ChainEntry("a", ["b"]), "b" := ChainEntry("b", ["c"]), "c" := ChainEntry("c", [])],
         ["a", "b", "c"]),
       map["a.prot" := Prot("sum", []), "b.prot" := Prot("sum", []), "c.prot" := Prot("sum", [])])],
    map[])

  lemma ShortName(c: char)
    requires !Text.IsWhitespace(c)
    ensures DependencyName([c]) == [c]
  {
    FirstWordIs([c], [c]);
  }

  lemma InstallsFromChain(w: World, name: string)
    requires name == "a" || name == "b"
    ensures FindInRepos(name, CHAIN.repos).Ok?
    ensures FindInRepos(name, CHAIN.repos).value.0 == CHAIN.repos[0].index.entries[name]
    ensures InstalledSingle(w, name, CHAIN) ==
              Outcome(w.(db := AddedTo(w.db, Record(CHAIN.repos[0].index.entries[name], []))), None)
  {
    hide RefName, AddedTo;
    var entry := CHAIN.repos[0].index.entries[name];
    assert RefName(entry) !in CHAIN.cache;
    assert "a" + ".prot" == "a.prot" && "b" + ".prot" == "b.prot";
    assert ProtInRepo(entry, CHAIN.repos[0]) == Ok(Prot("sum", []));
    assert Unpack(w.files, [], []) == Unpacked(w.files, [], true);
  }

  const NOTHING_INSTALLED: World := World([], map[])
  const A: InstalledPackage := Record(ChainEntry("a", ["b"]), [])
  const B: InstalledPackage := Record(ChainEntry("b", ["c"]), [])

  lemma ChainDependency()
    ensures InstalledAll(NOTHING_INSTALLED, ["b"], CHAIN) == Outcome(World([B], map[]), None)
  {
    ShortName('b');
    InstallsFromChain(NOTHING_INSTALLED, "b");
    hide InstalledSingle, DependencyName;
    assert AddedTo([], B) == [B];
    var w1 := World([B], map[]);
    assert InstalledAll(w1, ["b"][1..], CHAIN) == Outcome(w1, None);
  }

  lemma ChainInstalled()
    ensures Installed(NOTHING_INSTALLED, "a", CHAIN) == Outcome(World([B, A], map[]), None)
  {
    ChainDependency();
    var w1 := World([B], map[]);
    InstallsFromChain(NOTHING_INSTALLED, "a");
    InstallsFromChain(w1, "a");
    assert [B][1..] == [] && Retained([B], "a") == [B] && AddedTo([B], A) == [B, A];
    hide InstalledSingle, InstalledAll, FindInRepos;
  }

  lemma ChainRecords()
    ensures HasDependencies([B, A], "a") && IsIn([B, A], "b") && !HasDependencies([B, A], "b")
  {
    ShortName('b');
    ShortName('c');
    hide DependencyName;
    assert FindIn([B, A], "b") == Some(B) && FindIn([B, A], "a") == Some(A) && FindIn([B, A], "c") == None;
    assert !IsIn([B, A], DependencyName(B.depends[0]));
  }

  lemma ChainIsConsistent()
    ensures AreConsistent(CHAIN)
  {
  }

  /**
   From this repository, installing `a` brings `b` with it but not `c`, which `b` depends on; installing `b`
   then succeeds without doing anything, and `c` is still not there.
   */
  lemma ChainIsBroken()
    ensures AreConsistent(CHAIN)
    ensures var first := Installed(NOTHING_INSTALLED, "a", CHAIN);
      var second := Installed(first.world, "b", CHAIN);
      && first.error.None? && HasDependencies(first.world.db, "a") && !HasDependencies(first.world.db, "b")
      && second.error.None? && IsIn(second.world.db, "b") && !HasDependencies(second.world.db, "b")
  {
    hide InstalledSingle, InstalledAll, DependencyName, FindInRepos, HasDependencies, AreConsistent, FindIn, A, B;
    ChainIsConsistent();
    ChainInstalled();
    ChainRecords();
  }
}
