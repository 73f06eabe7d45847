/** What an update plans, and what a planned update records. */
module LysinPlans {
  import opened Wrappers
  import opened LocalDb
  import opened Lysin
  import RepositoryIndex

  /** Every index is one that adding, removing and loading entries can give. */
  ghost predicate AreConsistent(config: Config) {
    forall repo :: repo in config.repos && repo.Opened? ==> RepositoryIndex.IsConsistent(repo.index)
  }

  // ----- plans -----

  /** Each planned update is for the name of its entry, and no two are for the same. */
  ghost predicate IsPlan(plan: seq<Planned>) {
    && (forall u :: u in plan ==> u.repo.Opened? && u.entry.name == u.current.name)
    && forall i, j :: 0 <= i < j < |plan| ==> plan[i].entry.name != plan[j].entry.name
  }

  ghost predicate IsPlanned(plan: seq<Planned>, name: string) {
    exists u :: u in plan && u.entry.name == name
  }

  lemma PlannedIsNamed(p: InstalledPackage, config: Config)
    requires AreConsistent(config)
    ensures |PlannedFor(p, config.repos)| <= 1
    ensures forall u :: u in PlannedFor(p, config.repos) ==> u.repo.Opened? && u.current == p && u.entry.name == p.name
  {
    hide FindNewer, IsNewer;
  }

  lemma {:induction false} PlanIsPlan(db: seq<InstalledPackage>, config: Config)
    requires AreConsistent(config) && HasDistinctNames(db)
    ensures var plan := Plan(db, config.repos);
      && IsPlan(plan)
      && (forall u :: u in plan ==> u.current in db && u in PlannedFor(u.current, config.repos))
      && (forall p, u :: p in db && u in PlannedFor(p, config.repos) ==> u in plan)
  {
    hide PlannedFor, AreConsistent;
    if db != [] {
      var head, tail := PlannedFor(db[0], config.repos), Plan(db[1..], config.repos);
      var plan := Plan(db, config.repos);
      PlannedIsNamed(db[0], config);
      PlanIsPlan(db[1..], config);
      assert plan == head + tail;
      assert forall p :: p in db[1..] ==> p.name != db[0].name;
      assert forall p :: p in db <==> p == db[0] || p in db[1..];
      assert forall u :: u in plan <==> u in head || u in tail;
      forall i, j | 0 <= i < j < |plan|
        ensures plan[i].entry.name != plan[j].entry.name
      {
        assert plan[j] == tail[j - |head|] && plan[j] in tail;
        if i < |head| {
          assert plan[i] in head;
        } else {
          assert plan[i] == tail[i - |head|];
        }
      }
    }
  }

  // ----- single updates -----

  /** The package file is there, has the hash promised, and can be unpacked to its end. */
  predicate CanApply(u: Planned)
    requires u.repo.Opened?
  {
    var prot := ProtInRepo(u.entry, u.repo);
    prot.Ok? && prot.value.sha256 == u.entry.sha256 && Bad !in prot.value.members
  }

  lemma {:induction false} UnpackEnds(files: Files, extracted: seq<string>, members: seq<Member>)
    ensures Unpack(files, extracted, members).ok <==> Bad !in members
    decreases |members|
  {
    if members != [] {
      var rest := members[1..];
      assert forall m :: m in members <==> m == members[0] || m in rest;
      match members[0]
      case Bad =>
      case Skipped => UnpackEnds(files, extracted, rest);
      case File(path, content) => UnpackEnds(files[path := content], extracted + [path], rest);
    }
  }

  /** Whether an update succeeds depends on its package file only. */
  lemma SucceedsIfApplicable(w: World, u: Planned)
    requires u.repo.Opened?
    ensures UpdatedSingle(w, u).error.None? <==> CanApply(u)
    ensures UpdatedSingle(w, u).error.Some? ==> UpdatedSingle(w, u).world.db == w.db
  {
    hide Unpack, AddedTo, FilesWithout;
    var prot := ProtInRepo(u.entry, u.repo);
    if prot.Ok? {
      UnpackEnds(FilesWithout(w.files, u.current.files), [], prot.value.members);
    }
  }

  /** A successful update records the new package; no other name is touched. */
  lemma UpdateSingleFinds(w: World, u: Planned)
    requires u.repo.Opened? && UpdatedSingle(w, u).error.None?
    ensures var db := UpdatedSingle(w, u).world.db;
      && (exists extracted :: FindIn(db, u.entry.name) == Some(Record(u.entry, extracted)))
      && (forall n :: n != u.entry.name ==> FindIn(db, n) == FindIn(w.db, n))
      && (HasDistinctNames(w.db) ==> HasDistinctNames(db))
  {
    hide FindIn, Unpack, FilesWithout, AddedTo, HasDistinctNames;
    var prot := ProtInRepo(u.entry, u.repo).value;
    var r := Record(u.entry, Unpack(FilesWithout(w.files, u.current.files), [], prot.members).extracted);
    forall n
      ensures FindIn(AddedTo(w.db, r), n) == if n == r.name then Some(r) else FindIn(w.db, n)
    {
      FindAdded(w.db, r, n);
    }
    if HasDistinctNames(w.db) {
      AddedIsDistinct(w.db, r);
    }
  }
}
