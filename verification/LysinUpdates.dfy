/**
 Repeated updates. Versions that parse are compared by number and the others as strings, and the two do not
 always fit together: then `update` may go round in circles. This module says exactly when.
 */
module LysinUpdates {
  import opened Wrappers
  import opened LocalDb
  import opened Lysin
  import opened LysinPlans
  import DependsText
  import RepositoryIndex
  import Text
  import Version

  /** What decides about updates. */
  datatype Key = Key(version: string, release: nat)

  predicate Newer(a: Key, b: Key) {
    IsNewer(a.version, a.release, b.version, b.release)
  }

  predicate Parses(version: string) {
    Version.Parse(version).Ok?
  }

  // ----- versions that parse -----

  /** The order of (major, minor, patch, release). */
  predicate KeyLess(a: Key, b: Key)
    requires Parses(a.version) && Parses(b.version)
  {
    var v, w := Version.Parse(a.version).value, Version.Parse(b.version).value;
    Version.Less(v, w) || (Version.SameNumbers(v, w) && a.release < b.release)
  }

  /** Among versions that parse, newer is a strict order, and every update raises the four numbers. */
  lemma NewerIsStrict(a: Key, b: Key, c: Key)
    requires Parses(a.version) && Parses(b.version) && Parses(c.version)
    ensures !Newer(a, a)
    ensures Newer(a, b) && Newer(b, c) ==> Newer(a, c)
    ensures Newer(a, b) ==> KeyLess(b, a)
  {
    hide Version.Parse;
  }

  // ----- versions in general -----

  /**
   Two versions that parse, with one that does not between them as strings: on the right of the older and on
   the left of the newer one would be in order; here it is the other way round.
   */
  predicate IsTwisted(newer: string, x: string, older: string) {
    && Parses(newer) && Parses(older) && !Parses(x)
    && VersionIsNewer(newer, older)
    && Text.Less(newer, x) && Text.Less(x, older)
  }

  ghost predicate HasTwist(versions: set<string>) {
    exists newer, x, older :: newer in versions && x in versions && older in versions && IsTwisted(newer, x, older)
  }

  /** The unparsed versions that are not greater as strings. */
  function Passed(v: string, versions: set<string>): set<string> {
    set x | x in versions && !Parses(x) && !Text.Less(v, x)
  }

  predicate TieLess(a: Key, b: Key) {
    if Parses(a.version) && Parses(b.version) then KeyLess(a, b)
    else if Parses(a.version) == Parses(b.version) then a.release < b.release
    else Parses(b.version)
  }

  /** A measure that every update raises when there is no twist. */
  predicate RankLess(a: Key, b: Key, versions: set<string>) {
    var p, q := Passed(a.version, versions), Passed(b.version, versions);
    p < q || (p == q && TieLess(a, b))
  }

  lemma RankIsStrict(a: Key, b: Key, c: Key, versions: set<string>)
    ensures !RankLess(a, a, versions)
    ensures RankLess(a, b, versions) && RankLess(b, c, versions) ==> RankLess(a, c, versions)
  {
    hide Passed, Version.Parse;
  }

  lemma GreaterPassesMore(a: string, b: string, versions: set<string>)
    requires a == b || Text.Less(a, b)
    ensures Passed(a, versions) <= Passed(b, versions)
  {
    hide Text.Less, Version.Parse;
    forall x | x in Passed(a, versions)
      ensures x in Passed(b, versions)
    {
      if Text.Less(b, x) && a != b {
        Text.LessTransitive(a, b, x);
      }
    }
  }

  lemma UntwistedPassesMore(newer: string, older: string, versions: set<string>)
    requires newer in versions && older in versions && !HasTwist(versions)
    requires Parses(newer) && Parses(older) && VersionIsNewer(newer, older)
    ensures Passed(older, versions) <= Passed(newer, versions)
  {
    hide Text.Less, Version.Parse, VersionIsNewer;
    forall x | x in Passed(older, versions)
      ensures x in Passed(newer, versions)
    {
      Text.LessTotal(x, older);
      assert x != older;
      assert !IsTwisted(newer, x, older);
    }
  }

  lemma NewerRaisesRank(a: Key, b: Key, versions: set<string>)
    requires a.version in versions && b.version in versions && !HasTwist(versions)
    requires Newer(a, b)
    ensures RankLess(b, a, versions)
  {
    hide HasTwist, Text.Less, Version.Parse;
    if a.version == b.version {
      NewerSameVersion(a, b);
    } else if Parses(a.version) && Parses(b.version) {
      UntwistedPassesMore(a.version, b.version, versions);
    } else {
      GreaterPassesMore(b.version, a.version, versions);
      Text.LessIrreflexive(a.version);
      if !Parses(a.version) {
        assert a.version in Passed(a.version, versions) && a.version !in Passed(b.version, versions);
      }
    }
  }

  lemma NewerSameVersion(a: Key, b: Key)
    requires Newer(a, b) && a.version == b.version
    ensures a.release > b.release
  {
    hide Version.Parse;
    Text.LessIrreflexive(a.version);
  }

  // ----- going round in circles -----

  ghost predicate IsUpdateCycle(cycle: seq<Key>, versions: set<string>) {
    && |cycle| > 1 && cycle[0] == cycle[|cycle| - 1]
    && (forall i :: 0 <= i < |cycle| ==> cycle[i].version in versions)
    && forall i :: 0 < i < |cycle| ==> Newer(cycle[i], cycle[i - 1])
  }

  lemma {:induction false} ChainRaisesRank(chain: seq<Key>, versions: set<string>, i: nat)
    requires 0 < i < |chain| && !HasTwist(versions)
    requires forall j :: 0 <= j < |chain| ==> chain[j].version in versions
    requires forall j :: 0 < j < |chain| ==> Newer(chain[j], chain[j - 1])
    ensures RankLess(chain[0], chain[i], versions)
  {
    hide HasTwist, Newer, RankLess;
    NewerRaisesRank(chain[i], chain[i - 1], versions);
    if i > 1 {
      ChainRaisesRank(chain, versions, i - 1);
      RankIsStrict(chain[0], chain[i - 1], chain[i], versions);
    }
  }

  lemma TwistIsCycle(newer: string, x: string, older: string, release: nat)
    requires IsTwisted(newer, x, older)
    ensures Newer(Key(newer, release), Key(older, release))
    ensures Newer(Key(x, release), Key(newer, release))
    ensures Newer(Key(older, release), Key(x, release))
  {
    hide Version.Parse, Text.Less;
  }

  /** Updates can go round in circles exactly if there is a twist among the versions. */
  lemma CyclesAreTwists(versions: set<string>)
    ensures (exists cycle :: IsUpdateCycle(cycle, versions)) <==> HasTwist(versions)
  {
    hide Newer, IsTwisted, RankLess;
    if HasTwist(versions) {
      var newer, x, older :| newer in versions && x in versions && older in versions && IsTwisted(newer, x, older);
      TwistIsCycle(newer, x, older, 1);
      assert IsUpdateCycle([Key(older, 1), Key(newer, 1), Key(x, 1), Key(older, 1)], versions);
    } else {
      forall cycle | IsUpdateCycle(cycle, versions)
        ensures false
      {
        ChainRaisesRank(cycle, versions, |cycle| - 1);
        RankIsStrict(cycle[0], cycle[0], cycle[0], versions);
      }
    }
  }

  /** Such a circle: `10.0.0` is newer than `9.0.0` by number, which follows `1x`, which follows `10.0.0`. */
  lemma TenNineOneX()
    ensures IsTwisted("10.0.0", "1x", "9.0.0")
  {
    hide Version.Parse, Text.Decimal;
    Text.SmallNumbers();
    assert Version.Print(9, 0, 0) == "9.0.0" && Version.Print(10, 0, 0) == "10.0.0";
    Version.ParsePrinted(9, 0, 0);
    Version.ParsePrinted(10, 0, 0);
    OneXIsNoVersion();
    assert "10.0.0"[0] == "1x"[0] && "10.0.0"[1..] == "0.0.0" && "1x"[1..] == "x";
  }

  lemma OneXIsNoVersion()
    ensures Version.Parse("1x").Err?
  {
    hide Text.Trim, Text.Split, Text.SplitOnce, Text.TrimStart, Text.TrimEnd;
    Text.TrimTrimmed("1x");
    Text.SplitNone("1x", '.');
    assert "1x"[1] == 'x' && !Text.AllDigits("1x");
  }

  // ----- repeated updates of one package -----

  /** The first of the offers that is newer. */
  function FirstNewer(offers: seq<Option<Key>>, current: Key): (r: Option<Key>)
    ensures r.Some? ==> r in offers && Newer(r.value, current)
    ensures r.None? ==> forall o :: o in offers && o.Some? ==> !Newer(o.value, current)
  {
    if offers == [] then None
    else if offers[0].Some? && Newer(offers[0].value, current) then offers[0]
    else FirstNewer(offers[1..], current)
  }

  function Next(offers: seq<Option<Key>>, current: Key): Key {
    match FirstNewer(offers, current)
    case Some(k) => k
    case None => current
  }

  function After(offers: seq<Option<Key>>, current: Key, rounds: nat): Key
    decreases rounds
  {
    if rounds == 0 then current else After(offers, Next(offers, current), rounds - 1)
  }

  ghost predicate AreAmong(offers: seq<Option<Key>>, current: Key, versions: set<string>) {
    current.version in versions && forall o :: o in offers && o.Some? ==> o.value.version in versions
  }

  /** The places of the offers that rank above the current key. */
  function Above(offers: seq<Option<Key>>, current: Key, versions: set<string>): set<nat> {
    set i: nat | i < |offers| && offers[i].Some? && RankLess(current, offers[i].value, versions)
  }

  lemma {:induction false} SmallSet(s: set<nat>, n: nat)
    requires forall i :: i in s ==> i < n
    ensures |s| <= n
  {
    if n > 0 {
      SmallSet(s - {n - 1}, n - 1);
    }
  }

  lemma NextIsAboveFewer(offers: seq<Option<Key>>, current: Key, versions: set<string>)
    requires AreAmong(offers, current, versions) && !HasTwist(versions) && FirstNewer(offers, current).Some?
    ensures |Above(offers, Next(offers, current), versions)| < |Above(offers, current, versions)|
  {
    hide HasTwist, RankLess, Newer;
    var next := Next(offers, current);
    var i: nat :| i < |offers| && offers[i] == Some(next);
    NewerRaisesRank(next, current, versions);
    var a, b := Above(offers, next, versions), Above(offers, current, versions);
    forall j | j in a
      ensures j in b
    {
      RankIsStrict(current, next, offers[j].value, versions);
    }
    RankIsStrict(next, next, next, versions);
    assert i in b && i !in a;
    ProperSubset(a, b);
  }

  lemma ProperSubset(a: set<nat>, b: set<nat>)
    requires a < b
    ensures |a| < |b|
  {
    assert |b| == |a| + |b - a| by { assert b == a + (b - a); }
  }

  lemma {:induction false} SettlesWithin(offers: seq<Option<Key>>, current: Key, versions: set<string>, rounds: nat)
    requires AreAmong(offers, current, versions) && !HasTwist(versions)
    requires |Above(offers, current, versions)| <= rounds
    ensures FirstNewer(offers, After(offers, current, rounds)).None?
    decreases rounds
  {
    hide HasTwist, RankLess, Newer, Above;
    if FirstNewer(offers, current).Some? {
      NextIsAboveFewer(offers, current, versions);
      SettlesWithin(offers, Next(offers, current), versions, rounds - 1);
    } else {
      SettledStays(offers, current, rounds);
    }
  }

  lemma {:induction false} SettledStays(offers: seq<Option<Key>>, current: Key, rounds: nat)
    requires FirstNewer(offers, current).None?
    ensures After(offers, current, rounds) == current
  {
    hide FirstNewer;
    if rounds > 0 {
      SettledStays(offers, current, rounds - 1);
    }
  }

  /** As many rounds as there are repositories are enough, without a twist. */
  lemma Settles(offers: seq<Option<Key>>, current: Key, versions: set<string>)
    requires AreAmong(offers, current, versions) && !HasTwist(versions)
    ensures FirstNewer(offers, After(offers, current, |offers|)).None?
  {
    hide HasTwist, RankLess, FirstNewer, After, AreAmong;
    SmallSet(Above(offers, current, versions), |offers|);
    SettlesWithin(offers, current, versions, |offers|);
  }

  /** For every offer there is a newer one. */
  ghost predicate GoesOn(offers: seq<Option<Key>>) {
    forall o :: o in offers ==> o.Some? && FirstNewer(offers, o.value).Some?
  }

  lemma {:induction false} TwistNeverSettles(offers: seq<Option<Key>>, current: Key, rounds: nat)
    requires Some(current) in offers && GoesOn(offers)
    ensures FirstNewer(offers, After(offers, current, rounds)).Some?
    decreases rounds
  {
    hide FirstNewer, GoesOn, Newer, Next;
    NextIsOffered(offers, current);
    if rounds > 0 {
      TwistNeverSettles(offers, Next(offers, current), rounds - 1);
    }
  }

  lemma NextIsOffered(offers: seq<Option<Key>>, current: Key)
    requires Some(current) in offers && GoesOn(offers)
    ensures FirstNewer(offers, current).Some? && Some(Next(offers, current)) in offers
  {
    hide Newer;
    assert FirstNewer(offers, Some(current).value).Some?;
  }

  /**
   Whatever the repositories offer among these versions, and whatever was installed, as many rounds of
   updates as there are repositories reach a state with nothing newer: exactly if there is no twist. With a
   twist there are offers for which no number of rounds does.
   */
  lemma SettlesUnlessTwisted(versions: set<string>)
    ensures (forall offers, current | AreAmong(offers, current, versions) ::
               FirstNewer(offers, After(offers, current, |offers|)).None?)
            <==> !HasTwist(versions)
    ensures HasTwist(versions) ==>
              exists offers, current :: AreAmong(offers, current, versions) &&
                forall n: nat :: FirstNewer(offers, After(offers, current, n)).Some?
  {
    hide FirstNewer, After, HasTwist;
    if !HasTwist(versions) {
      forall offers, current | AreAmong(offers, current, versions)
        ensures FirstNewer(offers, After(offers, current, |offers|)).None?
      {
        Settles(offers, current, versions);
      }
    } else {
      var offers, current := TwistedOffers(versions);
      forall n: nat
        ensures FirstNewer(offers, After(offers, current, n)).Some?
      {
        TwistNeverSettles(offers, current, n);
      }
      assert FirstNewer(offers, After(offers, current, |offers|)).Some?;
    }
  }

  lemma TwistedOffers(versions: set<string>) returns (offers: seq<Option<Key>>, current: Key)
    requires HasTwist(versions)
    ensures AreAmong(offers, current, versions) && Some(current) in offers && GoesOn(offers)
  {
    hide Newer, IsTwisted;
    var newer, x, older :| newer in versions && x in versions && older in versions && IsTwisted(newer, x, older);
    TwistIsCycle(newer, x, older, 1);
    current := Key(older, 1);
    offers := [Some(Key(newer, 1)), Some(Key(x, 1)), Some(current)];
    assert offers[0] in offers && offers[1] in offers && offers[2] in offers;
  }

  /** Versions that parse have no twist. */
  lemma ParsedHasNoTwist(versions: set<string>)
    requires forall v :: v in versions ==> Parses(v)
    ensures !HasTwist(versions)
  {
    hide Version.Parse, Text.Less;
  }

  // ----- repeated updates of a system -----

  function KeyOf(p: InstalledPackage): Key {
    Key(p.version, p.release)
  }

  function EntryKey(e: IndexEntry): Key {
    Key(e.version, e.release)
  }

  /** What each repository offers under a name. */
  function Offers(name: string, repos: seq<Repo>): (r: seq<Option<Key>>)
    ensures |r| == |repos|
  {
    if repos == [] then []
    else
      [if repos[0].Opened? && name in repos[0].index.entries then Some(EntryKey(repos[0].index.entries[name]))
       else None] + Offers(name, repos[1..])
  }

  /** With no broken repository, the search finds the first newer offer. */
  lemma {:induction false} FindsFirstNewer(p: InstalledPackage, repos: seq<Repo>)
    requires Broken !in repos
    ensures var r := FindNewer(p.name, p.version, p.release, repos);
      && r.Ok?
      && (r.value.None? <==> FirstNewer(Offers(p.name, repos), KeyOf(p)).None?)
      && (r.value.Some? ==> FirstNewer(Offers(p.name, repos), KeyOf(p)) == Some(EntryKey(r.value.value.0)))
  {
    hide IsNewer;
    if repos != [] {
      FindsFirstNewer(p, repos[1..]);
      var offers := Offers(p.name, repos);
      assert offers[1..] == Offers(p.name, repos[1..]);
    }
  }

  /** The key under which a name is recorded. */
  function Recorded(db: seq<InstalledPackage>, name: string): Option<Key> {
    match FindIn(db, name)
    case Some(p) => Some(KeyOf(p))
    case None => None
  }

  /** A successful single update records the new key; no other name is touched. */
  lemma UpdateSingleRecords(w: World, u: Planned)
    requires u.repo.Opened? && UpdatedSingle(w, u).error.None?
    ensures var db := UpdatedSingle(w, u).world.db;
      && Recorded(db, u.entry.name) == Some(EntryKey(u.entry))
      && (forall n :: n != u.entry.name ==> Recorded(db, n) == Recorded(w.db, n))
      && (HasDistinctNames(w.db) ==> HasDistinctNames(db))
  {
    hide FindIn, UpdatedSingle, HasDistinctNames;
    UpdateSingleFinds(w, u);
  }

  lemma {:induction false} FailuresAddUp(w: World, updated: nat, failed: nat, plan: seq<Planned>)
    requires IsPlan(plan)
    ensures UpdatedAll(w, updated, failed, plan).failed >= failed
    decreases |plan|
  {
    hide UpdatedSingle;
    if plan != [] {
      var o := UpdatedSingle(w, plan[0]);
      if o.error.None? {
        FailuresAddUp(o.world, updated + 1, failed, plan[1..]);
      } else {
        FailuresAddUp(o.world, updated, failed + 1, plan[1..]);
      }
    }
  }

  /** If nothing fails, the planned names have their new keys and the others the ones they had. */
  lemma {:induction false} UpdateAllRecords(w: World, updated: nat, plan: seq<Planned>, failed: nat)
    requires IsPlan(plan) && UpdatedAll(w, updated, failed, plan).failed == failed && HasDistinctNames(w.db)
    ensures var db := UpdatedAll(w, updated, failed, plan).world.db;
      && HasDistinctNames(db)
      && (forall u :: u in plan ==> Recorded(db, u.entry.name) == Some(EntryKey(u.entry)))
      && (forall n :: !IsPlanned(plan, n) ==> Recorded(db, n) == Recorded(w.db, n))
    decreases |plan|
  {
    hide UpdatedSingle, Recorded, HasDistinctNames;
    if plan != [] {
      var o, rest := UpdatedSingle(w, plan[0]), plan[1..];
      if o.error.Some? {
        FailuresAddUp(o.world, updated, failed + 1, rest);
      }
      UpdateSingleRecords(w, plan[0]);
      UpdateAllRecords(o.world, updated + 1, rest, failed);
      var name := plan[0].entry.name;
      assert !IsPlanned(rest, name);
      forall n | !IsPlanned(plan, n)
        ensures n != name && !IsPlanned(rest, n)
      {
        assert plan[0] in plan && forall u :: u in rest ==> u in plan;
      }
      assert forall u :: u in plan ==> u == plan[0] || u in rest;
    }
  }

  /** One round in which nothing fails takes every recorded key to the next one. */
  lemma UpdateRecordsNext(w: World, config: Config, name: string)
    requires HasDistinctNames(w.db) && AreConsistent(config) && Broken !in config.repos
    requires Updated(w, config).failed == 0
    ensures var db := Updated(w, config).world.db;
      && HasDistinctNames(db)
      && Recorded(db, name) == match Recorded(w.db, name)
                               case Some(k) => Some(Next(Offers(name, config.repos), k))
                               case None => None
  {
    hide Plan, PlannedFor, UpdatedAll, HasDistinctNames, AreConsistent, FirstNewer, Offers, FindIn, FindNewer;
    var plan := Plan(w.db, config.repos);
    PlanIsPlan(w.db, config);
    UpdateAllRecords(w, 0, plan, 0);
    var found := FindIn(w.db, name);
    if found.None? {
      assert !IsPlanned(plan, name);
    } else {
      PlannedIsFirstNewer(found.value, config);
      OnlyForName(w.db, found.value, plan, config);
    }
  }

  lemma PlannedIsFirstNewer(p: InstalledPackage, config: Config)
    requires AreConsistent(config) && Broken !in config.repos
    ensures var planned, first := PlannedFor(p, config.repos), FirstNewer(Offers(p.name, config.repos), KeyOf(p));
      if first.None? then planned == []
      else |planned| == 1 && planned[0].entry.name == p.name && EntryKey(planned[0].entry) == first.value
  {
    hide FindNewer, FirstNewer, Offers;
    FindsFirstNewer(p, config.repos);
  }

  lemma OnlyForName(db: seq<InstalledPackage>, p: InstalledPackage, plan: seq<Planned>, config: Config)
    requires HasDistinctNames(db) && p in db && IsPlan(plan)
    requires forall u :: u in plan ==> u.current in db && u in PlannedFor(u.current, config.repos)
    requires forall q, u :: q in db && u in PlannedFor(q, config.repos) ==> u in plan
    ensures PlannedFor(p, config.repos) == [] ==> !IsPlanned(plan, p.name)
    ensures forall u :: u in PlannedFor(p, config.repos) ==> u in plan
  {
    hide PlannedFor;
    if PlannedFor(p, config.repos) == [] {
      forall u | u in plan
        ensures u.entry.name != p.name
      {
        assert u.current != p;
        assert u.current.name != p.name by { SameName(db, u.current, p); }
      }
    }
  }

  /** Updating again and again against the same repositories. */
  function Rounds(w: World, config: Config, rounds: nat): World
    decreases rounds
  {
    if rounds == 0 then w else Rounds(Updated(w, config).world, config, rounds - 1)
  }

  ghost predicate AllSucceed(w: World, config: Config, rounds: nat)
    decreases rounds
  {
    rounds > 0 ==> Updated(w, config).failed == 0 && AllSucceed(Updated(w, config).world, config, rounds - 1)
  }

  /** Every package goes its own way through its own offers. */
  lemma {:induction false} RoundsRecordAfter(w: World, config: Config, rounds: nat, name: string)
    requires HasDistinctNames(w.db) && AreConsistent(config) && Broken !in config.repos
    requires AllSucceed(w, config, rounds)
    ensures var db := Rounds(w, config, rounds).db;
      && HasDistinctNames(db)
      && Recorded(db, name) == match Recorded(w.db, name)
                               case Some(k) => Some(After(Offers(name, config.repos), k, rounds))
                               case None => None
    decreases rounds
  {
    hide Updated, Recorded, HasDistinctNames, AreConsistent, Next, Offers;
    if rounds > 0 {
      UpdateRecordsNext(w, config, name);
      RoundsRecordAfter(Updated(w, config).world, config, rounds - 1, name);
    }
  }

  /** The versions that play a part for one package. */
  function VersionsOf(name: string, current: Key, repos: seq<Repo>): set<string> {
    {current.version} + set o | o in Offers(name, repos) && o.Some? :: o.value.version
  }

  ghost predicate IsTwistFree(db: seq<InstalledPackage>, repos: seq<Repo>) {
    forall p :: p in db ==> !HasTwist(VersionsOf(p.name, KeyOf(p), repos))
  }

  /** No repository has anything newer for any package. */
  ghost predicate IsUpToDate(db: seq<InstalledPackage>, repos: seq<Repo>) {
    forall p :: p in db ==> FindNewer(p.name, p.version, p.release, repos) == Ok(None)
  }

  /**
   Against fixed repositories, and with every update of a package succeeding, as many rounds of `update` as
   there are repositories bring every package up to date.
   */
  lemma UpdatesSettle(w: World, config: Config)
    requires HasDistinctNames(w.db) && AreConsistent(config) && Broken !in config.repos
    requires IsTwistFree(w.db, config.repos) && AllSucceed(w, config, |config.repos|)
    ensures IsUpToDate(Rounds(w, config, |config.repos|).db, config.repos)
  {
    hide AreConsistent, HasTwist, Rounds, AllSucceed, FirstNewer, After, FindNewer, Offers, VersionsOf;
    var repos := config.repos;
    var db := Rounds(w, config, |repos|).db;
    forall p | p in db
      ensures FindNewer(p.name, p.version, p.release, repos) == Ok(None)
    {
      RoundsRecordAfter(w, config, |repos|, p.name);
      MemberIsFound(db, p);
      var q := FindIn(w.db, p.name).value;
      AmongVersions(p.name, KeyOf(q), repos);
      Settles(Offers(p.name, repos), KeyOf(q), VersionsOf(p.name, KeyOf(q), repos));
      FindsFirstNewer(p, repos);
    }
  }

  lemma AmongVersions(name: string, current: Key, repos: seq<Repo>)
    ensures AreAmong(Offers(name, repos), current, VersionsOf(name, current, repos))
  {
    hide Offers;
  }

  /** In particular when all versions parse. */
  lemma ParsedUpdatesSettle(w: World, config: Config)
    requires HasDistinctNames(w.db) && AreConsistent(config) && Broken !in config.repos
    requires forall p :: p in w.db ==> Parses(p.version)
    requires forall repo, n | repo in config.repos && repo.Opened? && n in repo.index.entries ::
               Parses(repo.index.entries[n].version)
    requires AllSucceed(w, config, |config.repos|)
    ensures IsUpToDate(Rounds(w, config, |config.repos|).db, config.repos)
  {
    hide Parses, HasTwist, AllSucceed, Rounds, IsUpToDate, AreConsistent, HasDistinctNames;
    forall p | p in w.db
      ensures !HasTwist(VersionsOf(p.name, KeyOf(p), config.repos))
    {
      OffersParse(p.name, config.repos);
      ParsedHasNoTwist(VersionsOf(p.name, KeyOf(p), config.repos));
    }
    UpdatesSettle(w, config);
  }

  lemma {:induction false} OffersParse(name: string, repos: seq<Repo>)
    requires forall repo, n | repo in repos && repo.Opened? && n in repo.index.entries ::
               Parses(repo.index.entries[n].version)
    ensures forall o :: o in Offers(name, repos) && o.Some? ==> Parses(o.value.version)
  {
    hide Parses;
    if repos != [] {
      assert repos[0] in repos && forall r :: r in repos[1..] ==> r in repos;
      OffersParse(name, repos[1..]);
    }
  }

  // ----- a system that never comes to rest -----

  function CircleEntry(version: string): IndexEntry {
    RepositoryIndex.IndexEntry("p", version, 1, "", "", "any", "core", "p.prot", "sum", DependsText.Depends([], []),
                               [], [], 0, "")
  }

  function CircleRepo(version: string): Repo {
    Opened(RepositoryIndex.Index(map["p" := CircleEntry(version)], ["p"]), map["p.prot" := Prot("sum", [])])
  }

  /** Three repositories, each with its own version of `p`. */
  const CIRCLE: Config := Config([CircleRepo("10.0.0"), CircleRepo("1x"), CircleRepo("9.0.0")], map[])

  const CIRCLE_OFFERS: seq<Option<Key>> := [Some(Key("10.0.0", 1)), Some(Key("1x", 1)), Some(Key("9.0.0", 1))]

  /** One package is installed, and it is one of those on offer. */
  ghost predicate IsCircling(db: seq<InstalledPackage>) {
    |db| == 1 && db[0].name == "p" && Some(KeyOf(db[0])) in CIRCLE_OFFERS
  }

  lemma OneOffer(version: string, rest: seq<Repo>)
    ensures Offers("p", [CircleRepo(version)] + rest) == [Some(Key(version, 1))] + Offers("p", rest)
  {
    assert ([CircleRepo(version)] + rest)[1..] == rest;
  }

  lemma CircleOffers()
    ensures Offers("p", CIRCLE.repos) == CIRCLE_OFFERS
  {
    var last: seq<Repo> := [];
    assert Offers("p", last) == [];
    hide Offers, CircleRepo;
    OneOffer("9.0.0", last);
    OneOffer("1x", [CircleRepo("9.0.0")] + last);
    OneOffer("10.0.0", [CircleRepo("1x")] + ([CircleRepo("9.0.0")] + last));
    assert CIRCLE.repos == [CircleRepo("10.0.0")] + ([CircleRepo("1x")] + ([CircleRepo("9.0.0")] + last));
  }

  lemma CircleGoesOn()
    ensures GoesOn(CIRCLE_OFFERS)
  {
    TenNineOneX();
    hide Newer, IsTwisted;
    TwistIsCycle("10.0.0", "1x", "9.0.0", 1);
    var offers := CIRCLE_OFFERS;
    assert offers[0] in offers && offers[1] in offers && offers[2] in offers;
    assert FirstNewer(offers, Key("10.0.0", 1)).Some?;
    assert FirstNewer(offers, Key("1x", 1)).Some?;
    assert FirstNewer(offers, Key("9.0.0", 1)).Some?;
  }

  /** Whichever is installed, the search finds one of the three that is newer, and it can be applied. */
  lemma CirclePlan(p: InstalledPackage)
    requires IsCircling([p])
    ensures FindNewer(p.name, p.version, p.release, CIRCLE.repos) != Ok(None)
    ensures |PlannedFor(p, CIRCLE.repos)| == 1
    ensures var u := PlannedFor(p, CIRCLE.repos)[0];
      u.entry.name == "p" && Some(EntryKey(u.entry)) in CIRCLE_OFFERS && CanApply(u)
  {
    hide FindNewer, Offers, FirstNewer, GoesOn, IsNewer;
    CircleOffers();
    CircleGoesOn();
    NextIsOffered(CIRCLE_OFFERS, KeyOf(p));
    FindsFirstNewer(p, CIRCLE.repos);
    var u := PlannedFor(p, CIRCLE.repos)[0];
    assert u.repo in CIRCLE.repos && u.entry == u.repo.index.entries["p"];
    assert u.repo == CIRCLE.repos[0] || u.repo == CIRCLE.repos[1] || u.repo == CIRCLE.repos[2];
  }

  /** So every round updates it, without a failure, to another of the three. */
  lemma CircleRound(w: World)
    requires IsCircling(w.db)
    ensures !IsUpToDate(w.db, CIRCLE.repos)
    ensures Updated(w, CIRCLE).failed == 0 && IsCircling(Updated(w, CIRCLE).world.db)
  {
    var p := w.db[0];
    assert w.db == [p] && p in w.db;
    CirclePlan(p);
    var u := PlannedFor(p, CIRCLE.repos)[0];
    assert Plan(w.db, CIRCLE.repos) == [u] by {
      assert w.db[1..] == [];
      assert PlannedFor(p, CIRCLE.repos) == [u];
    }
    hide PlannedFor, FindNewer, CanApply, UnpackAndRecord, Plan;
    SucceedsIfApplicable(w, u);
    CircleRecord(w, u);
    var o := UpdatedSingle(w, u);
    assert [u][1..] == [];
    assert UpdatedAll(w, 0, 0, [u]) == UpdateOutcome(o.world, 1, 0);
  }

  lemma CircleRecord(w: World, u: Planned)
    requires IsCircling(w.db) && u.repo.Opened? && UpdatedSingle(w, u).error.None?
    requires u.entry.name == "p" && Some(EntryKey(u.entry)) in CIRCLE_OFFERS
    ensures IsCircling(UpdatedSingle(w, u).world.db)
  {
    hide Unpack, FilesWithout;
    assert w.db[1..] == [] && Retained(w.db, "p") == [];
  }

  /**
   However often it is updated, and although no update ever fails, this system is never up to date. Its index
   entries are in order and none of its repositories is broken.
   */
  lemma {:induction false} NeverUpToDate(w: World, rounds: nat)
    requires IsCircling(w.db)
    ensures AreConsistent(CIRCLE) && Broken !in CIRCLE.repos
    ensures AllSucceed(w, CIRCLE, rounds) && !IsUpToDate(Rounds(w, CIRCLE, rounds).db, CIRCLE.repos)
    decreases rounds
  {
    CircleIsConsistent();
    hide IsCircling, Updated, IsUpToDate, AreConsistent;
    CircleRound(w);
    if rounds > 0 {
      NeverUpToDate(Updated(w, CIRCLE).world, rounds - 1);
    }
  }

  lemma CircleIsConsistent()
    ensures AreConsistent(CIRCLE) && Broken !in CIRCLE.repos
  {
    CircleRepoIsConsistent("10.0.0");
    CircleRepoIsConsistent("1x");
    CircleRepoIsConsistent("9.0.0");
    hide CircleRepo, RepositoryIndex.IsConsistent;
    forall repo | repo in CIRCLE.repos
      ensures repo == CircleRepo("10.0.0") || repo == CircleRepo("1x") || repo == CircleRepo("9.0.0")
    {
    }
  }

  lemma CircleRepoIsConsistent(version: string)
    ensures CircleRepo(version).Opened? && RepositoryIndex.IsConsistent(CircleRepo(version).index)
  {
  }
}
