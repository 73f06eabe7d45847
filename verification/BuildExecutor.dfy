/**
 The incremental build: phases in order, each skipped when its marker says it is done, markers kept on
 disk from one build to the next.

 What a build does to the disk is a list of events. A build that crashes has done the first few of them,
 so a history of builds, crashes included, is a history of prefixes.
 */
module BuildExecutor {
  import opened Wrappers
  import Text

  // ----- recipes -----

  datatype Phase = Prepare | Compile | Check | Install

  const PHASES: seq<Phase> := [Prepare, Compile, Check, Install]

  function Rank(p: Phase): (r: nat)
    ensures r < 4 && PHASES[r] == p
  {
    match p
    case Prepare => 0
    case Compile => 1
    case Check => 2
    case Install => 3
  }

  datatype Scripts = Scripts(
    prepare: Option<string>, compile: Option<string>, check: Option<string>, install: Option<string>)

  datatype Recipe = Recipe(build: Option<Scripts>)

  function ScriptOf(r: Recipe, p: Phase): Option<string> {
    match r.build
    case None => None
    case Some(s) =>
      match p
      case Prepare => s.prepare
      case Compile => s.compile
      case Check => s.check
      case Install => s.install
  }

  /** The phase has a script that is not blank. */
  predicate IsScripted(r: Recipe, p: Phase) {
    ScriptOf(r, p).Some? && Text.Trim(ScriptOf(r, p).value) != ""
  }

  /** A script counts exactly if it has a character that is not white space. */
  lemma ScriptedIsNotBlank(r: Recipe, p: Phase)
    ensures IsScripted(r, p) <==> ScriptOf(r, p).Some? && !Text.IsBlank(ScriptOf(r, p).value)
  {
    if ScriptOf(r, p).Some? {
      var script := ScriptOf(r, p).value;
      if Text.IsBlank(script) {
        Text.TrimBlank(script);
      } else {
        var i :| 0 <= i < |script| && !Text.IsWhitespace(script[i]);
        Text.TrimKeeps(script, i);
      }
    }
  }

  // ----- what may happen during a build -----

  /** `clean_markers` removes them all, or fails, or is killed, with some of them left. */
  datatype Cleaning = AllRemoved | SomeLeft(left: set<Phase>)

  /** What running a phase comes to; `marked` tells whether its marker could be written. */
  datatype ScriptRun = Succeeds(marked: bool) | Fails | Errors

  /**
   `ready`: the directories and the transcript could be opened. `packed`: the package could be written, or
   packing is switched off.
   */
  datatype Surroundings = Surroundings(cleaning: Cleaning, ready: bool, run: Phase -> ScriptRun, packed: bool)

  datatype Event =
    | Cleaned
    | PartlyCleaned(left: set<Phase>)
    | Ran(phase: Phase, success: bool)
    | Marked(phase: Phase)

  /** Phases reported as done, whether run or skipped, and how it ended. */
  datatype BuildResult =
    | BuildError
    | PhaseFailed(done: seq<Phase>)
    | PackFailed(done: seq<Phase>)
    | Success(done: seq<Phase>)

  predicate IsPhaseDone(clean: bool, markers: set<Phase>, p: Phase) {
    !clean && p in markers
  }

  /** What the phase loop does from its `i`-th round on, with `markers` as found after cleaning. */
  function PhaseEvents(r: Recipe, clean: bool, markers: set<Phase>, s: Surroundings, i: nat): seq<Event>
    requires i <= 4
    decreases 4 - i
  {
    if i == 4 then []
    else
      var p := PHASES[i];
      if !IsScripted(r, p) || IsPhaseDone(clean, markers, p) then PhaseEvents(r, clean, markers, s, i + 1)
      else
        var rest := if s.run(p).Succeeds? then PhaseEvents(r, clean, markers, s, i + 1) else [];
        RunEvents(p, s.run(p)) + rest
  }

  /** One phase: run it, and mark it if it succeeded. */
  function RunEvents(p: Phase, run: ScriptRun): seq<Event> {
    match run
    case Succeeds(marked) => if marked then [Ran(p, true), Marked(p)] else [Ran(p, true)]
    case Fails => [Ran(p, false)]
    case Errors => [Ran(p, false)]
  }

  function PhaseResults(r: Recipe, clean: bool, markers: set<Phase>, s: Surroundings, i: nat, done: seq<Phase>)
    : (result: BuildResult)
    requires i <= 4
    ensures !result.PackFailed?
    decreases 4 - i
  {
    if i == 4 then Success(done)
    else
      var p := PHASES[i];
      if !IsScripted(r, p) then PhaseResults(r, clean, markers, s, i + 1, done)
      else if IsPhaseDone(clean, markers, p) then PhaseResults(r, clean, markers, s, i + 1, done + [p])
      else match s.run(p)
        case Succeeds(_) => PhaseResults(r, clean, markers, s, i + 1, done + [p])
        case Fails => PhaseFailed(done)
        case Errors => BuildError
  }

  function CleanEvents(clean: bool, s: Surroundings): seq<Event> {
    if !clean then []
    else match s.cleaning
      case AllRemoved => [Cleaned]
      case SomeLeft(left) => [PartlyCleaned(left)]
  }

  function MarkersAfterCleaning(clean: bool, markers: set<Phase>, s: Surroundings): set<Phase> {
    if !clean then markers
    else match s.cleaning
      case AllRemoved => {}
      case SomeLeft(left) => markers * left
  }

  predicate CanBuild(r: Recipe, s: Surroundings) {
    s.ready && r.build.Some?
  }

  function BuildEvents(r: Recipe, clean: bool, markers: set<Phase>, s: Surroundings): seq<Event> {
    CleanEvents(clean, s) +
    if CanBuild(r, s) then PhaseEvents(r, clean, MarkersAfterCleaning(clean, markers, s), s, 0) else []
  }

  /** Phases that are all done are not yet a success: the package has to be written too. */
  function AfterPacking(result: BuildResult, s: Surroundings): BuildResult {
    if result.Success? && !s.packed then PackFailed(result.done) else result
  }

  function ResultOf(r: Recipe, clean: bool, markers: set<Phase>, s: Surroundings): BuildResult {
    if CanBuild(r, s)
    then AfterPacking(PhaseResults(r, clean, MarkersAfterCleaning(clean, markers, s), s, 0, []), s)
    else BuildError
  }

  // ----- the record of a build directory -----

  /** The markers on disk, and what happened since they were last all removed. */
  datatype Log = Log(markers: set<Phase>, since: seq<Event>)

  const FRESH: Log := Log({}, [])

  function Record(log: Log, e: Event): Log {
    match e
    case Cleaned => FRESH
    case PartlyCleaned(left) => Log(log.markers * left, log.since + [e])
    case Ran(_, _) => log.(since := log.since + [e])
    case Marked(p) => Log(log.markers + {p}, log.since + [e])
  }

  function RecordAll(log: Log, events: seq<Event>): Log
    decreases |events|
  {
    if events == [] then log else RecordAll(Record(log, events[0]), events[1..])
  }

  lemma {:induction false} RecordAppend(log: Log, a: seq<Event>, b: seq<Event>)
    ensures RecordAll(log, a + b) == RecordAll(RecordAll(log, a), b)
    decreases |a|
  {
    if a == [] {
      assert a + b == b;
    } else {
      assert (a + b)[1..] == a[1..] + b;
      RecordAppend(Record(log, a[0]), a[1..], b);
    }
  }

  lemma RecordNone(log: Log)
    ensures RecordAll(log, []) == log
  {
  }

  lemma RecordOne(log: Log, e: Event)
    ensures RecordAll(log, [e]) == Record(log, e)
  {
    assert RecordAll(Record(log, e), []) == Record(log, e);
  }

  lemma RecordTwo(log: Log, e: Event, f: Event)
    ensures RecordAll(log, [e, f]) == Record(Record(log, e), f)
  {
    assert [e, f][1..] == [f];
    RecordOne(Record(log, e), f);
  }

  // ----- the executor -----

  class BuildDirectory {
    const recipe: Recipe
    var markers: set<Phase>
    ghost var log: Log

    ghost predicate Valid()
      reads this
    {
      log.markers == markers
    }

    constructor (recipe: Recipe)
      ensures Valid() && log == FRESH && this.recipe == recipe
    {
      this.recipe := recipe;
      markers := {};
      log := FRESH;
    }

    method CleanMarkers(s: Surroundings)
      requires Valid()
      modifies this
      ensures Valid() && log == RecordAll(old(log), CleanEvents(true, s))
      ensures markers == MarkersAfterCleaning(true, old(markers), s)
    {
      match s.cleaning {
        case AllRemoved =>
          markers := {};
          log := Record(log, Cleaned);
        case SomeLeft(left) =>
          markers := markers * left;
          log := Record(log, PartlyCleaned(left));
      }
    }

    /** Run one phase, and write its marker if it succeeds. */
    method RunPhase(p: Phase, s: Surroundings) returns (run: ScriptRun)
      requires Valid()
      modifies this
      ensures Valid() && run == s.run(p)
      ensures log == RecordAll(old(log), RunEvents(p, run))
      ensures markers == if run == Succeeds(true) then old(markers) + {p} else old(markers)
    {
      run := s.run(p);
      log := Record(log, Ran(p, run.Succeeds?));
      if run == Succeeds(true) {
        markers := markers + {p};
        log := Record(log, Marked(p));
        RecordTwo(old(log), Ran(p, true), Marked(p));
      } else {
        RecordOne(old(log), Ran(p, run.Succeeds?));
      }
    }

    method Build(clean: bool, s: Surroundings) returns (r: BuildResult)
      requires Valid()
      modifies this
      ensures Valid()
      ensures log == RecordAll(old(log), BuildEvents(recipe, clean, old(markers), s))
      ensures r == ResultOf(recipe, clean, old(markers), s)
    {
      if clean {
        CleanMarkers(s);
      }
      ghost var cleaned := CleanEvents(clean, s);
      if !s.ready || recipe.build.None? {
        assert cleaned + [] == cleaned;
        return BuildError;
      }
      RecordAppend(old(log), cleaned, PhaseEvents(recipe, clean, markers, s, 0));
      r := RunPhases(clean, s);
      if r.Success? && !s.packed {
        r := PackFailed(r.done);
      }
    }

    /** The phase loop. */
    method RunPhases(clean: bool, s: Surroundings) returns (r: BuildResult)
      requires Valid()
      modifies this
      ensures Valid()
      ensures log == RecordAll(old(log), PhaseEvents(recipe, clean, old(markers), s, 0))
      ensures r == PhaseResults(recipe, clean, old(markers), s, 0, [])
    {
      hide IsScripted, RunEvents, Record, RecordAll;
      ghost var all := PhaseEvents(recipe, clean, markers, s, 0);
      ghost var happened: seq<Event> := [];
      assert [] + all == all;
      RecordNone(log);
      var done := [];
      for i := 0 to 4
        invariant Valid()
        invariant forall k :: i <= k < 4 ==> (PHASES[k] in markers <==> PHASES[k] in old(markers))
        invariant all == happened + PhaseEvents(recipe, clean, old(markers), s, i)
        invariant log == RecordAll(old(log), happened)
        invariant PhaseResults(recipe, clean, old(markers), s, i, done) ==
                  PhaseResults(recipe, clean, old(markers), s, 0, [])
      {
        var p := PHASES[i];
        if !IsScripted(recipe, p) {
          continue;
        }
        if IsPhaseDone(clean, markers, p) {
          done := done + [p];
          continue;
        }
        var run := RunPhase(p, s);
        RecordAppend(old(log), happened, RunEvents(p, run));
        ghost var rest := if run.Succeeds? then PhaseEvents(recipe, clean, old(markers), s, i + 1) else [];
        assert happened + (RunEvents(p, run) + rest) == happened + RunEvents(p, run) + rest;
        happened := happened + RunEvents(p, run);
        match run {
          case Errors =>
            assert all == happened;
            return BuildError;
          case Fails =>
            assert all == happened;
            return PhaseFailed(done);
          case Succeeds(_) => done := done + [p];
        }
      }
      assert happened + [] == happened;
      r := Success(done);
    }
  }

  // ----- histories -----

  /** A build that is started and dies after `survived` events, if it has that many. */
  datatype Attempt = Attempt(clean: bool, s: Surroundings, survived: nat)

  predicate IsCut(r: Recipe, log: Log, a: Attempt) {
    a.survived < |BuildEvents(r, a.clean, log.markers, a.s)|
  }

  function AttemptEvents(r: Recipe, log: Log, a: Attempt): seq<Event> {
    var events := BuildEvents(r, a.clean, log.markers, a.s);
    if IsCut(r, log, a) then events[..a.survived] else events
  }

  /** `logs[i + 1]` is the record after the `i`-th attempt. */
  ghost predicate IsHistory(r: Recipe, logs: seq<Log>, attempts: seq<Attempt>) {
    && |logs| == |attempts| + 1
    && logs[0] == FRESH
    && forall i {:trigger attempts[i]} :: 0 <= i < |attempts| ==>
         logs[i + 1] == RecordAll(logs[i], AttemptEvents(r, logs[i], attempts[i]))
  }

  // ----- no phase runs too early -----

  predicate HasSucceeded(since: seq<Event>, p: Phase) {
    Ran(p, true) in since
  }

  /** Every script was run after all earlier scripted phases had succeeded. */
  ghost predicate InOrder(r: Recipe, since: seq<Event>) {
    forall i :: 0 <= i < |since| && since[i].Ran? ==> ReadyAt(r, since[..i], since[i].phase)
  }

  /** All scripted phases before `p` have succeeded. */
  ghost predicate ReadyAt(r: Recipe, since: seq<Event>, p: Phase) {
    forall q :: IsScripted(r, q) && Rank(q) < Rank(p) ==> HasSucceeded(since, q)
  }

  /** The markers are those of the first few scripted phases. */
  ghost predicate IsPrefix(r: Recipe, markers: set<Phase>) {
    forall p :: p in markers ==> IsNextAfter(r, markers, p)
  }

  /** `p` is scripted, and all scripted phases before it are marked. */
  ghost predicate IsNextAfter(r: Recipe, markers: set<Phase>, p: Phase) {
    IsScripted(r, p) && forall q :: IsScripted(r, q) && Rank(q) < Rank(p) ==> q in markers
  }

  /** Markers tell the truth, and without faults they form a prefix. */
  ghost predicate IsSound(r: Recipe, log: Log, faultless: bool) {
    && InOrder(r, log.since)
    && (forall p :: p in log.markers ==> HasSucceeded(log.since, p))
    && (faultless ==> IsPrefix(r, log.markers))
  }

  /** What has to be true when an event happens. */
  ghost predicate IsJustified(r: Recipe, log: Log, e: Event, faultless: bool) {
    match e
    case Cleaned => true
    case PartlyCleaned(_) => !faultless
    case Ran(p, _) => ReadyAt(r, log.since, p)
    case Marked(p) => HasSucceeded(log.since, p) && (faultless ==> IsNextAfter(r, log.markers, p))
  }

  lemma RecordKeepsSound(r: Recipe, log: Log, e: Event, faultless: bool)
    requires IsSound(r, log, faultless) && IsJustified(r, log, e, faultless)
    ensures IsSound(r, Record(log, e), faultless)
  {
    hide IsScripted;
    var log' := Record(log, e);
    if !e.Cleaned? {
      forall i | 0 <= i < |log'.since| && log'.since[i].Ran?
        ensures ReadyAt(r, log'.since[..i], log'.since[i].phase)
      {
        assert log'.since[..i] == log.since[..i];
        assert log.since[..|log.since|] == log.since;
      }
    }
  }

  ghost predicate AreJustified(r: Recipe, log: Log, events: seq<Event>, faultless: bool)
    decreases |events|
  {
    events == [] ||
    (IsJustified(r, log, events[0], faultless) && AreJustified(r, Record(log, events[0]), events[1..], faultless))
  }

  lemma JustifiedCons(r: Recipe, log: Log, e: Event, events: seq<Event>, faultless: bool)
    requires IsJustified(r, log, e, faultless) && AreJustified(r, Record(log, e), events, faultless)
    ensures AreJustified(r, log, [e] + events, faultless)
  {
    assert ([e] + events)[1..] == events;
  }

  /** However many of its events a build gets to, the record stays sound. */
  lemma {:induction false} JustifiedSound(r: Recipe, log: Log, events: seq<Event>, n: nat, faultless: bool)
    requires IsSound(r, log, faultless) && AreJustified(r, log, events, faultless) && n <= |events|
    ensures IsSound(r, RecordAll(log, events[..n]), faultless)
    decreases n
  {
    hide IsSound, IsJustified, Record;
    if n > 0 {
      RecordKeepsSound(r, log, events[0], faultless);
      assert events[..n][1..] == events[1..][..n - 1];
      JustifiedSound(r, Record(log, events[0]), events[1..], n - 1, faultless);
    }
  }

  /** Cleaning is complete, and every marker that is due can be written. */
  ghost predicate IsFaultless(s: Surroundings) {
    s.cleaning == AllRemoved && forall p :: s.run(p) != Succeeds(false)
  }

  /** What the phase loop can rely on at its `i`-th round. */
  ghost predicate AtRound(r: Recipe, log: Log, clean: bool, markers: set<Phase>, i: nat, faultless: bool) {
    && (forall p :: IsPhaseDone(clean, markers, p) ==> p in log.markers && HasSucceeded(log.since, p))
    && (forall q :: IsScripted(r, q) && Rank(q) < i ==>
          HasSucceeded(log.since, q) && (faultless ==> q in log.markers))
  }

  /** A phase that is due may run; when it has succeeded, its marker may be written and the next is due. */
  lemma NextRound(r: Recipe, log: Log, clean: bool, markers: set<Phase>, i: nat, run: ScriptRun, faultless: bool)
    requires i < 4 && AtRound(r, log, clean, markers, i, faultless) && IsScripted(r, PHASES[i])
    requires faultless ==> run != Succeeds(false)
    ensures var p := PHASES[i];
      var log1 := Record(log, Ran(p, run.Succeeds?));
      && IsJustified(r, log, Ran(p, run.Succeeds?), faultless)
      && (run == Succeeds(false) ==> AtRound(r, log1, clean, markers, i + 1, faultless))
      && (run == Succeeds(true) ==>
            && IsJustified(r, log1, Marked(p), faultless)
            && AtRound(r, Record(log1, Marked(p)), clean, markers, i + 1, faultless))
  {
    hide IsScripted;
    var p := PHASES[i];
    var log1 := Record(log, Ran(p, run.Succeeds?));
    assert log1.since[|log.since|] == Ran(p, run.Succeeds?);
    assert forall q :: Rank(q) < i + 1 <==> q == p || Rank(q) < i;
  }

  lemma {:induction false} PhasesJustified(r: Recipe, log: Log, clean: bool, markers: set<Phase>, s: Surroundings,
                                           i: nat, faultless: bool)
    requires i <= 4 && (faultless ==> IsFaultless(s))
    requires AtRound(r, log, clean, markers, i, faultless)
    ensures AreJustified(r, log, PhaseEvents(r, clean, markers, s, i), faultless)
    decreases 4 - i
  {
    hide IsScripted, IsJustified, HasSucceeded;
    if i < 4 {
      var p, run := PHASES[i], s.run(PHASES[i]);
      if !IsScripted(r, p) || IsPhaseDone(clean, markers, p) {
        assert forall q :: Rank(q) < i + 1 ==> q == p || Rank(q) < i;
        PhasesJustified(r, log, clean, markers, s, i + 1, faultless);
      } else {
        var rest := if run.Succeeds? then PhaseEvents(r, clean, markers, s, i + 1) else [];
        NextRound(r, log, clean, markers, i, run, faultless);
        RunJustified(r, log, clean, markers, s, i, rest, faultless);
      }
    }
  }

  lemma RunJustified(r: Recipe, log: Log, clean: bool, markers: set<Phase>, s: Surroundings, i: nat,
                     rest: seq<Event>, faultless: bool)
    requires i < 4 && (faultless ==> IsFaultless(s))
    requires IsJustified(r, log, Ran(PHASES[i], s.run(PHASES[i]).Succeeds?), faultless)
    requires var p, run := PHASES[i], s.run(PHASES[i]);
      var log1 := Record(log, Ran(p, run.Succeeds?));
      && rest == (if run.Succeeds? then PhaseEvents(r, clean, markers, s, i + 1) else [])
      && (run == Succeeds(false) ==> AtRound(r, log1, clean, markers, i + 1, faultless))
      && (run == Succeeds(true) ==>
            && IsJustified(r, log1, Marked(p), faultless)
            && AtRound(r, Record(log1, Marked(p)), clean, markers, i + 1, faultless))
    ensures AreJustified(r, log, RunEvents(PHASES[i], s.run(PHASES[i])) + rest, faultless)
    decreases 4 - i, 0
  {
    hide IsScripted, IsJustified, AtRound, PhaseEvents;
    var p, run := PHASES[i], s.run(PHASES[i]);
    var log1 := Record(log, Ran(p, run.Succeeds?));
    if run == Succeeds(true) {
      PhasesJustified(r, Record(log1, Marked(p)), clean, markers, s, i + 1, faultless);
      JustifiedCons(r, log1, Marked(p), rest, faultless);
      JustifiedCons(r, log, Ran(p, true), [Marked(p)] + rest, faultless);
      assert RunEvents(p, run) + rest == [Ran(p, true)] + ([Marked(p)] + rest);
    } else {
      if run.Succeeds? {
        PhasesJustified(r, log1, clean, markers, s, i + 1, faultless);
      }
      JustifiedCons(r, log, Ran(p, run.Succeeds?), rest, faultless);
    }
  }

  lemma BuildJustified(r: Recipe, log: Log, clean: bool, s: Surroundings, faultless: bool)
    requires IsSound(r, log, faultless) && (faultless ==> IsFaultless(s))
    ensures AreJustified(r, log, BuildEvents(r, clean, log.markers, s), faultless)
  {
    hide IsScripted;
    var found := MarkersAfterCleaning(clean, log.markers, s);
    var phases := if CanBuild(r, s) then PhaseEvents(r, clean, found, s, 0) else [];
    var cleaned := CleanEvents(clean, s);
    if clean {
      if CanBuild(r, s) {
        PhasesJustified(r, Record(log, cleaned[0]), clean, found, s, 0, faultless);
      }
      JustifiedCons(r, log, cleaned[0], phases, faultless);
      assert cleaned == [cleaned[0]];
    } else {
      if CanBuild(r, s) {
        PhasesJustified(r, log, clean, found, s, 0, faultless);
      }
      assert cleaned + phases == phases;
    }
  }

  lemma AttemptSound(r: Recipe, log: Log, a: Attempt, faultless: bool)
    requires IsSound(r, log, faultless) && (faultless ==> IsFaultless(a.s))
    ensures IsSound(r, RecordAll(log, AttemptEvents(r, log, a)), faultless)
  {
    hide IsScripted, IsSound, BuildEvents, AreJustified, IsFaultless, RecordAll;
    var events := BuildEvents(r, a.clean, log.markers, a.s);
    BuildJustified(r, log, a.clean, a.s, faultless);
    JustifiedSound(r, log, events, if IsCut(r, log, a) then a.survived else |events|, faultless);
    assert events[..|events|] == events;
  }

  lemma FreshIsSound(r: Recipe, faultless: bool)
    ensures IsSound(r, FRESH, faultless)
  {
    hide IsScripted;
  }

  lemma {:induction false} HistorySound(r: Recipe, logs: seq<Log>, attempts: seq<Attempt>, i: nat, faultless: bool)
    requires IsHistory(r, logs, attempts) && i < |logs|
    requires faultless ==> forall k :: 0 <= k < i ==> IsFaultless(attempts[k].s)
    ensures IsSound(r, logs[i], faultless)
  {
    hide IsSound, AttemptEvents, RecordAll, IsFaultless;
    if i == 0 {
      FreshIsSound(r, faultless);
    } else {
      HistorySound(r, logs, attempts, i - 1, faultless);
      AttemptSound(r, logs[i - 1], attempts[i - 1], faultless);
    }
  }

  /**
   Whatever failed or crashed, including half-done cleaning and markers that could not be written: since
   the markers were last all removed, no script ran before every earlier scripted phase had succeeded,
   and no marker stands for a phase that has not.
   */
  lemma NoScriptRunsEarly(r: Recipe, logs: seq<Log>, attempts: seq<Attempt>, i: nat)
    requires IsHistory(r, logs, attempts) && i < |logs|
    ensures InOrder(r, logs[i].since)
    ensures forall p :: p in logs[i].markers ==> HasSucceeded(logs[i].since, p)
  {
    HistorySound(r, logs, attempts, i, false);
  }

  /** With crashes, but with cleaning complete and markers written, the markers are always a prefix. */
  lemma MarkersArePrefix(r: Recipe, logs: seq<Log>, attempts: seq<Attempt>, i: nat)
    requires IsHistory(r, logs, attempts) && i < |logs|
    requires forall k :: 0 <= k < i ==> IsFaultless(attempts[k].s)
    ensures IsPrefix(r, logs[i].markers)
  {
    HistorySound(r, logs, attempts, i, true);
  }

  // ----- no phase succeeds twice -----

  ghost predicate AtMostOnce(since: seq<Event>) {
    forall i, j :: 0 <= i < j < |since| && since[i].Ran? && since[i].success ==> since[i] != since[j]
  }

  /** Between builds that ran to their end, success and marker go together. */
  ghost predicate IsSettled(log: Log) {
    AtMostOnce(log.since) && forall p :: HasSucceeded(log.since, p) ==> p in log.markers
  }

  /** A first success of a phase, with its marker, keeps the record settled. */
  lemma RunOnce(log: Log, p: Phase, run: ScriptRun)
    requires IsSettled(log) && !HasSucceeded(log.since, p) && run != Succeeds(false)
    ensures var log' := RecordAll(log, RunEvents(p, run));
      IsSettled(log') && forall q :: q != p && HasSucceeded(log'.since, q) ==> HasSucceeded(log.since, q)
  {
    if run.Succeeds? {
      RecordTwo(log, Ran(p, true), Marked(p));
      assert RecordAll(log, RunEvents(p, run)).since == log.since + [Ran(p, true), Marked(p)];
    } else {
      RecordOne(log, Ran(p, false));
      assert RecordAll(log, RunEvents(p, run)).since == log.since + [Ran(p, false)];
    }
  }

  lemma {:induction false} PhasesOnce(r: Recipe, log: Log, clean: bool, markers: set<Phase>, s: Surroundings, i: nat)
    requires i <= 4 && IsFaultless(s) && IsSettled(log)
    requires forall p :: Rank(p) >= i && !IsPhaseDone(clean, markers, p) ==> !HasSucceeded(log.since, p)
    ensures IsSettled(RecordAll(log, PhaseEvents(r, clean, markers, s, i)))
    decreases 4 - i
  {
    hide IsScripted, IsSettled, RunEvents, HasSucceeded;
    if i < 4 {
      var p := PHASES[i];
      if !IsScripted(r, p) || IsPhaseDone(clean, markers, p) {
        PhasesOnce(r, log, clean, markers, s, i + 1);
      } else {
        var rest := if s.run(p).Succeeds? then PhaseEvents(r, clean, markers, s, i + 1) else [];
        RecordAppend(log, RunEvents(p, s.run(p)), rest);
        RunOnce(log, p, s.run(p));
        if s.run(p).Succeeds? {
          PhasesOnce(r, RecordAll(log, RunEvents(p, s.run(p))), clean, markers, s, i + 1);
        }
      }
    }
  }

  lemma BuildOnce(r: Recipe, log: Log, clean: bool, s: Surroundings)
    requires IsFaultless(s) && IsSettled(log)
    ensures IsSettled(RecordAll(log, BuildEvents(r, clean, log.markers, s)))
  {
    hide IsScripted;
    var found := MarkersAfterCleaning(clean, log.markers, s);
    var phases := if CanBuild(r, s) then PhaseEvents(r, clean, found, s, 0) else [];
    RecordAppend(log, CleanEvents(clean, s), phases);
    if clean {
      RecordOne(log, Cleaned);
    }
    if CanBuild(r, s) {
      PhasesOnce(r, if clean then FRESH else log, clean, found, s, 0);
    }
  }

  /** Without faults and crashes, a phase succeeds at most once between removals of the markers. */
  lemma {:induction false} PhasesSucceedOnce(r: Recipe, logs: seq<Log>, attempts: seq<Attempt>, i: nat)
    requires IsHistory(r, logs, attempts) && i < |logs|
    requires forall k :: 0 <= k < i ==> IsFaultless(attempts[k].s) && !IsCut(r, logs[k], attempts[k])
    ensures IsSettled(logs[i])
  {
    hide IsSettled, AttemptEvents, RecordAll, IsFaultless, IsCut;
    if i == 0 {
      FreshIsSettled();
    } else {
      PhasesSucceedOnce(r, logs, attempts, i - 1);
      AttemptSettled(r, logs[i - 1], attempts[i - 1]);
    }
  }

  lemma FreshIsSettled()
    ensures IsSettled(FRESH)
  {
  }

  lemma AttemptSettled(r: Recipe, log: Log, a: Attempt)
    requires IsSettled(log) && IsFaultless(a.s) && !IsCut(r, log, a)
    ensures IsSettled(RecordAll(log, AttemptEvents(r, log, a)))
  {
    hide IsScripted, IsSettled, BuildEvents, RecordAll, IsFaultless;
    BuildOnce(r, log, a.clean, a.s);
  }

  // ----- completion -----

  /** `is_build_complete`. */
  ghost predicate IsBuildComplete(r: Recipe, clean: bool, markers: set<Phase>) {
    !clean && r.build.Some? && forall p :: IsScripted(r, p) ==> IsPhaseDone(clean, markers, p)
  }

  function ScriptedFrom(r: Recipe, i: nat): seq<Phase>
    requires i <= 4
    decreases 4 - i
  {
    if i == 4 then []
    else (if IsScripted(r, PHASES[i]) then [PHASES[i]] else []) + ScriptedFrom(r, i + 1)
  }

  lemma {:induction false} IdlePhases(r: Recipe, markers: set<Phase>, s: Surroundings, i: nat)
    requires i <= 4
    ensures PhaseEvents(r, false, markers, s, i) == [] <==>
              forall p :: IsScripted(r, p) && Rank(p) >= i ==> p in markers
    decreases 4 - i
  {
    hide IsScripted;
    if i < 4 {
      IdlePhases(r, markers, s, i + 1);
      assert forall p :: Rank(p) >= i <==> p == PHASES[i] || Rank(p) >= i + 1;
    }
  }

  /** A further build finds nothing to run exactly when the build is complete. */
  lemma CompleteIsIdle(r: Recipe, markers: set<Phase>, s: Surroundings)
    requires CanBuild(r, s)
    ensures IsBuildComplete(r, false, markers) <==> BuildEvents(r, false, markers, s) == []
  {
    hide IsScripted;
    IdlePhases(r, markers, s, 0);
  }

  /** A build that gets through reports every scripted phase, one that fails those before the failure. */
  lemma {:induction false} ReportedPhases(r: Recipe, clean: bool, markers: set<Phase>, s: Surroundings, i: nat,
                                          done: seq<Phase>)
    requires i <= 4
    ensures var result := PhaseResults(r, clean, markers, s, i, done);
      && (result.Success? ==> result.done == done + ScriptedFrom(r, i))
      && (result.PhaseFailed? ==> done <= result.done < done + ScriptedFrom(r, i))
    decreases 4 - i
  {
    hide IsScripted, IsPhaseDone;
    if i == 4 {
      assert done + [] == done;
    } else {
      var p := PHASES[i];
      assert done + ([p] + ScriptedFrom(r, i + 1)) == done + [p] + ScriptedFrom(r, i + 1);
      if IsScripted(r, p) {
        ReportedPhases(r, clean, markers, s, i + 1, done + [p]);
      } else {
        assert [] + ScriptedFrom(r, i + 1) == ScriptedFrom(r, i + 1);
        ReportedPhases(r, clean, markers, s, i + 1, done);
      }
    }
  }

  /** A build that gets through leaves every scripted phase marked. */
  lemma {:induction false} DonePhases(r: Recipe, log: Log, clean: bool, markers: set<Phase>, s: Surroundings,
                                      i: nat, done: seq<Phase>)
    requires i <= 4 && IsFaultless(s) && PhaseResults(r, clean, markers, s, i, done).Success?
    requires forall p :: IsPhaseDone(clean, markers, p) ==> p in log.markers
    requires forall p :: IsScripted(r, p) && Rank(p) < i ==> p in log.markers
    ensures forall p :: IsScripted(r, p) ==> p in RecordAll(log, PhaseEvents(r, clean, markers, s, i)).markers
    decreases 4 - i
  {
    hide IsScripted;
    if i < 4 {
      var p := PHASES[i];
      assert forall q :: Rank(q) < i + 1 ==> q == p || Rank(q) < i;
      if !IsScripted(r, p) {
        DonePhases(r, log, clean, markers, s, i + 1, done);
      } else if IsPhaseDone(clean, markers, p) {
        DonePhases(r, log, clean, markers, s, i + 1, done + [p]);
      } else {
        RecordAppend(log, RunEvents(p, s.run(p)), PhaseEvents(r, clean, markers, s, i + 1));
        RecordTwo(log, Ran(p, true), Marked(p));
        DonePhases(r, Record(Record(log, Ran(p, true)), Marked(p)), clean, markers, s, i + 1, done + [p]);
      }
    }
  }

  /**
   A build that gets through its phases reports every scripted one in order and leaves the build complete. It
   is a success exactly if the package was written too; if not, a further build has nothing to run but packs
   again.
   */
  lemma SuccessCompletes(r: Recipe, log: Log, clean: bool, s: Surroundings)
    requires IsFaultless(s)
    requires var result := ResultOf(r, clean, log.markers, s); result.Success? || result.PackFailed?
    ensures ResultOf(r, clean, log.markers, s).done == ScriptedFrom(r, 0)
    ensures ResultOf(r, clean, log.markers, s).Success? <==> s.packed
    ensures IsBuildComplete(r, false, RecordAll(log, BuildEvents(r, clean, log.markers, s)).markers)
  {
    hide IsScripted, ScriptedFrom, PhaseEvents, PhaseResults;
    var found := MarkersAfterCleaning(clean, log.markers, s);
    RecordAppend(log, CleanEvents(clean, s), PhaseEvents(r, clean, found, s, 0));
    if clean {
      RecordOne(log, Cleaned);
    }
    DonePhases(r, if clean then FRESH else log, clean, found, s, 0, []);
    ReportedPhases(r, clean, found, s, 0, []);
    assert [] + ScriptedFrom(r, 0) == ScriptedFrom(r, 0);
  }

  // ----- what a build answers -----

  /** The phase has a script, and it is not taken to be done already. */
  predicate IsDue(r: Recipe, clean: bool, markers: set<Phase>, p: Phase) {
    IsScripted(r, p) && (clean || p !in markers)
  }

  /** The phase is due, and from the `i`-th on every one before it that is due succeeds. */
  ghost predicate IsReached(r: Recipe, clean: bool, markers: set<Phase>, s: Surroundings, i: nat, p: Phase) {
    && Rank(p) >= i && IsDue(r, clean, markers, p)
    && forall q :: i <= Rank(q) < Rank(p) && IsDue(r, clean, markers, q) ==> s.run(q).Succeeds?
  }

  /** The first phase that is due and does not succeed. */
  ghost predicate IsFirstTrouble(r: Recipe, clean: bool, markers: set<Phase>, s: Surroundings, i: nat, p: Phase) {
    IsReached(r, clean, markers, s, i, p) && !s.run(p).Succeeds?
  }

  /** Whatever is due succeeds. */
  ghost predicate IsClear(r: Recipe, clean: bool, markers: set<Phase>, s: Surroundings, i: nat) {
    forall p :: Rank(p) >= i && IsDue(r, clean, markers, p) ==> s.run(p).Succeeds?
  }

  /** Exactly the scripted phases of a range of ranks, each once and in order. */
  ghost predicate AreScripted(r: Recipe, done: seq<Phase>, from: nat, below: nat) {
    && (forall p :: p in done <==> IsScripted(r, p) && from <= Rank(p) < below)
    && forall i, j :: 0 <= i < j < |done| ==> Rank(done[i]) < Rank(done[j])
  }

  lemma ScriptedCons(r: Recipe, i: nat, rest: seq<Phase>, below: nat)
    requires i < 4 && i < below && AreScripted(r, rest, i + 1, below)
    ensures AreScripted(r, (if IsScripted(r, PHASES[i]) then [PHASES[i]] else []) + rest, i, below)
  {
    hide IsScripted;
    var done := (if IsScripted(r, PHASES[i]) then [PHASES[i]] else []) + rest;
    assert forall p :: Rank(p) == i <==> p == PHASES[i];
    assert forall p :: p in done <==> (IsScripted(r, p) && p == PHASES[i]) || p in rest;
    forall j, k | 0 <= j < k < |done|
      ensures Rank(done[j]) < Rank(done[k])
    {
      assert done[k] in rest;
    }
  }

  lemma NoneScripted(r: Recipe, i: nat)
    ensures AreScripted(r, [], i, i)
  {
  }

  lemma NextReached(r: Recipe, clean: bool, markers: set<Phase>, s: Surroundings, i: nat, p: Phase)
    requires i < 4
    ensures IsReached(r, clean, markers, s, i, p) <==>
              if p == PHASES[i] then IsDue(r, clean, markers, p)
              else (IsDue(r, clean, markers, PHASES[i]) ==> s.run(PHASES[i]).Succeeds?)
                   && IsReached(r, clean, markers, s, i + 1, p)
  {
    hide IsDue;
    assert forall q :: Rank(q) == i <==> q == PHASES[i];
  }

  lemma ReachedOnce(r: Recipe, clean: bool, markers: set<Phase>, s: Surroundings, i: nat, p: Phase, q: Phase)
    requires IsFirstTrouble(r, clean, markers, s, i, p) && IsFirstTrouble(r, clean, markers, s, i, q)
    ensures p == q
  {
    assert PHASES[Rank(p)] == p && PHASES[Rank(q)] == q;
  }

  lemma NextClear(r: Recipe, clean: bool, markers: set<Phase>, s: Surroundings, i: nat)
    requires i < 4 && (IsDue(r, clean, markers, PHASES[i]) ==> s.run(PHASES[i]).Succeeds?)
    requires IsClear(r, clean, markers, s, i + 1)
    ensures IsClear(r, clean, markers, s, i)
  {
    hide IsDue;
    assert forall q :: Rank(q) == i <==> q == PHASES[i];
  }

  /** The answer of the phase loop from its `i`-th round on: `more` comes to the phases done before `trouble`. */
  lemma {:induction false} PhasesAnswer(r: Recipe, clean: bool, markers: set<Phase>, s: Surroundings, i: nat,
                                        done: seq<Phase>)
    returns (more: seq<Phase>, trouble: Option<Phase>)
    requires i <= 4
    ensures AreScripted(r, more, i, if trouble.Some? then Rank(trouble.value) else 4)
    ensures trouble.None? ==> IsClear(r, clean, markers, s, i)
    ensures trouble.Some? ==> IsFirstTrouble(r, clean, markers, s, i, trouble.value)
    ensures PhaseResults(r, clean, MarkersAfterCleaning(clean, markers, s), s, i, done) ==
              if trouble.None? then Success(done + more)
              else if s.run(trouble.value).Errors? then BuildError
              else PhaseFailed(done + more)
    decreases 4 - i
  {
    hide IsScripted, AreScripted;
    if i == 4 {
      more, trouble := [], None;
      assert done + more == done;
      NoneScripted(r, 4);
    } else {
      var p := PHASES[i];
      if IsDue(r, clean, markers, p) && !s.run(p).Succeeds? {
        more, trouble := [], Some(p);
        assert done + more == done;
        NoneScripted(r, i);
        NextReached(r, clean, markers, s, i, p);
      } else {
        var own := if IsScripted(r, p) then [p] else [];
        assert done + [] == done;
        more, trouble := PhasesAnswer(r, clean, markers, s, i + 1, done + own);
        assert done + own + more == done + (own + more);
        hide PhaseResults, IsDue;
        if trouble.None? {
          NextClear(r, clean, markers, s, i);
        } else {
          NextReached(r, clean, markers, s, i, trouble.value);
        }
        ScriptedCons(r, i, more, if trouble.Some? then Rank(trouble.value) else 4);
        more := own + more;
      }
    }
  }

  /**
   What a build answers, by the first phase that is due and does not succeed. There is an error if the build
   cannot start or that phase cannot be run to an end; the phase is reported as failed, with exactly the
   scripted phases before it, if its script fails; and without such a phase all scripted phases are reported.
   */
  lemma BuildAnswers(r: Recipe, clean: bool, markers: set<Phase>, s: Surroundings)
    ensures var result := ResultOf(r, clean, markers, s);
      && (result.BuildError? <==>
            !CanBuild(r, s) || exists p :: IsFirstTrouble(r, clean, markers, s, 0, p) && s.run(p).Errors?)
      && (result.PhaseFailed? <==>
            CanBuild(r, s) && exists p :: IsFirstTrouble(r, clean, markers, s, 0, p) && s.run(p).Fails?)
      && (result.PhaseFailed? ==>
            forall p :: IsFirstTrouble(r, clean, markers, s, 0, p) ==> AreScripted(r, result.done, 0, Rank(p)))
      && (result.Success? || result.PackFailed? <==> CanBuild(r, s) && IsClear(r, clean, markers, s, 0))
      && (result.Success? || result.PackFailed? ==>
            AreScripted(r, result.done, 0, 4) && (result.Success? <==> s.packed))
  {
    hide IsDue, AreScripted, PhaseResults;
    var more, trouble := PhasesAnswer(r, clean, markers, s, 0, []);
    assert [] + more == more;
    forall p, q | IsFirstTrouble(r, clean, markers, s, 0, p) && IsFirstTrouble(r, clean, markers, s, 0, q)
      ensures p == q
    {
      ReachedOnce(r, clean, markers, s, 0, p, q);
    }
    assert trouble.Some? ==> !IsClear(r, clean, markers, s, 0);
    assert trouble.None? ==> forall p :: !IsFirstTrouble(r, clean, markers, s, 0, p);
    hide IsFirstTrouble, IsClear;
  }

  /** Where an event of the phase loop comes in it: phases by rank, a marker after its run. */
  function Place(e: Event): nat {
    match e
    case Ran(p, _) => 2 * Rank(p)
    case Marked(p) => 2 * Rank(p) + 1
    case _ => 0
  }

  /** All that a phase loop can bring about: runs of phases that are due, and their markers. */
  ghost predicate Happens(r: Recipe, clean: bool, markers: set<Phase>, s: Surroundings, i: nat, e: Event) {
    match e
    case Ran(p, success) => IsReached(r, clean, markers, s, i, p) && (success <==> s.run(p).Succeeds?)
    case Marked(p) => IsReached(r, clean, markers, s, i, p) && s.run(p) == Succeeds(true)
    case _ => false
  }

  ghost predicate InPlace(events: seq<Event>) {
    forall j, k :: 0 <= j < k < |events| ==> Place(events[j]) < Place(events[k])
  }

  lemma RunInPlace(p: Phase, run: ScriptRun)
    ensures InPlace(RunEvents(p, run))
  {
  }

  lemma InPlaceThen(a: seq<Event>, b: seq<Event>, i: nat)
    requires InPlace(a) && InPlace(b)
    requires forall e :: e in a ==> Place(e) < 2 * i
    requires forall e :: e in b ==> Place(e) >= 2 * i
    ensures InPlace(a + b)
  {
    hide Place;
  }

  lemma InPlaceNone()
    ensures InPlace([])
  {
  }

  lemma NextHappens(r: Recipe, clean: bool, markers: set<Phase>, s: Surroundings, i: nat, e: Event)
    requires i < 4
    ensures var p := PHASES[i];
      var due := IsDue(r, clean, markers, p);
      Happens(r, clean, markers, s, i, e) <==>
        (due && e in RunEvents(p, s.run(p)))
        || ((due ==> s.run(p).Succeeds?) && Happens(r, clean, markers, s, i + 1, e))
    ensures IsDue(r, clean, markers, PHASES[i]) && e in RunEvents(PHASES[i], s.run(PHASES[i])) ==>
              2 * i <= Place(e) < 2 * (i + 1)
    ensures Happens(r, clean, markers, s, i + 1, e) ==> Place(e) >= 2 * (i + 1)
  {
    hide IsDue;
    if e.Ran? || e.Marked? {
      NextReached(r, clean, markers, s, i, e.phase);
    }
  }

  lemma {:induction false} PhasesHappen(r: Recipe, clean: bool, markers: set<Phase>, s: Surroundings, i: nat)
    requires i <= 4
    ensures var events := PhaseEvents(r, clean, MarkersAfterCleaning(clean, markers, s), s, i);
      InPlace(events) && forall e :: e in events <==> Happens(r, clean, markers, s, i, e)
    decreases 4 - i
  {
    hide IsScripted, RunEvents, InPlace, Happens;
    InPlaceNone();
    var found := MarkersAfterCleaning(clean, markers, s);
    if i == 4 {
      NothingHappens(r, clean, markers, s);
    } else {
      var p := PHASES[i];
      var due := IsDue(r, clean, markers, p);
      assert due <==> IsScripted(r, p) && !IsPhaseDone(clean, found, p);
      PhasesHappen(r, clean, markers, s, i + 1);
      var first := if due then RunEvents(p, s.run(p)) else [];
      var rest := if due ==> s.run(p).Succeeds? then PhaseEvents(r, clean, found, s, i + 1) else [];
      assert PhaseEvents(r, clean, found, s, i) == first + rest;
      hide PhaseEvents, IsDue;
      assert InPlace(first) by { RunInPlace(p, s.run(p)); }
      forall e
        ensures e in first ==> Place(e) < 2 * (i + 1)
        ensures e in rest ==> Place(e) >= 2 * (i + 1)
        ensures e in first + rest <==> Happens(r, clean, markers, s, i, e)
      {
        NextHappens(r, clean, markers, s, i, e);
      }
      InPlaceThen(first, rest, i + 1);
    }
  }

  lemma NothingHappens(r: Recipe, clean: bool, markers: set<Phase>, s: Surroundings)
    ensures forall e :: !Happens(r, clean, markers, s, 4, e)
  {
  }

  /**
   What a build does besides cleaning: in order of rank, each phase that is due is run, up to the first that
   does not succeed, and is marked right after its success if the marker can be written.
   */
  lemma BuildDoes(r: Recipe, clean: bool, markers: set<Phase>, s: Surroundings)
    ensures var cleaned, events := |CleanEvents(clean, s)|, BuildEvents(r, clean, markers, s);
      && cleaned <= |events| && InPlace(events[cleaned..])
      && forall e :: e in events[cleaned..] <==> CanBuild(r, s) && Happens(r, clean, markers, s, 0, e)
  {
    hide PhaseEvents, InPlace, Happens, MarkersAfterCleaning;
    PhasesHappen(r, clean, markers, s, 0);
    InPlaceNone();
    var phases :=
      if CanBuild(r, s) then PhaseEvents(r, clean, MarkersAfterCleaning(clean, markers, s), s, 0) else [];
    assert BuildEvents(r, clean, markers, s)[|CleanEvents(clean, s)|..] == phases;
  }

  // ----- where the conditions are needed -----

  /** Killed in the middle of cleaning, a build can leave markers that are no prefix. */
  lemma InterruptedCleaning(r: Recipe, log: Log, s: Surroundings, p: Phase, q: Phase)
    requires IsScripted(r, p) && IsScripted(r, q) && Rank(p) < Rank(q)
    requires p in log.markers && q in log.markers && s.cleaning == SomeLeft({q})
    ensures var after := RecordAll(log, AttemptEvents(r, log, Attempt(true, s, 1)));
      after.markers == {q} && !IsPrefix(r, after.markers)
  {
    hide IsScripted, PhaseEvents;
    var events := BuildEvents(r, true, log.markers, s);
    assert events[0] == PartlyCleaned({q});
    assert AttemptEvents(r, log, Attempt(true, s, 1)) == [PartlyCleaned({q})];
    RecordOne(log, PartlyCleaned({q}));
    assert p !in {q};
  }

  /** Killed between a success and its marker, a build leaves the phase to run and succeed again. */
  lemma CrashRepeatsPhase(r: Recipe, s: Surroundings)
    requires CanBuild(r, s) && IsScripted(r, Prepare) && s.run(Prepare) == Succeeds(true)
    ensures var a := Attempt(false, s, 1);
      var log1 := RecordAll(FRESH, AttemptEvents(r, FRESH, a));
      var log2 := RecordAll(log1, AttemptEvents(r, log1, a));
      log2.since == [Ran(Prepare, true), Ran(Prepare, true)] && !AtMostOnce(log2.since)
  {
    hide IsScripted;
    var a, e := Attempt(false, s, 1), Ran(Prepare, true);
    FirstEvents(r, s);
    var events := BuildEvents(r, false, {}, s);
    assert events[..1] == [e];
    RecordOne(FRESH, e);
    var log1 := Record(FRESH, e);
    RecordOne(log1, e);
    assert log1.since == [e] && Record(log1, e).since == [e, e];
    assert [e, e][0] == [e, e][1];
  }

  lemma FirstEvents(r: Recipe, s: Surroundings)
    requires CanBuild(r, s) && IsScripted(r, Prepare) && s.run(Prepare) == Succeeds(true)
    ensures var events := BuildEvents(r, false, {}, s);
      |events| > 1 && events[0] == Ran(Prepare, true)
  {
    hide IsScripted;
    assert RunEvents(Prepare, Succeeds(true)) == [Ran(Prepare, true), Marked(Prepare)];
  }
}
