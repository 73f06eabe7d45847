/**
 What a put comes to, told from the steps of a run: it reports an I/O error exactly if one of its own
 system calls failed, and otherwise it has stored what it was given, unless the file was edited meanwhile.
 Left to itself a put gets there, in whatever chunks it reads and writes.
 */
module VacuolePuts {
  import opened Wrappers
  import opened Digest
  import opened VacuoleProtocol

  // ----- what decides the outcome -----

  predicate IsStart(step: Step, pid: Pid) {
    (step.StartPutBytes? || step.StartPutFile?) && step.pid == pid
  }

  /** A system call of the put of `pid` fails. */
  predicate IsFailure(step: Step, pid: Pid) {
    step == Fail(pid) || step == RenameFails(pid)
  }

  predicate IsEditOf(step: Step, start: Step) {
    start.StartPutFile? && step.EditSource? && step.source == start.source
  }

  /** What the put that begins with `start` is asked to store. */
  function Given(s: State, start: Step): Bytes
    requires start.StartPutBytes? || start.StartPutFile?
  {
    match start
    case StartPutBytes(_, bytes) => bytes
    case StartPutFile(_, source) => Content(s, source)
  }

  /** Step `k` starts the put that `pid` is at in state `i`. */
  ghost predicate IsStartOf(steps: seq<Step>, k: nat, i: nat, pid: Pid) {
    && k < i <= |steps| && IsStart(steps[k], pid)
    && forall j {:trigger steps[j]} :: k < j < i ==> !IsStart(steps[j], pid)
  }

  ghost predicate HasFailed(steps: seq<Step>, k: nat, i: nat, pid: Pid)
    requires i <= |steps|
  {
    exists j {:trigger steps[j]} :: k < j < i && IsFailure(steps[j], pid)
  }

  ghost predicate WasEdited(steps: seq<Step>, k: nat, i: nat)
    requires k < i <= |steps|
  {
    exists j {:trigger steps[j]} :: k < j < i && IsEditOf(steps[j], steps[k])
  }

  predicate EndsInIo(at: Stage) {
    (at.Discarding? || at.Returned?) && at.outcome == Failed(Io)
  }

  /** The put of `start`, with its history as the run has it. */
  predicate IsPutOf(put: Put, start: Step, edited: bool) {
    match start
    case StartPutBytes(_, bytes) => put == Put(None, bytes, false)
    case StartPutFile(_, source) => put.source == Some(source) && put.edited == edited
    case _ => false
  }

  /** What one step of anybody makes of the put of `pid`. */
  ghost predicate Tracks(s: State, step: Step, s': State, pid: Pid) {
    var p, p' := ProcOf(s, pid), ProcOf(s', pid);
    p'.Running? && !IsStart(step, pid) ==>
      && p.Running?
      && (EndsInIo(p'.at) <==> EndsInIo(p.at) || IsFailure(step, pid))
      && p'.put.source == p.put.source
      && (p.put.source.None? ==> p'.put == p.put)
      && (p'.put.edited <==>
            p.put.edited || (step.EditSource? && p.put.source == Some(step.source)))
  }

  lemma OwnStepTracks(hash: Hash, s: State, step: Step, pid: Pid)
    requires Enabled(hash, s, step) && IsPutStep(step) && step.pid == pid
    ensures Tracks(s, step, Apply(hash, s, step), pid)
  {
    hide Chunk, CreateFile, WriteFile, SyncFile, RemoveName, Publish;
  }

  /** A put of somebody else. */
  lemma OthersStepTracks(hash: Hash, s: State, step: Step, pid: Pid)
    requires Enabled(hash, s, step) && IsPutStep(step) && step.pid != pid
    ensures Tracks(s, step, Apply(hash, s, step), pid)
  {
    hide Chunk, WithExtension;
    assert ProcOf(Apply(hash, s, step), pid) == ProcOf(s, pid);
    hide Apply, Enabled, ProcOf;
  }

  lemma EditTracks(s: State, source: Source, content: Bytes, pid: Pid)
    ensures Tracks(s, EditSource(source, content), ApplyEdit(s, source, content), pid)
  {
    assert pid in s.procs <==> pid in ApplyEdit(s, source, content).procs;
  }

  /** No other step changes a put, but to end it. */
  lemma NoPutStepLeaves(hash: Hash, s: State, step: Step, pid: Pid)
    requires Enabled(hash, s, step) && !IsPutStep(step) && !step.EditSource?
    ensures var p' := ProcOf(Apply(hash, s, step), pid);
      p'.Running? ==> p' == ProcOf(s, pid)
  {
    hide PowerLossAllows, Chunk, Advance, CreateFile, WriteFile, SyncFile, Publish;
  }

  lemma NoPutStepTracks(hash: Hash, s: State, step: Step, pid: Pid)
    requires Enabled(hash, s, step) && !IsPutStep(step)
    ensures Tracks(s, step, Apply(hash, s, step), pid)
  {
    if step.EditSource? {
      hide Tracks, Enabled, ApplyEdit;
      EditTracks(s, step.source, step.content, pid);
    } else {
      hide Apply, Enabled, ProcOf;
      NoPutStepLeaves(hash, s, step, pid);
    }
  }

  lemma StepTracks(hash: Hash, s: State, step: Step, pid: Pid)
    requires Enabled(hash, s, step)
    ensures Tracks(s, step, Apply(hash, s, step), pid)
  {
    hide Enabled, Apply, Tracks;
    if !IsPutStep(step) {
      NoPutStepTracks(hash, s, step, pid);
    } else if step.pid == pid {
      OwnStepTracks(hash, s, step, pid);
    } else {
      OthersStepTracks(hash, s, step, pid);
    }
  }

  lemma StepStarts(hash: Hash, s: State, step: Step, pid: Pid)
    requires Enabled(hash, s, step) && IsStart(step, pid)
    ensures var p := ProcOf(Apply(hash, s, step), pid);
      p.Running? && !EndsInIo(p.at) && IsPutOf(p.put, step, false)
  {
  }

  lemma {:induction false} RunTracks(hash: Hash, states: seq<State>, steps: seq<Step>, k: nat, i: nat, pid: Pid)
    requires IsRun(hash, states, steps) && IsStartOf(steps, k, i, pid) && ProcOf(states[i], pid).Running?
    ensures EndsInIo(ProcOf(states[i], pid).at) <==> HasFailed(steps, k, i, pid)
    ensures IsPutOf(ProcOf(states[i], pid).put, steps[k], WasEdited(steps, k, i))
    decreases i
  {
    hide Inv, Enabled, Apply, ProcOf;
    assert Follows(hash, states[i - 1], steps[i - 1], states[i]);
    if k == i - 1 {
      StepStarts(hash, states[k], steps[k], pid);
    } else {
      StepTracks(hash, states[i - 1], steps[i - 1], pid);
      RunTracks(hash, states, steps, k, i - 1, pid);
      assert HasFailed(steps, k, i, pid) <==> HasFailed(steps, k, i - 1, pid) || IsFailure(steps[i - 1], pid);
      assert WasEdited(steps, k, i) <==> WasEdited(steps, k, i - 1) || IsEditOf(steps[i - 1], steps[k]);
    }
  }

  lemma PutStepKeepsSources(hash: Hash, s: State, step: Step)
    requires Enabled(hash, s, step) && IsPutStep(step)
    ensures Apply(hash, s, step).sources == s.sources
  {
    hide PowerLossAllows, Chunk, ApplyEdit, ApplyCrash, ApplyPowerLoss, ApplyRead, Content;
  }

  lemma OtherStepKeepsSources(hash: Hash, s: State, step: Step)
    requires Enabled(hash, s, step) && !IsPutStep(step) && !step.EditSource?
    ensures Apply(hash, s, step).sources == s.sources
  {
    hide PowerLossAllows, Chunk, Advance, CreateFile, WriteFile, SyncFile, Publish, Content;
  }

  lemma EditKeepsOthers(s: State, edited: Source, content: Bytes, source: Source)
    requires edited != source
    ensures Content(ApplyEdit(s, edited, content), source) == Content(s, source)
  {
  }

  lemma StepKeepsContent(hash: Hash, s: State, step: Step, source: Source)
    requires Enabled(hash, s, step) && !(step.EditSource? && step.source == source)
    ensures Content(Apply(hash, s, step), source) == Content(s, source)
  {
    if IsPutStep(step) {
      hide Apply, Enabled;
      PutStepKeepsSources(hash, s, step);
    } else if step.EditSource? {
      hide Enabled, ApplyEdit, Content;
      EditKeepsOthers(s, step.source, step.content, source);
    } else {
      hide Apply, Enabled;
      OtherStepKeepsSources(hash, s, step);
    }
  }

  lemma {:induction false} ContentStays(hash: Hash, states: seq<State>, steps: seq<Step>, k: nat, i: nat)
    requires IsRun(hash, states, steps) && k < i < |states|
    requires steps[k].StartPutFile? && !WasEdited(steps, k, i)
    ensures Content(states[i], steps[k].source) == Content(states[k], steps[k].source)
    decreases i
  {
    hide Enabled, Apply, Content;
    assert Follows(hash, states[i - 1], steps[i - 1], states[i]);
    StepKeepsContent(hash, states[i - 1], steps[i - 1], steps[k].source);
    if k < i - 1 {
      assert !WasEdited(steps, k, i - 1);
      ContentStays(hash, states, steps, k, i - 1);
    }
  }

  /**
   Whatever else goes on: a put that returns reports an I/O error exactly if one of its own system calls
   failed, and a mismatch only if its file was edited after it began. Otherwise it reports the digest of
   what it was given.
   */
  lemma PutOutcome(hash: Hash, states: seq<State>, steps: seq<Step>, k: nat, i: nat, pid: Pid)
    requires IsRun(hash, states, steps) && IsStartOf(steps, k, i, pid)
    requires ProcOf(states[i], pid).Running? && ProcOf(states[i], pid).at.Returned?
    ensures var outcome := ProcOf(states[i], pid).at.outcome;
      && (outcome == Failed(Io) <==> HasFailed(steps, k, i, pid))
      && (outcome == Failed(HashMismatch) ==> WasEdited(steps, k, i))
      && (!WasEdited(steps, k, i) && !HasFailed(steps, k, i, pid) ==>
            outcome == Stored(hash(Given(states[k], steps[k]))))
  {
    hide Inv, Follows, HasFailed, WasEdited;
    RunTracks(hash, states, steps, k, i, pid);
    ReturnedIsRight(hash, states, steps, i, pid);
    if steps[k].StartPutFile? && !WasEdited(steps, k, i) {
      ContentStays(hash, states, steps, k, i);
    }
  }

  // ----- a put is never stuck -----

  predicate IsStuck(hash: Hash, s: State, pid: Pid, p: Proc)
    requires p.Running?
  {
    p.at.Renaming? && TmpPath(hash(p.put.hashed), pid) !in s.names && ObjectPath(hash(p.put.hashed)) !in s.names
  }

  /** A step that `pid` takes by itself, with nothing failing. */
  ghost predicate GoesOn(hash: Hash, s: State, step: Step, pid: Pid) {
    IsPutStep(step) && step.pid == pid && !IsFailure(step, pid) && !IsStart(step, pid) && Enabled(hash, s, step)
  }

  lemma FreshInode(s: State) returns (inode: Inode)
    ensures inode !in s.data
  {
    inode := 0;
    var seen: set<Inode> := {};
    while inode in s.data
      invariant forall j: Inode :: j in seen <==> j < inode
      invariant seen <= s.data.Keys
      decreases |s.data.Keys - seen|
    {
      var left := s.data.Keys - seen;
      assert s.data.Keys - (seen + {inode}) == left - {inode};
      seen, inode := seen + {inode}, inode + 1;
    }
  }

  /**
   In every state of every run, a put that has not returned can take its next step without a failure, except
   exactly one that is to rename a temporary file that is gone, to an object that is not there either.
   */
  lemma PutIsNeverStuck(hash: Hash, states: seq<State>, steps: seq<Step>, i: nat, pid: Pid)
    requires IsRun(hash, states, steps) && i < |states|
    requires ProcOf(states[i], pid).Running? && !ProcOf(states[i], pid).at.Returned?
    ensures (exists step :: GoesOn(hash, states[i], step, pid)) <==>
            !IsStuck(hash, states[i], pid, ProcOf(states[i], pid))
  {
    RunInv(hash, states, steps, i);
    assert ProcInvOf(hash, states[i], pid);
    hide Inv, PowerLossAllows;
    if !IsStuck(hash, states[i], pid, ProcOf(states[i], pid)) {
      var step := NextStep(hash, states[i], pid);
    }
  }

  lemma NextStep(hash: Hash, s: State, pid: Pid) returns (step: Step)
    requires ProcOf(s, pid).Running? && !ProcOf(s, pid).at.Returned?
    requires ProcOf(s, pid).at.Hashing? ==> ProcOf(s, pid).put.source.Some?
    requires !IsStuck(hash, s, pid, ProcOf(s, pid))
    ensures GoesOn(hash, s, step, pid)
  {
    hide PowerLossAllows;
    var p := ProcOf(s, pid);
    match p.at {
      case Hashing =>
        var left := |Content(s, p.put.source.value)| - |p.put.hashed|;
        step := if left <= 0 then HashDone(pid) else HashChunk(pid, if left <= BUFFER then left else BUFFER);
      case Checking => step := CheckPresence(pid);
      case Creating =>
        var tmp := TmpPath(hash(p.put.hashed), pid);
        var unused := FreshInode(s);
        step := CreateTmp(pid, if tmp in s.names then s.names[tmp] else unused);
      case Copying(_, written, buf) =>
        if buf != [] {
          step := WriteChunk(pid, |buf|);
        } else if AtEnd(s, p.put, |written|) {
          step := Sync(pid);
        } else {
          var left := |Content(s, p.put.source.value)| - |written|;
          step := ReadChunk(pid, if left <= BUFFER then left else BUFFER);
        }
      case Verifying(_, _) => step := Verify(pid);
      case Renaming(_) =>
        step := if TmpPath(hash(p.put.hashed), pid) in s.names then RenameReplaces(pid) else RenameFindsTarget(pid);
      case Discarding(_) => step := RemoveTmp(pid, true);
    }
  }

  // ----- a put that is left to itself succeeds -----

  /** `steps` lead from `s` to `s'`. */
  ghost predicate Leads(hash: Hash, s: State, steps: seq<Step>, s': State)
    decreases |steps|
  {
    if steps == [] then s == s'
    else Enabled(hash, s, steps[0]) && Leads(hash, Apply(hash, s, steps[0]), steps[1..], s')
  }

  lemma {:induction false} LeadsThen(hash: Hash, s: State, a: seq<Step>, s1: State, b: seq<Step>, s2: State)
    requires Leads(hash, s, a, s1) && Leads(hash, s1, b, s2)
    ensures Leads(hash, s, a + b, s2)
    decreases |a|
  {
    hide Enabled, Apply;
    if a == [] {
      assert [] + b == b;
    } else {
      LeadsThen(hash, Apply(hash, s, a[0]), a[1..], s1, b, s2);
      assert (a + b)[1..] == a[1..] + b;
    }
  }

  lemma LeadsStep(hash: Hash, s: State, a: seq<Step>, s1: State, step: Step)
    requires Leads(hash, s, a, s1) && Enabled(hash, s1, step)
    ensures Leads(hash, s, a + [step], Apply(hash, s1, step))
  {
    hide Enabled, Apply;
    var s2 := Apply(hash, s1, step);
    assert [step][1..] == [] && Leads(hash, s2, [], s2);
    LeadsThen(hash, s, a, s1, [step], s2);
  }

  function Sum(ns: seq<nat>): nat {
    if ns == [] then 0 else ns[0] + Sum(ns[1..])
  }

  /** Chunk sizes that make up `total`. */
  predicate Cuts(ns: seq<nat>, total: nat, limit: nat) {
    (forall i :: 0 <= i < |ns| ==> 0 < ns[i] <= limit) && Sum(ns) == total
  }

  /** One read of the source, and the writes that it takes to pass it on. */
  datatype Round = Round(read: nat, writes: seq<nat>)

  function Reads(rounds: seq<Round>): seq<nat> {
    if rounds == [] then [] else [rounds[0].read] + Reads(rounds[1..])
  }

  predicate Passes(rounds: seq<Round>, total: nat) {
    && Cuts(Reads(rounds), total, BUFFER)
    && forall i :: 0 <= i < |rounds| ==> Cuts(rounds[i].writes, rounds[i].read, rounds[i].read)
  }

  function HashSteps(pid: Pid, ns: seq<nat>): seq<Step> {
    if ns == [] then [] else [HashChunk(pid, ns[0])] + HashSteps(pid, ns[1..])
  }

  function WriteSteps(pid: Pid, ns: seq<nat>): seq<Step> {
    if ns == [] then [] else [WriteChunk(pid, ns[0])] + WriteSteps(pid, ns[1..])
  }

  function CopySteps(pid: Pid, rounds: seq<Round>): seq<Step> {
    if rounds == [] then []
    else [ReadChunk(pid, rounds[0].read)] + WriteSteps(pid, rounds[0].writes) + CopySteps(pid, rounds[1..])
  }

  /** The steps from a complete temporary file to the end, by whether the two passes have the same digest. */
  function LastSteps(pid: Pid, same: bool): seq<Step> {
    [Sync(pid), Verify(pid), if same then RenameReplaces(pid) else RemoveTmp(pid, true)]
  }

  function PutBytesSteps(pid: Pid, bytes: Bytes, inode: Inode, writes: seq<nat>): seq<Step> {
    [StartPutBytes(pid, bytes), CheckPresence(pid), CreateTmp(pid, inode)] + WriteSteps(pid, writes)
    + LastSteps(pid, true)
  }

  function EditSteps(source: Source, edit: Option<Bytes>): seq<Step> {
    match edit
    case None => []
    case Some(content) => [EditSource(source, content)]
  }

  /** The steps of a `put_file`, with the source possibly edited between its two passes. */
  function PutFileSteps(pid: Pid, source: Source, hashes: seq<nat>, edit: Option<Bytes>, inode: Inode,
                        rounds: seq<Round>, same: bool): seq<Step> {
    [StartPutFile(pid, source)] + HashSteps(pid, hashes) + [HashDone(pid)] + EditSteps(source, edit)
    + [CheckPresence(pid), CreateTmp(pid, inode)] + CopySteps(pid, rounds) + LastSteps(pid, same)
  }

  predicate IsAt(s: State, pid: Pid, put: Put, at: Stage) {
    pid in s.procs && s.procs[pid] == Running(put, at)
  }

  /** Neither the object nor the temporary file is there. */
  predicate IsAbsent(s: State, pid: Pid, d: Sha256Digest) {
    ObjectPath(d) !in s.names && TmpPath(d, pid) !in s.names
  }

  /** The put is at a stage, its temporary file holds `written`, and nothing else is different from `base`. */
  ghost predicate IsCopied(hash: Hash, base: State, s: State, pid: Pid, put: Put, fd: Inode, written: Bytes,
                           at: Stage)
  {
    && IsAt(s, pid, put, at)
    && s.names == base.names[TmpPath(hash(put.hashed), pid) := fd]
    && s.data == base.data[fd := written] && s.sources == base.sources
  }

  /** The put has reported `d`, whose object is the new file, and no other name or file is touched. */
  predicate IsStored(before: State, s: State, pid: Pid, d: Sha256Digest, bytes: Bytes, inode: Inode) {
    && ProcOf(s, pid).Running? && ProcOf(s, pid).at == Returned(Stored(d))
    && s.names == before.names[ObjectPath(d) := inode] && s.data == before.data[inode := bytes]
  }

  /** The put has reported a mismatch, and all names are as they were. */
  predicate IsRejected(before: State, s: State, pid: Pid) {
    ProcOf(s, pid).Running? && ProcOf(s, pid).at == Returned(Failed(HashMismatch)) && s.names == before.names
  }

  lemma SumTail(ns: seq<nat>, total: nat, limit: nat)
    requires ns != [] && Cuts(ns, total, limit)
    ensures 0 < ns[0] <= limit && ns[0] <= total && Cuts(ns[1..], total - ns[0], limit)
  {
  }

  /** The first pass over the source has got `k` bytes far. */
  function Hashed(s: State, pid: Pid, source: Source, k: nat): State
    requires k <= |Content(s, source)|
  {
    Advance(s, pid, Put(Some(source), Content(s, source)[..k], false), Hashing)
  }

  lemma HashOne(hash: Hash, s: State, pid: Pid, source: Source, k: nat, n: nat)
    requires 0 < n <= BUFFER && k + n <= |Content(s, source)|
    ensures Enabled(hash, Hashed(s, pid, source, k), HashChunk(pid, n))
    ensures Apply(hash, Hashed(s, pid, source, k), HashChunk(pid, n)) == Hashed(s, pid, source, k + n)
  {
    var content := Content(s, source);
    assert content[..k] + content[k..k + n] == content[..k + n];
  }

  lemma {:induction false} HashAll(hash: Hash, s: State, pid: Pid, source: Source, k: nat, ns: seq<nat>)
    requires k <= |Content(s, source)| && Cuts(ns, |Content(s, source)| - k, BUFFER)
    ensures Leads(hash, Hashed(s, pid, source, k), HashSteps(pid, ns), Hashed(s, pid, source, |Content(s, source)|))
    decreases |ns|
  {
    hide Enabled, Apply, Hashed, Content;
    if ns != [] {
      SumTail(ns, |Content(s, source)| - k, BUFFER);
      HashOne(hash, s, pid, source, k, ns[0]);
      HashAll(hash, s, pid, source, k + ns[0], ns[1..]);
      assert HashSteps(pid, ns)[1..] == HashSteps(pid, ns[1..]);
    }
  }

  lemma WriteOne(hash: Hash, base: State, s: State, pid: Pid, put: Put, fd: Inode, written: Bytes, buf: Bytes, n: nat)
    requires 0 < n <= |buf| && IsCopied(hash, base, s, pid, put, fd, written, Copying(fd, written, buf))
    ensures Enabled(hash, s, WriteChunk(pid, n))
    ensures IsCopied(hash, base, Apply(hash, s, WriteChunk(pid, n)), pid, put, fd, written + buf[..n],
                     Copying(fd, written + buf[..n], buf[n..]))
  {
  }

  lemma {:induction false} WriteAll(hash: Hash, base: State, s: State, pid: Pid, put: Put, fd: Inode,
                                    written: Bytes, buf: Bytes, ns: seq<nat>)
    returns (s': State)
    requires IsCopied(hash, base, s, pid, put, fd, written, Copying(fd, written, buf)) && Cuts(ns, |buf|, |buf|)
    ensures Leads(hash, s, WriteSteps(pid, ns), s')
    ensures IsCopied(hash, base, s', pid, put, fd, written + buf, Copying(fd, written + buf, []))
    decreases |ns|
  {
    hide Enabled, Apply, IsCopied;
    if ns == [] {
      assert buf == [] && written + buf == written;
      s' := s;
    } else {
      SumTail(ns, |buf|, |buf|);
      WriteOne(hash, base, s, pid, put, fd, written, buf, ns[0]);
      assert written + buf[..ns[0]] + buf[ns[0]..] == written + buf;
      SmallerLimit(ns[1..], |buf| - ns[0], |buf|);
      s' := WriteAll(hash, base, Apply(hash, s, WriteChunk(pid, ns[0])), pid, put, fd, written + buf[..ns[0]],
                     buf[ns[0]..], ns[1..]);
      assert WriteSteps(pid, ns)[1..] == WriteSteps(pid, ns[1..]);
    }
  }

  /** No chunk is larger than the total. */
  lemma {:induction false} SmallerLimit(ns: seq<nat>, total: nat, limit: nat)
    requires Cuts(ns, total, limit)
    ensures Cuts(ns, total, total)
    decreases |ns|
  {
    if ns != [] {
      SumTail(ns, total, limit);
      SmallerLimit(ns[1..], total - ns[0], limit);
      assert forall i :: 0 < i < |ns| ==> ns[i] == ns[1..][i - 1];
    }
  }

  lemma ReadOne(hash: Hash, base: State, s: State, pid: Pid, put: Put, fd: Inode, written: Bytes, n: nat)
    requires IsCopied(hash, base, s, pid, put, fd, written, Copying(fd, written, []))
    requires put.source.Some? && 0 < n <= BUFFER && |written| + n <= |Content(base, put.source.value)|
    ensures Enabled(hash, s, ReadChunk(pid, n))
    ensures var chunk := Content(base, put.source.value)[|written|..|written| + n];
      IsCopied(hash, base, Apply(hash, s, ReadChunk(pid, n)), pid, put, fd, written, Copying(fd, written, chunk))
  {
  }

  lemma {:induction false} CopyAll(hash: Hash, base: State, s: State, pid: Pid, put: Put, fd: Inode,
                                   written: Bytes, rounds: seq<Round>)
    returns (s': State)
    requires IsCopied(hash, base, s, pid, put, fd, written, Copying(fd, written, []))
    requires put.source.Some? && written <= Content(base, put.source.value)
    requires Passes(rounds, |Content(base, put.source.value)| - |written|)
    ensures Leads(hash, s, CopySteps(pid, rounds), s')
    ensures var content := Content(base, put.source.value);
      IsCopied(hash, base, s', pid, put, fd, content, Copying(fd, content, []))
    decreases |rounds|
  {
    hide Enabled, Apply, IsCopied;
    var content := Content(base, put.source.value);
    if rounds == [] {
      assert written == content;
      s' := s;
    } else {
      var read, writes := rounds[0].read, rounds[0].writes;
      SumTail(Reads(rounds), |content| - |written|, BUFFER);
      assert Reads(rounds)[1..] == Reads(rounds[1..]);
      var chunk := content[|written|..|written| + read];
      ReadOne(hash, base, s, pid, put, fd, written, read);
      var s1 := Apply(hash, s, ReadChunk(pid, read));
      var s2 := WriteAll(hash, base, s1, pid, put, fd, written, chunk, writes);
      assert written + chunk <= content;
      s' := CopyAll(hash, base, s2, pid, put, fd, written + chunk, rounds[1..]);
      assert Leads(hash, s, [], s);
      LeadsStep(hash, s, [], s, ReadChunk(pid, read));
      assert [] + [ReadChunk(pid, read)] == [ReadChunk(pid, read)];
      LeadsThen(hash, s, [ReadChunk(pid, read)], s1, WriteSteps(pid, writes), s2);
      LeadsThen(hash, s, [ReadChunk(pid, read)] + WriteSteps(pid, writes), s2, CopySteps(pid, rounds[1..]), s');
    }
  }

  lemma SyncCopied(hash: Hash, base: State, s: State, pid: Pid, put: Put, fd: Inode, written: Bytes)
    requires IsCopied(hash, base, s, pid, put, fd, written, Copying(fd, written, []))
    requires put.source.Some? ==> written == Content(base, put.source.value)
    ensures Enabled(hash, s, Sync(pid))
    ensures IsCopied(hash, base, Apply(hash, s, Sync(pid)), pid, put, fd, written, Verifying(fd, written))
  {
  }

  lemma VerifyCopied(hash: Hash, base: State, s: State, pid: Pid, put: Put, fd: Inode, written: Bytes)
    requires IsCopied(hash, base, s, pid, put, fd, written, Verifying(fd, written))
    requires put.source.None? ==> written == put.hashed
    ensures Enabled(hash, s, Verify(pid))
    ensures IsCopied(hash, base, Apply(hash, s, Verify(pid)), pid, put, fd, written,
                     if hash(written) == hash(put.hashed) then Renaming(fd) else Discarding(Failed(HashMismatch)))
  {
  }

  lemma LastCopied(hash: Hash, base: State, s: State, pid: Pid, put: Put, fd: Inode, written: Bytes)
    requires IsAbsent(base, pid, hash(put.hashed))
    requires var same := hash(written) == hash(put.hashed);
      IsCopied(hash, base, s, pid, put, fd, written,
               if same then Renaming(fd) else Discarding(Failed(HashMismatch)))
    ensures var same := hash(written) == hash(put.hashed);
      var step := LastSteps(pid, same)[2];
      && Enabled(hash, s, step)
      && if same then IsStored(base, Apply(hash, s, step), pid, hash(put.hashed), written, fd)
         else IsRejected(base, Apply(hash, s, step), pid)
  {
    var tmp := TmpPath(hash(put.hashed), pid);
    assert base.names[tmp := fd] - {tmp} == base.names;
  }

  /** From a complete temporary file on, the digest of what it holds decides. */
  lemma Finish(hash: Hash, base: State, s: State, pid: Pid, put: Put, fd: Inode, written: Bytes)
    returns (s': State)
    requires IsCopied(hash, base, s, pid, put, fd, written, Copying(fd, written, []))
    requires if put.source.Some? then written == Content(base, put.source.value) else written == put.hashed
    requires IsAbsent(base, pid, hash(put.hashed))
    ensures var same := hash(written) == hash(put.hashed);
      && Leads(hash, s, LastSteps(pid, same), s')
      && if same then IsStored(base, s', pid, hash(put.hashed), written, fd) else IsRejected(base, s', pid)
  {
    hide Enabled, Apply, IsCopied, IsStored, IsRejected, IsAbsent;
    var same := hash(written) == hash(put.hashed);
    SyncCopied(hash, base, s, pid, put, fd, written);
    var s1 := Apply(hash, s, Sync(pid));
    VerifyCopied(hash, base, s1, pid, put, fd, written);
    var s2 := Apply(hash, s1, Verify(pid));
    LastCopied(hash, base, s2, pid, put, fd, written);
    var last := LastSteps(pid, same)[2];
    s' := Apply(hash, s2, last);
    assert Leads(hash, s, [], s);
    LeadsStep(hash, s, [], s, Sync(pid));
    LeadsStep(hash, s, [] + [Sync(pid)], s1, Verify(pid));
    LeadsStep(hash, s, [] + [Sync(pid)] + [Verify(pid)], s2, last);
    assert [] + [Sync(pid)] + [Verify(pid)] + [last] == LastSteps(pid, same);
  }

  lemma CheckAndCreate(hash: Hash, s: State, pid: Pid, put: Put, inode: Inode) returns (s': State)
    requires IsAt(s, pid, put, Checking) && inode !in s.data && IsAbsent(s, pid, hash(put.hashed))
    ensures Leads(hash, s, [CheckPresence(pid), CreateTmp(pid, inode)], s')
    ensures IsCopied(hash, s, s', pid, put, inode, [],
                     Copying(inode, [], if put.source.None? then put.hashed else []))
  {
    var s1 := Apply(hash, s, CheckPresence(pid));
    s' := Apply(hash, s1, CreateTmp(pid, inode));
    hide Apply, Enabled;
    assert Leads(hash, s, [], s);
    LeadsStep(hash, s, [], s, CheckPresence(pid));
    LeadsStep(hash, s, [] + [CheckPresence(pid)], s1, CreateTmp(pid, inode));
    assert [] + [CheckPresence(pid)] + [CreateTmp(pid, inode)] == [CheckPresence(pid), CreateTmp(pid, inode)];
  }

  lemma Starts(hash: Hash, s: State, pid: Pid, bytes: Bytes)
    requires MayStart(ProcOf(s, pid))
    ensures Leads(hash, s, [StartPutBytes(pid, bytes)], Advance(s, pid, Put(None, bytes, false), Checking))
  {
    var start, s' := StartPutBytes(pid, bytes), Advance(s, pid, Put(None, bytes, false), Checking);
    assert Enabled(hash, s, start) && Apply(hash, s, start) == s';
    hide Enabled, Apply;
    assert [start][1..] == [] && Leads(hash, s', [], s');
  }

  /** In whatever pieces its bytes are written, `put_bytes` stores them if their object is not there yet. */
  lemma UndisturbedPut(hash: Hash, s: State, pid: Pid, bytes: Bytes, inode: Inode, writes: seq<nat>)
    returns (s': State)
    requires MayStart(ProcOf(s, pid)) && inode !in s.data && IsAbsent(s, pid, hash(bytes))
    requires Cuts(writes, |bytes|, |bytes|)
    ensures Leads(hash, s, PutBytesSteps(pid, bytes, inode, writes), s')
    ensures IsStored(s, s', pid, hash(bytes), bytes, inode)
  {
    hide Leads, Apply, Enabled, Cuts, WriteSteps, LastSteps;
    var put, start := Put(None, bytes, false), [StartPutBytes(pid, bytes)];
    var s1 := Advance(s, pid, put, Checking);
    Starts(hash, s, pid, bytes);
    var s2 := CheckAndCreate(hash, s1, pid, put, inode);
    var s3 := WriteAll(hash, s1, s2, pid, put, inode, [], bytes, writes);
    assert [] + bytes == bytes;
    s' := Finish(hash, s1, s3, pid, put, inode, bytes);
    var a := [CheckPresence(pid), CreateTmp(pid, inode)];
    LeadsThen(hash, s, start, s1, a, s2);
    LeadsThen(hash, s, start + a, s2, WriteSteps(pid, writes), s3);
    LeadsThen(hash, s, start + a + WriteSteps(pid, writes), s3, LastSteps(pid, true), s');
    assert start + a == [StartPutBytes(pid, bytes), CheckPresence(pid), CreateTmp(pid, inode)];
  }

  lemma FileStarts(hash: Hash, s: State, pid: Pid, source: Source)
    requires MayStart(ProcOf(s, pid))
    ensures Leads(hash, s, [StartPutFile(pid, source)], Hashed(s, pid, source, 0))
  {
    var start, s' := StartPutFile(pid, source), Hashed(s, pid, source, 0);
    assert Enabled(hash, s, start) && Apply(hash, s, start) == s';
    hide Enabled, Apply;
    assert [start][1..] == [] && Leads(hash, s', [], s');
  }

  lemma FileIsHashed(hash: Hash, s: State, pid: Pid, source: Source)
    ensures Enabled(hash, Hashed(s, pid, source, |Content(s, source)|), HashDone(pid))
    ensures Apply(hash, Hashed(s, pid, source, |Content(s, source)|), HashDone(pid)) ==
              Advance(s, pid, Put(Some(source), Content(s, source), false), Checking)
  {
    assert Content(s, source)[..|Content(s, source)|] == Content(s, source);
  }

  lemma FirstPass(hash: Hash, s: State, pid: Pid, source: Source, hashes: seq<nat>)
    requires MayStart(ProcOf(s, pid)) && Cuts(hashes, |Content(s, source)|, BUFFER)
    ensures Leads(hash, s, [StartPutFile(pid, source)] + HashSteps(pid, hashes) + [HashDone(pid)],
                  Advance(s, pid, Put(Some(source), Content(s, source), false), Checking))
  {
    hide Leads, Apply, Enabled, HashSteps, Hashed;
    var s1, s2 := Hashed(s, pid, source, 0), Hashed(s, pid, source, |Content(s, source)|);
    FileStarts(hash, s, pid, source);
    HashAll(hash, s, pid, source, 0, hashes);
    FileIsHashed(hash, s, pid, source);
    LeadsThen(hash, s, [StartPutFile(pid, source)], s1, HashSteps(pid, hashes), s2);
    LeadsStep(hash, s, [StartPutFile(pid, source)] + HashSteps(pid, hashes), s2, HashDone(pid));
  }

  /** The edit, if there is one, leaves the disk alone, and the second pass will read the new content. */
  lemma EditBetween(hash: Hash, s: State, pid: Pid, source: Source, hashed: Bytes, edit: Option<Bytes>)
    returns (s': State)
    requires IsAt(s, pid, Put(Some(source), hashed, false), Checking)
    ensures Leads(hash, s, EditSteps(source, edit), s')
    ensures s'.names == s.names && s'.data == s.data
    ensures IsAt(s', pid, Put(Some(source), hashed, edit.Some?), Checking)
    ensures Content(s', source) == match edit { case None => Content(s, source) case Some(content) => content }
  {
    match edit {
      case None => s' := s;
      case Some(content) =>
        s' := Apply(hash, s, EditSource(source, content));
        assert [EditSource(source, content)][1..] == [];
    }
  }

  /**
   In whatever chunks `put_file` reads and writes: with its object not there yet it stores the file if both
   passes have the same digest, and otherwise reports a mismatch and leaves no name behind. A file that
   nobody edits is always stored.
   */
  lemma UndisturbedPutFile(hash: Hash, s: State, pid: Pid, source: Source, hashes: seq<nat>, edit: Option<Bytes>,
                           inode: Inode, rounds: seq<Round>)
    returns (s': State)
    requires MayStart(ProcOf(s, pid)) && inode !in s.data && IsAbsent(s, pid, hash(Content(s, source)))
    requires Cuts(hashes, |Content(s, source)|, BUFFER)
    requires var second := if edit.Some? then edit.value else Content(s, source); Passes(rounds, |second|)
    ensures var first := Content(s, source);
      var second := if edit.Some? then edit.value else first;
      var same := hash(first) == hash(second);
      && Leads(hash, s, PutFileSteps(pid, source, hashes, edit, inode, rounds, same), s')
      && if same then IsStored(s, s', pid, hash(first), second, inode) else IsRejected(s, s', pid)
  {
    hide Leads, Apply, Enabled, Cuts, Passes, HashSteps, CopySteps, LastSteps;
    var first := Content(s, source);
    var second := if edit.Some? then edit.value else first;
    FirstPass(hash, s, pid, source, hashes);
    var s1 := Advance(s, pid, Put(Some(source), first, false), Checking);
    var s2 := EditBetween(hash, s1, pid, source, first, edit);
    var put := Put(Some(source), first, edit.Some?);
    var s3 := CheckAndCreate(hash, s2, pid, put, inode);
    var s4 := CopyAll(hash, s2, s3, pid, put, inode, [], rounds);
    s' := Finish(hash, s2, s4, pid, put, inode, second);
    var a := [StartPutFile(pid, source)] + HashSteps(pid, hashes) + [HashDone(pid)];
    var b := [CheckPresence(pid), CreateTmp(pid, inode)];
    LeadsThen(hash, s, a, s1, EditSteps(source, edit), s2);
    LeadsThen(hash, s, a + EditSteps(source, edit), s2, b, s3);
    LeadsThen(hash, s, a + EditSteps(source, edit) + b, s3, CopySteps(pid, rounds), s4);
    LeadsThen(hash, s, a + EditSteps(source, edit) + b + CopySteps(pid, rounds), s4,
              LastSteps(pid, hash(first) == hash(second)), s');
  }

  // ----- other ways to end -----

  /** Putting what is stored already reports it at once and touches nothing. */
  lemma PresentPut(hash: Hash, s: State, pid: Pid, bytes: Bytes) returns (s': State)
    requires MayStart(ProcOf(s, pid)) && ObjectPath(hash(bytes)) in s.names
    ensures Leads(hash, s, [StartPutBytes(pid, bytes), CheckPresence(pid)], s')
    ensures ProcOf(s', pid).Running? && ProcOf(s', pid).at == Returned(Stored(hash(bytes)))
    ensures s'.names == s.names && s'.data == s.data
  {
    var s1 := Advance(s, pid, Put(None, bytes, false), Checking);
    Starts(hash, s, pid, bytes);
    assert Enabled(hash, s1, CheckPresence(pid));
    s' := Apply(hash, s1, CheckPresence(pid));
    hide Apply, Enabled, Leads;
    LeadsStep(hash, s, [StartPutBytes(pid, bytes)], s1, CheckPresence(pid));
    assert [StartPutBytes(pid, bytes)] + [CheckPresence(pid)] == [StartPutBytes(pid, bytes), CheckPresence(pid)];
  }

  /** Likewise for a file, after the first pass over it. */
  lemma PresentPutFile(hash: Hash, s: State, pid: Pid, source: Source, hashes: seq<nat>) returns (s': State)
    requires MayStart(ProcOf(s, pid)) && ObjectPath(hash(Content(s, source))) in s.names
    requires Cuts(hashes, |Content(s, source)|, BUFFER)
    ensures Leads(hash, s, [StartPutFile(pid, source)] + HashSteps(pid, hashes) + [HashDone(pid)]
                           + [CheckPresence(pid)], s')
    ensures ProcOf(s', pid).Running? && ProcOf(s', pid).at == Returned(Stored(hash(Content(s, source))))
    ensures s'.names == s.names && s'.data == s.data
  {
    var s1 := Advance(s, pid, Put(Some(source), Content(s, source), false), Checking);
    assert Enabled(hash, s1, CheckPresence(pid));
    s' := Apply(hash, s1, CheckPresence(pid));
    hide Apply, Enabled, Leads, HashSteps;
    FirstPass(hash, s, pid, source, hashes);
    LeadsStep(hash, s, [StartPutFile(pid, source)] + HashSteps(pid, hashes) + [HashDone(pid)], s1, CheckPresence(pid));
  }

  /**
   A rename that does not go through: a put that finds its object there by then has lost a race and reports it
   stored all the same, any other reports the error; both take their temporary file away.
   */
  lemma RenameRefused(hash: Hash, s: State, pid: Pid, lost: bool) returns (s': State)
    requires ProcOf(s, pid).Running? && ProcOf(s, pid).at.Renaming?
    requires lost ==> ObjectPath(hash(ProcOf(s, pid).put.hashed)) in s.names
    ensures var refused := if lost then RenameFindsTarget(pid) else RenameFails(pid);
      Leads(hash, s, [refused, RemoveTmp(pid, true)], s')
    ensures var d := hash(ProcOf(s, pid).put.hashed);
      && ProcOf(s', pid).Running? && ProcOf(s', pid).at == Returned(if lost then Stored(d) else Failed(Io))
      && s'.names == s.names - {TmpPath(d, pid)} && s'.data == s.data
  {
    var refused := if lost then RenameFindsTarget(pid) else RenameFails(pid);
    assert Enabled(hash, s, refused);
    var s1 := Apply(hash, s, refused);
    assert Enabled(hash, s1, RemoveTmp(pid, true));
    s' := Apply(hash, s1, RemoveTmp(pid, true));
    hide Apply, Enabled;
    assert Leads(hash, s, [], s);
    LeadsStep(hash, s, [], s, refused);
    LeadsStep(hash, s, [] + [refused], s1, RemoveTmp(pid, true));
    assert [] + [refused] + [RemoveTmp(pid, true)] == [refused, RemoveTmp(pid, true)];
  }

  // ----- a reader that is left to itself -----

  function ReadSteps(reader: nat, ns: seq<nat>): seq<Step> {
    if ns == [] then [] else [ReadObject(reader, ns[0])] + ReadSteps(reader, ns[1..])
  }

  function Reading(s: State, r: nat, d: Sha256Digest, got: Bytes): State
    requires ObjectPath(d) in s.names
  {
    s.(readers := s.readers[r := Reader(d, s.names[ObjectPath(d)], got)])
  }

  lemma ReadNext(hash: Hash, s: State, r: nat, d: Sha256Digest, k: nat, n: nat)
    requires ObjectPath(d) in s.names && s.names[ObjectPath(d)] in s.data
    requires k + n <= |s.data[s.names[ObjectPath(d)]]|
    ensures var content := s.data[s.names[ObjectPath(d)]];
      && Enabled(hash, Reading(s, r, d, content[..k]), ReadObject(r, n))
      && Apply(hash, Reading(s, r, d, content[..k]), ReadObject(r, n)) == Reading(s, r, d, content[..k + n])
  {
    var content := s.data[s.names[ObjectPath(d)]];
    assert content[..k] + content[k..k + n] == content[..k + n];
  }

  lemma {:induction false} ReadOn(hash: Hash, s: State, r: nat, d: Sha256Digest, k: nat, ns: seq<nat>)
    requires ObjectPath(d) in s.names && s.names[ObjectPath(d)] in s.data
    requires var size := |s.data[s.names[ObjectPath(d)]]|; k <= size && Cuts(ns, size - k, size)
    ensures var content := s.data[s.names[ObjectPath(d)]];
      Leads(hash, Reading(s, r, d, content[..k]), ReadSteps(r, ns), Reading(s, r, d, content))
    decreases |ns|
  {
    hide Enabled, Apply, Reading;
    var content := s.data[s.names[ObjectPath(d)]];
    if ns == [] {
      assert content[..k] == content;
    } else {
      SumTail(ns, |content| - k, |content|);
      ReadNext(hash, s, r, d, k, ns[0]);
      ReadOn(hash, s, r, d, k + ns[0], ns[1..]);
      assert ReadSteps(r, ns)[1..] == ReadSteps(r, ns[1..]);
    }
  }

  /** Whoever opens an object that is there and reads on to its end has all of it, in whatever pieces. */
  lemma UndisturbedRead(hash: Hash, s: State, r: nat, d: Sha256Digest, ns: seq<nat>)
    requires ObjectPath(d) in s.names && s.names[ObjectPath(d)] in s.data
    requires var size := |s.data[s.names[ObjectPath(d)]]|; Cuts(ns, size, size)
    ensures var content := s.data[s.names[ObjectPath(d)]];
      Leads(hash, s, [OpenObject(r, d)] + ReadSteps(r, ns), Reading(s, r, d, content))
  {
    var content := s.data[s.names[ObjectPath(d)]];
    assert content[..0] == [];
    assert Enabled(hash, s, OpenObject(r, d)) && Apply(hash, s, OpenObject(r, d)) == Reading(s, r, d, content[..0]);
    ReadOn(hash, s, r, d, 0, ns);
    hide Enabled, Apply, Reading, ReadSteps;
    assert ([OpenObject(r, d)] + ReadSteps(r, ns))[1..] == ReadSteps(r, ns);
  }
}
