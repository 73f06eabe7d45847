/**
 The write protocol of the vacuole store as many processes run it at once on one disk.

 Every system call is a step of its own, so steps of different processes, crashes, power loss, edits of
 the source files and the garbage collector's unlinks come in any order. Directory entries and file
 contents are kept apart (a name leads to an inode, an inode to bytes): a file that is unlinked or
 replaced while somebody has it open lives on, nameless, and that is what readers and writers see.
 */
module VacuoleProtocol {
  import opened Wrappers
  import opened Digest
  import Text

  type Bytes = seq<Byte>
  type Pid = nat
  type Inode = nat
  type Source = string
  type Hash = Bytes -> Sha256Digest

  // ----- names -----

  /** The names below `objects/` that the store gives out. */
  datatype Path = ObjectPath(digest: Sha256Digest) | TmpPath(digest: Sha256Digest, pid: Pid)

  /** `Path::with_extension`: what follows the last dot gives way, unless nothing precedes that dot. */
  function WithExtension(name: string, extension: string): string {
    var stem := match Text.RSplitOnce(name, '.')
      case None => name
      case Some((before, _)) => if before == "" then name else before;
    stem + "." + extension
  }

  /** The directory and the file name that a path has on disk. */
  function OnDisk(p: Path): (string, string) {
    match p
    case ObjectPath(d) => (Shard(d), FileName(d))
    case TmpPath(d, pid) => (Shard(d), WithExtension(FileName(d), "tmp." + Text.Decimal(pid)))
  }

  lemma TmpName(d: Sha256Digest, pid: Pid)
    ensures OnDisk(TmpPath(d, pid)).1 == FileName(d) + ".tmp." + Text.Decimal(pid)
  {
    HexBytesLower(d[1..]);
    assert '.' !in FileName(d);
    assert "." + ("tmp." + Text.Decimal(pid)) == ".tmp." + Text.Decimal(pid);
  }

  lemma TmpPathInjective(d: Sha256Digest, p: Pid, e: Sha256Digest, q: Pid)
    requires OnDisk(TmpPath(d, p)) == OnDisk(TmpPath(e, q))
    ensures d == e && p == q
  {
    TmpName(d, p);
    TmpName(e, q);
    var n, m := OnDisk(TmpPath(d, p)).1, OnDisk(TmpPath(e, q)).1;
    assert n[..62] == FileName(d) && m[..62] == FileName(e);
    assert n[67..] == Text.Decimal(p) && m[67..] == Text.Decimal(q);
    ObjectPathInjective(d, e);
    Text.DecimalInjective(p, q);
  }

  /**
   Different paths are different files: no temporary file goes by the name of an object, and each
   belongs to one digest and one process.
   */
  lemma OnDiskInjective(p: Path, q: Path)
    requires OnDisk(p) == OnDisk(q)
    ensures p == q
  {
    match (p, q) {
      case (ObjectPath(d), ObjectPath(e)) => ObjectPathInjective(d, e);
      case (TmpPath(d, i), TmpPath(e, j)) => TmpPathInjective(d, i, e, j);
      case (ObjectPath(d), TmpPath(e, j)) => TmpName(e, j);
      case (TmpPath(d, i), ObjectPath(e)) => TmpName(d, i);
    }
  }

  // ----- state -----

  /**
   One call of `put_bytes` (no source) or `put_file`. `hashed` is what the digest was computed from;
   `edited` records whether the source was edited since the call began.
   */
  datatype Put = Put(source: Option<Source>, hashed: Bytes, edited: bool)

  datatype Error = Io | HashMismatch

  datatype Outcome = Stored(digest: Sha256Digest) | Failed(error: Error)

  /** How far a put has come: the system call it makes next. */
  datatype Stage =
    | Hashing                                             // first pass of put_file
    | Checking                                            // about to ask `contains`
    | Creating                                            // about to create the temporary file
    | Copying(fd: Inode, written: Bytes, buf: Bytes)
    | Verifying(fd: Inode, written: Bytes)                // synced and closed
    | Renaming(fd: Inode)
    | Discarding(outcome: Outcome)                        // about to remove the temporary file
    | Returned(outcome: Outcome)

  datatype Proc = Idle | Running(put: Put, at: Stage)

  datatype Reader = Reader(digest: Sha256Digest, fd: Inode, got: Bytes)

  /**
   `synced` holds the inodes whose present bytes survive power loss. `published` is history only: the
   inodes that were renamed to an object path, with the digest they went under.
   */
  datatype State = State(
    names: map<Path, Inode>,
    data: map<Inode, Bytes>,
    synced: set<Inode>,
    published: map<Inode, Sha256Digest>,
    sources: map<Source, Bytes>,
    procs: map<Pid, Proc>,
    readers: map<nat, Reader>)

  function ProcOf(s: State, pid: Pid): Proc {
    if pid in s.procs then s.procs[pid] else Idle
  }

  function Content(s: State, source: Source): Bytes {
    if source in s.sources then s.sources[source] else []
  }

  // ----- steps -----

  datatype Step =
    | StartPutBytes(pid: Pid, bytes: Bytes)
    | StartPutFile(pid: Pid, source: Source)
    | HashChunk(pid: Pid, n: nat)
    | HashDone(pid: Pid)
    | CheckPresence(pid: Pid)
    | CreateTmp(pid: Pid, inode: Inode)
    | ReadChunk(pid: Pid, n: nat)
    | WriteChunk(pid: Pid, n: nat)
    | Sync(pid: Pid)
    | Verify(pid: Pid)
    | RenameReplaces(pid: Pid)
    | RenameFindsTarget(pid: Pid)
    | RenameFails(pid: Pid)
    | RemoveTmp(pid: Pid, removed: bool)
    | Fail(pid: Pid)                 // any other system call of a put fails, and the put returns
    | Crash(pid: Pid)
    | OpenObject(reader: nat, digest: Sha256Digest)
    | ReadObject(reader: nat, n: nat)
    | Unlink(path: Path)             // what a collector does, whichever files it picks
    | EditSource(source: Source, content: Bytes)
    | PowerLoss(names: map<Path, Inode>, data: map<Inode, Bytes>)

  const BUFFER: nat := 64 * 1024

  predicate MayStart(p: Proc) {
    p.Running? ==> p.at.Returned?
  }

  /** When a step can be taken. */
  ghost predicate Enabled(hash: Hash, s: State, step: Step) {
    match step
    case StartPutBytes(pid, _) => MayStart(ProcOf(s, pid))
    case StartPutFile(pid, _) => MayStart(ProcOf(s, pid))
    case HashChunk(pid, n) =>
      var p := ProcOf(s, pid);
      p.Running? && p.at.Hashing? && MayRead(s, p.put, |p.put.hashed|, n)
    case HashDone(pid) =>
      var p := ProcOf(s, pid);
      p.Running? && p.at.Hashing? && AtEnd(s, p.put, |p.put.hashed|)
    case CheckPresence(pid) => ProcOf(s, pid).Running? && ProcOf(s, pid).at.Checking?
    case CreateTmp(pid, inode) =>
      var p := ProcOf(s, pid);
      p.Running? && p.at.Creating? &&
      var tmp := TmpPath(hash(p.put.hashed), pid);
      if tmp in s.names then inode == s.names[tmp] else inode !in s.data
    case ReadChunk(pid, n) =>
      var p := ProcOf(s, pid);
      p.Running? && p.at.Copying? && p.at.buf == [] && MayRead(s, p.put, |p.at.written|, n)
    case WriteChunk(pid, n) =>
      var p := ProcOf(s, pid);
      p.Running? && p.at.Copying? && 0 < n <= |p.at.buf|
    case Sync(pid) =>
      var p := ProcOf(s, pid);
      p.Running? && p.at.Copying? && p.at.buf == [] && AtEnd(s, p.put, |p.at.written|)
    case Verify(pid) => ProcOf(s, pid).Running? && ProcOf(s, pid).at.Verifying?
    case RenameReplaces(pid) =>
      var p := ProcOf(s, pid);
      p.Running? && p.at.Renaming? && TmpPath(hash(p.put.hashed), pid) in s.names
    case RenameFindsTarget(pid) =>
      var p := ProcOf(s, pid);
      p.Running? && p.at.Renaming? && ObjectPath(hash(p.put.hashed)) in s.names
    case RenameFails(pid) => ProcOf(s, pid).Running? && ProcOf(s, pid).at.Renaming?
    case RemoveTmp(pid, _) => ProcOf(s, pid).Running? && ProcOf(s, pid).at.Discarding?
    case Fail(pid) =>
      var p := ProcOf(s, pid);
      p.Running? && (p.at.Hashing? || p.at.Checking? || p.at.Creating? || p.at.Copying?)
    case Crash(_) => true
    case OpenObject(_, d) => ObjectPath(d) in s.names && s.names[ObjectPath(d)] in s.data
    case ReadObject(r, n) =>
      r in s.readers && s.readers[r].fd in s.data
      && |s.readers[r].got| + n <= |s.data[s.readers[r].fd]|
    case Unlink(_) => true
    case EditSource(_, _) => true
    case PowerLoss(names, data) => PowerLossAllows(s, names, data)
  }

  /** The source of a put has `n` more bytes at this offset, and they fit the read buffer. */
  predicate MayRead(s: State, put: Put, offset: nat, n: nat) {
    put.source.Some? && 0 < n <= BUFFER && offset + n <= |Content(s, put.source.value)|
  }

  /** The next read of the source returns nothing. */
  predicate AtEnd(s: State, put: Put, offset: nat) {
    put.source.Some? ==> |Content(s, put.source.value)| <= offset
  }

  function Chunk(s: State, put: Put, offset: nat, n: nat): (r: Bytes)
    requires MayRead(s, put, offset, n)
    ensures |r| == n
  {
    Content(s, put.source.value)[offset..offset + n]
  }

  /**
   Power loss may undo any renames and unlinks and scramble what was not synced. It leaves no two names
   for one file, and nothing at an object path that had not been renamed to that path.
   */
  ghost predicate PowerLossAllows(s: State, names: map<Path, Inode>, data: map<Inode, Bytes>) {
    && data.Keys == s.data.Keys
    && (forall i :: i in s.synced && i in s.data ==> data[i] == s.data[i])
    && (forall p :: p in names ==> names[p] in s.data)
    && (forall p, q :: p in names && q in names && names[p] == names[q] ==> p == q)
    && (forall d: Sha256Digest :: ObjectPath(d) in names ==>
          names[ObjectPath(d)] in s.published && s.published[names[ObjectPath(d)]] == d)
  }

  // What the system calls do to the disk.

  /** `File::create`: an existing file is emptied, a new one is empty. */
  function CreateFile(s: State, p: Path, i: Inode): State {
    s.(names := s.names[p := i], data := s.data[i := []], synced := s.synced - {i})
  }

  function WriteFile(s: State, i: Inode, bytes: Bytes): State {
    s.(data := s.data[i := bytes], synced := s.synced - {i})
  }

  function SyncFile(s: State, i: Inode): State {
    s.(synced := s.synced + {i})
  }

  function RemoveName(s: State, p: Path): State {
    s.(names := s.names - {p})
  }

  /** `rename` onto an object path. */
  function Publish(s: State, tmp: Path, d: Sha256Digest): State
    requires tmp in s.names
  {
    s.(names := (s.names - {tmp})[ObjectPath(d) := s.names[tmp]],
       published := s.published[s.names[tmp] := d])
  }

  function Advance(s: State, pid: Pid, put: Put, at: Stage): State {
    s.(procs := s.procs[pid := Running(put, at)])
  }

  /** An edit is noticed by the puts that read the file. */
  function MarkEdited(p: Proc, source: Source): Proc {
    if p.Running? && p.put.source == Some(source) then Running(p.put.(edited := true), p.at) else p
  }

  function ApplyEdit(s: State, source: Source, content: Bytes): State {
    s.(sources := s.sources[source := content],
       procs := map pid | pid in s.procs :: MarkEdited(s.procs[pid], source))
  }

  function ApplyCrash(s: State, pid: Pid): State {
    s.(procs := s.procs[pid := Idle])
  }

  function ApplyPowerLoss(s: State, names: map<Path, Inode>, data: map<Inode, Bytes>): State {
    State(names, data, s.synced,
          map i | i in s.published && IsLinked(names, ObjectPath(s.published[i]), i) :: s.published[i],
          s.sources, map[], map[])
  }

  function ApplyRead(s: State, r: nat, n: nat): State
    requires r in s.readers && s.readers[r].fd in s.data
    requires |s.readers[r].got| + n <= |s.data[s.readers[r].fd]|
  {
    var reader := s.readers[r];
    var chunk := s.data[reader.fd][|reader.got|..|reader.got| + n];
    s.(readers := s.readers[r := reader.(got := reader.got + chunk)])
  }

  /** The state after a step. */
  ghost function Apply(hash: Hash, s: State, step: Step): State
    requires Enabled(hash, s, step)
  {
    match step
    case StartPutBytes(pid, bytes) => Advance(s, pid, Put(None, bytes, false), Checking)
    case StartPutFile(pid, source) => Advance(s, pid, Put(Some(source), [], false), Hashing)
    case HashChunk(pid, n) =>
      var put := ProcOf(s, pid).put;
      Advance(s, pid, put.(hashed := put.hashed + Chunk(s, put, |put.hashed|, n)), Hashing)
    case HashDone(pid) => Advance(s, pid, ProcOf(s, pid).put, Checking)
    case CheckPresence(pid) =>
      var put := ProcOf(s, pid).put;
      var d := hash(put.hashed);
      Advance(s, pid, put, if ObjectPath(d) in s.names then Returned(Stored(d)) else Creating)
    case CreateTmp(pid, inode) =>
      var put := ProcOf(s, pid).put;
      Advance(CreateFile(s, TmpPath(hash(put.hashed), pid), inode), pid, put,
              Copying(inode, [], if put.source.None? then put.hashed else []))
    case ReadChunk(pid, n) =>
      var p := ProcOf(s, pid);
      Advance(s, pid, p.put, Copying(p.at.fd, p.at.written, Chunk(s, p.put, |p.at.written|, n)))
    case WriteChunk(pid, n) =>
      var p := ProcOf(s, pid);
      var written := p.at.written + p.at.buf[..n];
      Advance(WriteFile(s, p.at.fd, written), pid, p.put, Copying(p.at.fd, written, p.at.buf[n..]))
    case Sync(pid) =>
      var p := ProcOf(s, pid);
      Advance(SyncFile(s, p.at.fd), pid, p.put, Verifying(p.at.fd, p.at.written))
    case Verify(pid) =>
      var p := ProcOf(s, pid);
      var differs := p.put.source.Some? && hash(p.at.written) != hash(p.put.hashed);
      Advance(s, pid, p.put, if differs then Discarding(Failed(HashMismatch)) else Renaming(p.at.fd))
    case RenameReplaces(pid) =>
      var put := ProcOf(s, pid).put;
      var d := hash(put.hashed);
      Advance(Publish(s, TmpPath(d, pid), d), pid, put, Returned(Stored(d)))
    case RenameFindsTarget(pid) =>
      var put := ProcOf(s, pid).put;
      Advance(s, pid, put, Discarding(Stored(hash(put.hashed))))
    case RenameFails(pid) => Advance(s, pid, ProcOf(s, pid).put, Discarding(Failed(Io)))
    case RemoveTmp(pid, removed) =>
      var p := ProcOf(s, pid);
      var s1 := if removed then RemoveName(s, TmpPath(hash(p.put.hashed), pid)) else s;
      Advance(s1, pid, p.put, Returned(p.at.outcome))
    case Fail(pid) => Advance(s, pid, ProcOf(s, pid).put, Returned(Failed(Io)))
    case Crash(pid) => ApplyCrash(s, pid)
    case OpenObject(r, d) => s.(readers := s.readers[r := Reader(d, s.names[ObjectPath(d)], [])])
    case ReadObject(r, n) => ApplyRead(s, r, n)
    case Unlink(path) => RemoveName(s, path)
    case EditSource(source, content) => ApplyEdit(s, source, content)
    case PowerLoss(names, data) => ApplyPowerLoss(s, names, data)
  }

  predicate IsLinked(names: map<Path, Inode>, p: Path, i: Inode) {
    p in names && names[p] == i
  }

  // ----- runs -----

  /** `states[i + 1]` is what step `steps[i]` makes of `states[i]`. */
  ghost predicate Follows(hash: Hash, s: State, step: Step, s': State) {
    Enabled(hash, s, step) && s' == Apply(hash, s, step)
  }

  /** A run from a store without objects: one state more than steps. */
  ghost predicate IsRun(hash: Hash, states: seq<State>, steps: seq<Step>) {
    && |states| == |steps| + 1
    && IsInitial(states[0])
    && forall i {:trigger steps[i]} :: 0 <= i < |steps| ==> Follows(hash, states[i], steps[i], states[i + 1])
  }

  /** Nothing has happened yet; the source files hold anything. */
  predicate IsInitial(s: State) {
    s == State(map[], map[], {}, map[], s.sources, map[], map[])
  }

  // ----- the invariant -----

  /** What is true of a process that has its temporary file open or closed but not yet renamed. */
  ghost predicate WriterInv(hash: Hash, s: State, pid: Pid, put: Put, fd: Inode, written: Bytes) {
    var tmp := TmpPath(hash(put.hashed), pid);
    && fd in s.data && s.data[fd] == written
    && fd !in s.published
    && (tmp in s.names ==> s.names[tmp] == fd)
    && (forall p :: p in s.names && s.names[p] == fd ==> p == tmp)
  }

  /** A second pass over an unedited source reads what the first pass hashed. */
  ghost predicate SourceInv(s: State, put: Put, copied: Bytes) {
    && (put.source.None? ==> copied == put.hashed)
    && (put.source.Some? && !put.edited ==>
          put.hashed == Content(s, put.source.value) && copied <= put.hashed)
  }

  ghost predicate ProcInv(hash: Hash, s: State, pid: Pid, put: Put, at: Stage) {
    match at
    case Hashing => put.source.Some? && (!put.edited ==> put.hashed <= Content(s, put.source.value))
    case Checking => SourceInv(s, put, put.hashed)
    case Creating => SourceInv(s, put, put.hashed)
    case Copying(fd, written, buf) =>
      WriterInv(hash, s, pid, put, fd, written) && SourceInv(s, put, written + buf)
    case Verifying(fd, written) =>
      && WriterInv(hash, s, pid, put, fd, written)
      && fd in s.synced
      && SourceInv(s, put, put.hashed)
      && (put.source.None? || !put.edited ==> written == put.hashed)
    case Renaming(fd) =>
      && fd in s.data
      && WriterInv(hash, s, pid, put, fd, s.data[fd])
      && fd in s.synced
      && SourceInv(s, put, put.hashed)
      && hash(s.data[fd]) == hash(put.hashed)
    case Discarding(outcome) => OutcomeInv(hash, s, put, outcome)
    case Returned(outcome) => OutcomeInv(hash, s, put, outcome)
  }

  /** The digest returned is that of the bytes given, and a mismatch means that the source was edited. */
  ghost predicate OutcomeInv(hash: Hash, s: State, put: Put, outcome: Outcome) {
    match outcome
    case Stored(d) => d == hash(put.hashed) && SourceInv(s, put, put.hashed)
    case Failed(HashMismatch) => put.source.Some? && put.edited
    case Failed(Io) => true
  }

  ghost predicate NamesInv(s: State) {
    && (forall p :: p in s.names ==> s.names[p] in s.data)
    && (forall p, q :: p in s.names && q in s.names && s.names[p] == s.names[q] ==> p == q)
    && (forall d: Sha256Digest :: ObjectPath(d) in s.names ==>
          s.names[ObjectPath(d)] in s.published && s.published[s.names[ObjectPath(d)]] == d)
    && (forall p :: p in s.names && s.names[p] in s.published ==>
          p == ObjectPath(s.published[s.names[p]]))
  }

  ghost predicate PublishedInv(hash: Hash, s: State) {
    forall i :: i in s.published ==>
      i in s.data && i in s.synced && hash(s.data[i]) == s.published[i]
  }

  ghost predicate ReadersInv(s: State) {
    forall r :: r in s.readers ==>
      var reader := s.readers[r];
      && reader.fd in s.published && s.published[reader.fd] == reader.digest
      && reader.fd in s.data && reader.got <= s.data[reader.fd]
  }

  ghost predicate ProcInvOf(hash: Hash, s: State, pid: Pid) {
    pid in s.procs && s.procs[pid].Running? ==> ProcInv(hash, s, pid, s.procs[pid].put, s.procs[pid].at)
  }

  function FdOf(p: Proc): Option<Inode> {
    if p.Running? && (p.at.Copying? || p.at.Verifying? || p.at.Renaming?) then Some(p.at.fd) else None
  }

  /** No two processes write one file. */
  ghost predicate FdsInv(s: State) {
    forall p, q :: p in s.procs && q in s.procs && p != q && FdOf(s.procs[p]).Some? ==>
      FdOf(s.procs[p]) != FdOf(s.procs[q])
  }

  ghost predicate DiskInv(hash: Hash, s: State) {
    NamesInv(s) && PublishedInv(hash, s) && ReadersInv(s) && FdsInv(s)
  }

  ghost predicate Inv(hash: Hash, s: State) {
    DiskInv(hash, s) && forall pid :: ProcInvOf(hash, s, pid)
  }

  /** The invariant while `pid` is in the middle of a step. */
  ghost predicate InvExcept(hash: Hash, s: State, pid: Pid) {
    DiskInv(hash, s) && forall q :: q != pid ==> ProcInvOf(hash, s, q)
  }

  // ----- every step keeps the invariant -----

  /** What the invariant of a process rests on, besides its own stage. */
  ghost predicate LeavesAlone(s: State, s': State, q: Pid) {
    && q in s.procs && q in s'.procs && s'.procs[q] == s.procs[q] && s'.sources == s.sources
    && (FdOf(s.procs[q]).Some? ==> LeavesFile(s, s', FdOf(s.procs[q]).value))
  }

  ghost predicate LeavesFile(s: State, s': State, fd: Inode) {
    && (fd in s.data ==> fd in s'.data && s'.data[fd] == s.data[fd])
    && (fd in s.synced ==> fd in s'.synced)
    && (fd !in s.published ==> fd !in s'.published)
    && (forall p :: p in s'.names && s'.names[p] == fd ==> p in s.names && s.names[p] == fd)
    && (forall p :: p in s.names && p in s'.names && s.names[p] == fd ==> s'.names[p] == fd)
  }

  lemma ProcFrame(hash: Hash, s: State, s': State, q: Pid)
    requires ProcInvOf(hash, s, q) && LeavesAlone(s, s', q)
    requires FdOf(s.procs[q]).Some? ==>
               var tmp := TmpPath(hash(s.procs[q].put.hashed), q); tmp in s'.names ==> tmp in s.names
    ensures ProcInvOf(hash, s', q)
  {
    var p := s.procs[q];
    if p.Running? && FdOf(p).Some? {
      var fd, written := p.at.fd, if p.at.Renaming? then s.data[p.at.fd] else p.at.written;
      assert WriterInv(hash, s, q, p.put, fd, written);
      assert WriterInv(hash, s', q, p.put, fd, written);
    }
  }

  lemma AdvanceKeepsDisk(hash: Hash, s: State, pid: Pid, put: Put, at: Stage)
    requires DiskInv(hash, s)
    requires FdOf(Running(put, at)).Some? ==>
               forall q :: q in s.procs && q != pid ==> FdOf(s.procs[q]) != FdOf(Running(put, at))
    ensures DiskInv(hash, Advance(s, pid, put, at))
  {
  }

  lemma AdvanceKeepsProcs(hash: Hash, s: State, pid: Pid, put: Put, at: Stage)
    requires forall q :: q != pid ==> ProcInvOf(hash, s, q)
    requires ProcInv(hash, s, pid, put, at)
    ensures forall q :: ProcInvOf(hash, Advance(s, pid, put, at), q)
  {
    var s' := Advance(s, pid, put, at);
    forall q
      ensures ProcInvOf(hash, s', q)
    {
      if q == pid {
        ProcInvIgnoresProcs(hash, s, s', pid, put, at);
      } else if q in s.procs {
        assert ProcInvOf(hash, s, q);
        ProcFrame(hash, s, s', q);
      }
    }
  }

  /** Moving on to a stage whose own invariant holds completes a step. */
  lemma AdvanceKeeps(hash: Hash, s: State, pid: Pid, put: Put, at: Stage)
    requires InvExcept(hash, s, pid) && ProcInv(hash, s, pid, put, at)
    requires FdOf(Running(put, at)).Some? ==>
               forall q :: q in s.procs && q != pid ==> FdOf(s.procs[q]) != FdOf(Running(put, at))
    ensures Inv(hash, Advance(s, pid, put, at))
  {
    AdvanceKeepsDisk(hash, s, pid, put, at);
    AdvanceKeepsProcs(hash, s, pid, put, at);
  }

  lemma ProcInvIgnoresProcs(hash: Hash, s: State, s': State, pid: Pid, put: Put, at: Stage)
    requires ProcInv(hash, s, pid, put, at) && s' == s.(procs := s'.procs)
    ensures ProcInv(hash, s', pid, put, at)
  {
    match at {
      case Copying(fd, written, _) => assert WriterInv(hash, s', pid, put, fd, written);
      case Verifying(fd, written) => assert WriterInv(hash, s', pid, put, fd, written);
      case Renaming(fd) => assert WriterInv(hash, s', pid, put, fd, s.data[fd]);
      case _ =>
    }
  }

  lemma NewFile(hash: Hash, s: State, pid: Pid, d: Sha256Digest, inode: Inode)
    requires Inv(hash, s)
    requires var tmp := TmpPath(d, pid); if tmp in s.names then inode == s.names[tmp] else inode !in s.data
    ensures inode !in s.published
    ensures forall p :: p in s.names && s.names[p] == inode ==> p == TmpPath(d, pid)
    ensures forall q :: q in s.procs && q != pid ==> FdOf(s.procs[q]) != Some(inode)
  {
    var tmp := TmpPath(d, pid);
    forall q | q in s.procs && q != pid
      ensures FdOf(s.procs[q]) != Some(inode)
    {
      assert ProcInvOf(hash, s, q);
    }
  }

  lemma CreateFileKeepsDisk(hash: Hash, s: State, tmp: Path, inode: Inode)
    requires DiskInv(hash, s) && tmp.TmpPath? && inode !in s.published
    requires forall p :: p in s.names && s.names[p] == inode ==> p == tmp
    ensures DiskInv(hash, CreateFile(s, tmp, inode))
  {
    assert NamesInv(CreateFile(s, tmp, inode));
  }

  lemma CreateFileLeaves(hash: Hash, s: State, tmp: Path, inode: Inode, q: Pid)
    requires ProcInvOf(hash, s, q) && q in s.procs && s.procs[q].Running? && FdOf(s.procs[q]) != Some(inode)
    requires TmpPath(hash(s.procs[q].put.hashed), q) != tmp
    requires forall p :: p in s.names && s.names[p] == inode ==> p == tmp
    requires tmp in s.names ==> s.names[tmp] == inode
    ensures ProcInvOf(hash, CreateFile(s, tmp, inode), q)
  {
    hide ProcInvOf;
    ProcFrame(hash, s, CreateFile(s, tmp, inode), q);
  }

  lemma CreateFileKeeps(hash: Hash, s: State, pid: Pid, d: Sha256Digest, inode: Inode)
    requires Inv(hash, s)
    requires var tmp := TmpPath(d, pid); if tmp in s.names then inode == s.names[tmp] else inode !in s.data
    ensures InvExcept(hash, CreateFile(s, TmpPath(d, pid), inode), pid)
  {
    var tmp := TmpPath(d, pid);
    var s' := CreateFile(s, tmp, inode);
    NewFile(hash, s, pid, d, inode);
    hide DiskInv, ProcInv, FdOf;
    CreateFileKeepsDisk(hash, s, tmp, inode);
    forall q | q != pid
      ensures ProcInvOf(hash, s', q)
    {
      assert ProcInvOf(hash, s, q);
      if q in s.procs && s.procs[q].Running? {
        CreateFileLeaves(hash, s, tmp, inode, q);
      }
    }
  }

  lemma WriteFileKeeps(hash: Hash, s: State, pid: Pid, bytes: Bytes)
    requires Inv(hash, s) && pid in s.procs && FdOf(s.procs[pid]).Some?
    ensures InvExcept(hash, WriteFile(s, s.procs[pid].at.fd, bytes), pid)
  {
    var fd := s.procs[pid].at.fd;
    assert ProcInvOf(hash, s, pid);
    var s' := WriteFile(s, fd, bytes);
    forall q | q != pid
      ensures ProcInvOf(hash, s', q)
    {
      assert ProcInvOf(hash, s, q);
      if q in s.procs {
        assert FdOf(s.procs[q]) != Some(fd);
        ProcFrame(hash, s, s', q);
      }
    }
  }

  lemma SyncFileKeeps(hash: Hash, s: State, pid: Pid, i: Inode)
    requires Inv(hash, s)
    ensures InvExcept(hash, SyncFile(s, i), pid)
  {
    var s' := SyncFile(s, i);
    forall q | q != pid
      ensures ProcInvOf(hash, s', q)
    {
      assert ProcInvOf(hash, s, q);
      if q in s.procs {
        ProcFrame(hash, s, s', q);
      }
    }
  }

  lemma RemoveNameKeepsDisk(hash: Hash, s: State, p: Path)
    requires DiskInv(hash, s)
    ensures DiskInv(hash, RemoveName(s, p))
  {
    var s' := RemoveName(s, p);
    assert forall q :: q in s'.names ==> q in s.names && s'.names[q] == s.names[q];
    assert NamesInv(s');
  }

  lemma RemoveNameKeepsProcs(hash: Hash, s: State, p: Path)
    requires forall q :: ProcInvOf(hash, s, q)
    ensures forall q :: ProcInvOf(hash, RemoveName(s, p), q)
  {
    var s' := RemoveName(s, p);
    forall q
      ensures ProcInvOf(hash, s', q)
    {
      assert ProcInvOf(hash, s, q);
      if q in s.procs {
        ProcFrame(hash, s, s', q);
      }
    }
  }

  lemma RemoveNameKeeps(hash: Hash, s: State, p: Path)
    requires Inv(hash, s)
    ensures Inv(hash, RemoveName(s, p))
  {
    RemoveNameKeepsDisk(hash, s, p);
    RemoveNameKeepsProcs(hash, s, p);
  }

  lemma PublishKeepsDisk(hash: Hash, s: State, tmp: Path, d: Sha256Digest)
    requires DiskInv(hash, s)
    requires tmp in s.names && s.names[tmp] !in s.published && (forall e :: tmp != ObjectPath(e))
    requires s.names[tmp] in s.data && s.names[tmp] in s.synced && hash(s.data[s.names[tmp]]) == d
    ensures DiskInv(hash, Publish(s, tmp, d))
  {
    var s' := Publish(s, tmp, d);
    assert NamesInv(s');
  }

  lemma PublishLeaves(hash: Hash, s: State, tmp: Path, d: Sha256Digest, q: Pid, fd: Inode)
    requires DiskInv(hash, s) && ProcInvOf(hash, s, q) && q in s.procs && FdOf(s.procs[q]) == Some(fd)
    requires tmp in s.names && s.names[tmp] != fd
    ensures LeavesFile(s, Publish(s, tmp, d), fd)
    ensures TmpPath(hash(s.procs[q].put.hashed), q) in Publish(s, tmp, d).names ==>
              TmpPath(hash(s.procs[q].put.hashed), q) in s.names
  {
    var s' := Publish(s, tmp, d);
    assert fd !in s.published;
    assert ObjectPath(d) in s.names ==> s.names[ObjectPath(d)] != fd;
  }

  lemma PublishKeeps(hash: Hash, s: State, pid: Pid)
    requires Inv(hash, s) && Enabled(hash, s, RenameReplaces(pid))
    ensures var d := hash(s.procs[pid].put.hashed);
      InvExcept(hash, Publish(s, TmpPath(d, pid), d), pid)
  {
    var put, fd := s.procs[pid].put, s.procs[pid].at.fd;
    var d := hash(put.hashed);
    var tmp := TmpPath(d, pid);
    assert ProcInvOf(hash, s, pid);
    assert WriterInv(hash, s, pid, put, fd, s.data[fd]);
    var s' := Publish(s, tmp, d);
    assert InvExcept(hash, s, pid);
    assert forall e :: tmp != ObjectPath(e);
    PublishKeepsDisk(hash, s, tmp, d);
    forall q | q != pid
      ensures ProcInvOf(hash, s', q)
    {
      assert ProcInvOf(hash, s, q);
      if q in s.procs {
        assert FdOf(s.procs[q]) != Some(fd);
        if FdOf(s.procs[q]).Some? {
          PublishLeaves(hash, s, tmp, d, q, FdOf(s.procs[q]).value);
        }
        ProcFrame(hash, s, s', q);
      }
    }
  }

  lemma EditKeepsDisk(hash: Hash, s: State, source: Source, content: Bytes)
    requires DiskInv(hash, s)
    ensures DiskInv(hash, ApplyEdit(s, source, content))
  {
    var s' := ApplyEdit(s, source, content);
    forall q | q in s.procs
      ensures FdOf(s'.procs[q]) == FdOf(s.procs[q])
    {
    }
    assert FdsInv(s');
  }

  lemma EditKeepsProc(hash: Hash, s: State, q: Pid, source: Source, content: Bytes)
    requires q in s.procs && s.procs[q].Running? && ProcInvOf(hash, s, q)
    ensures ProcInvOf(hash, ApplyEdit(s, source, content), q)
  {
    var s' := ApplyEdit(s, source, content);
    var p, p' := s.procs[q], s'.procs[q];
    if FdOf(p).Some? {
      var fd, written := p.at.fd, if p.at.Renaming? then s.data[p.at.fd] else p.at.written;
      assert WriterInv(hash, s, q, p.put, fd, written);
      assert WriterInv(hash, s', q, p'.put, fd, written);
    }
  }

  lemma EditKeepsProcs(hash: Hash, s: State, source: Source, content: Bytes)
    requires forall q :: ProcInvOf(hash, s, q)
    ensures forall q :: ProcInvOf(hash, ApplyEdit(s, source, content), q)
  {
    forall q
      ensures ProcInvOf(hash, ApplyEdit(s, source, content), q)
    {
      assert ProcInvOf(hash, s, q);
      if q in s.procs && s.procs[q].Running? {
        EditKeepsProc(hash, s, q, source, content);
      }
    }
  }

  lemma EditKeeps(hash: Hash, s: State, source: Source, content: Bytes)
    requires Inv(hash, s)
    ensures Inv(hash, ApplyEdit(s, source, content))
  {
    EditKeepsDisk(hash, s, source, content);
    EditKeepsProcs(hash, s, source, content);
  }

  lemma PowerLossKeeps(hash: Hash, s: State, names: map<Path, Inode>, data: map<Inode, Bytes>)
    requires Inv(hash, s) && PowerLossAllows(s, names, data)
    ensures Inv(hash, ApplyPowerLoss(s, names, data))
  {
  }

  lemma ReaderLeaves(hash: Hash, s: State, s': State, q: Pid)
    requires ProcInvOf(hash, s, q) && s' == s.(readers := s'.readers)
    ensures ProcInvOf(hash, s', q)
  {
    if q in s.procs {
      hide ProcInvOf;
      ProcFrame(hash, s, s', q);
    }
  }

  lemma ReaderKeeps(hash: Hash, s: State, r: nat, reader: Reader)
    requires Inv(hash, s)
    requires reader.fd in s.published && s.published[reader.fd] == reader.digest
    requires reader.fd in s.data && reader.got <= s.data[reader.fd]
    ensures Inv(hash, s.(readers := s.readers[r := reader]))
  {
    var s' := s.(readers := s.readers[r := reader]);
    assert DiskInv(hash, s') by { hide ProcInvOf; }
    hide DiskInv, ProcInvOf;
    forall q
      ensures ProcInvOf(hash, s', q)
    {
      ReaderLeaves(hash, s, s', q);
    }
  }

  // The steps of a put, stage by stage.

  /** What a step of `pid` starts from. */
  lemma InvAt(hash: Hash, s: State, pid: Pid)
    requires Inv(hash, s)
    ensures InvExcept(hash, s, pid) && ProcInvOf(hash, s, pid)
    ensures pid in s.procs && FdOf(s.procs[pid]).Some? ==>
              forall q :: q in s.procs && q != pid ==> FdOf(s.procs[q]) != FdOf(s.procs[pid])
  {
    hide NamesInv, PublishedInv, ReadersInv, ProcInvOf;
  }

  lemma CreatedIsOwn(hash: Hash, s: State, pid: Pid, put: Put, inode: Inode)
    requires Inv(hash, s)
    requires var tmp := TmpPath(hash(put.hashed), pid);
      if tmp in s.names then inode == s.names[tmp] else inode !in s.data
    ensures WriterInv(hash, CreateFile(s, TmpPath(hash(put.hashed), pid), inode), pid, put, inode, [])
  {
    NewFile(hash, s, pid, hash(put.hashed), inode);
    hide Inv;
  }

  lemma CreateTmpKeeps(hash: Hash, s: State, pid: Pid, inode: Inode)
    requires Inv(hash, s) && Enabled(hash, s, CreateTmp(pid, inode))
    ensures Inv(hash, Apply(hash, s, CreateTmp(pid, inode)))
  {
    hide Inv, InvExcept, WriterInv;
    var put := s.procs[pid].put;
    var d := hash(put.hashed);
    var s1 := CreateFile(s, TmpPath(d, pid), inode);
    var buf := if put.source.None? then put.hashed else [];
    InvAt(hash, s, pid);
    NewFile(hash, s, pid, d, inode);
    CreateFileKeeps(hash, s, pid, d, inode);
    CreatedIsOwn(hash, s, pid, put, inode);
    assert [] + buf == buf;
    AdvanceKeeps(hash, s1, pid, put, Copying(inode, [], buf));
  }

  lemma WriteChunkKeeps(hash: Hash, s: State, pid: Pid, n: nat)
    requires Inv(hash, s) && Enabled(hash, s, WriteChunk(pid, n))
    ensures Inv(hash, Apply(hash, s, WriteChunk(pid, n)))
  {
    hide Inv, InvExcept;
    var p := s.procs[pid];
    var fd, written, buf := p.at.fd, p.at.written + p.at.buf[..n], p.at.buf[n..];
    InvAt(hash, s, pid);
    assert written + buf == p.at.written + p.at.buf;
    WriteFileKeeps(hash, s, pid, written);
    AdvanceKeeps(hash, WriteFile(s, fd, written), pid, p.put, Copying(fd, written, buf));
  }

  lemma ReadChunkKeeps(hash: Hash, s: State, pid: Pid, n: nat)
    requires Inv(hash, s) && Enabled(hash, s, ReadChunk(pid, n))
    ensures Inv(hash, Apply(hash, s, ReadChunk(pid, n)))
  {
    hide Inv, InvExcept, WriterInv;
    var p := s.procs[pid];
    var fd, written := p.at.fd, p.at.written;
    InvAt(hash, s, pid);
    assert written + [] == written;
    AdvanceKeeps(hash, s, pid, p.put, Copying(fd, written, Chunk(s, p.put, |written|, n)));
  }

  lemma SyncKeeps(hash: Hash, s: State, pid: Pid)
    requires Inv(hash, s) && Enabled(hash, s, Sync(pid))
    ensures Inv(hash, Apply(hash, s, Sync(pid)))
  {
    hide Inv, InvExcept;
    var p := s.procs[pid];
    var fd, written := p.at.fd, p.at.written;
    InvAt(hash, s, pid);
    assert written + [] == written;
    SyncFileKeeps(hash, s, pid, fd);
    AdvanceKeeps(hash, SyncFile(s, fd), pid, p.put, Verifying(fd, written));
  }

  lemma VerifyKeeps(hash: Hash, s: State, pid: Pid)
    requires Inv(hash, s) && Enabled(hash, s, Verify(pid))
    ensures Inv(hash, Apply(hash, s, Verify(pid)))
  {
    hide Inv, InvExcept;
    var p := s.procs[pid];
    var fd, written := p.at.fd, p.at.written;
    InvAt(hash, s, pid);
    var differs := p.put.source.Some? && hash(written) != hash(p.put.hashed);
    AdvanceKeeps(hash, s, pid, p.put, if differs then Discarding(Failed(HashMismatch)) else Renaming(fd));
  }

  lemma RenameKeeps(hash: Hash, s: State, pid: Pid)
    requires Inv(hash, s) && Enabled(hash, s, RenameReplaces(pid))
    ensures Inv(hash, Apply(hash, s, RenameReplaces(pid)))
  {
    hide Inv, InvExcept, WriterInv;
    var put := s.procs[pid].put;
    var d := hash(put.hashed);
    InvAt(hash, s, pid);
    PublishKeeps(hash, s, pid);
    AdvanceKeeps(hash, Publish(s, TmpPath(d, pid), d), pid, put, Returned(Stored(d)));
  }

  lemma RemoveTmpKeeps(hash: Hash, s: State, pid: Pid, removed: bool)
    requires Inv(hash, s) && Enabled(hash, s, RemoveTmp(pid, removed))
    ensures Inv(hash, Apply(hash, s, RemoveTmp(pid, removed)))
  {
    hide Inv, InvExcept;
    var put := s.procs[pid].put;
    var tmp := TmpPath(hash(put.hashed), pid);
    var s1 := if removed then RemoveName(s, tmp) else s;
    RemoveNameKeeps(hash, s, tmp);
    InvAt(hash, s1, pid);
    AdvanceKeeps(hash, s1, pid, put, Returned(s.procs[pid].at.outcome));
  }

  /** A step that only moves a process on to a stage without a file. */
  lemma MovesOn(hash: Hash, s: State, step: Step, pid: Pid, put: Put, at: Stage)
    requires Inv(hash, s) && Enabled(hash, s, step) && Apply(hash, s, step) == Advance(s, pid, put, at)
    requires ProcInv(hash, s, pid, put, at) && FdOf(Running(put, at)).None?
    ensures Inv(hash, Apply(hash, s, step))
  {
    hide *;
    InvAt(hash, s, pid);
    AdvanceKeeps(hash, s, pid, put, at);
  }

  lemma ReportKeeps(hash: Hash, s: State, step: Step)
    requires Inv(hash, s) && Enabled(hash, s, step)
    requires step.RenameFindsTarget? || step.RenameFails? || step.Fail?
    ensures Inv(hash, Apply(hash, s, step))
  {
    hide Inv, InvExcept, WriterInv, Advance;
    var pid := step.pid;
    var put := s.procs[pid].put;
    InvAt(hash, s, pid);
    match step {
      case RenameFindsTarget(_) => MovesOn(hash, s, step, pid, put, Discarding(Stored(hash(put.hashed))));
      case RenameFails(_) => MovesOn(hash, s, step, pid, put, Discarding(Failed(Io)));
      case Fail(_) => MovesOn(hash, s, step, pid, put, Returned(Failed(Io)));
    }
  }

  lemma StartKeeps(hash: Hash, s: State, step: Step)
    requires Inv(hash, s) && Enabled(hash, s, step) && (step.StartPutBytes? || step.StartPutFile?)
    ensures Inv(hash, Apply(hash, s, step))
  {
    hide Inv, WriterInv, Advance;
    match step {
      case StartPutBytes(pid, bytes) => MovesOn(hash, s, step, pid, Put(None, bytes, false), Checking);
      case StartPutFile(pid, source) => MovesOn(hash, s, step, pid, Put(Some(source), [], false), Hashing);
    }
  }

  lemma HashChunkKeeps(hash: Hash, s: State, pid: Pid, n: nat)
    requires Inv(hash, s) && Enabled(hash, s, HashChunk(pid, n))
    ensures Inv(hash, Apply(hash, s, HashChunk(pid, n)))
  {
    hide Inv, InvExcept, WriterInv, Advance;
    var put := s.procs[pid].put;
    InvAt(hash, s, pid);
    MovesOn(hash, s, HashChunk(pid, n), pid, put.(hashed := put.hashed + Chunk(s, put, |put.hashed|, n)), Hashing);
  }

  lemma CheckKeeps(hash: Hash, s: State, step: Step)
    requires Inv(hash, s) && Enabled(hash, s, step) && (step.HashDone? || step.CheckPresence?)
    ensures Inv(hash, Apply(hash, s, step))
  {
    hide Inv, InvExcept, WriterInv, Advance;
    var pid := step.pid;
    var put := s.procs[pid].put;
    var d := hash(put.hashed);
    InvAt(hash, s, pid);
    MovesOn(hash, s, step, pid, put,
            if step.HashDone? then Checking else if ObjectPath(d) in s.names then Returned(Stored(d)) else Creating);
  }

  lemma CrashKeepsProcs(hash: Hash, s: State, pid: Pid)
    requires forall q :: ProcInvOf(hash, s, q)
    ensures forall q :: ProcInvOf(hash, ApplyCrash(s, pid), q)
  {
    var s' := ApplyCrash(s, pid);
    forall q
      ensures ProcInvOf(hash, s', q)
    {
      assert ProcInvOf(hash, s, q);
      if q != pid && q in s.procs {
        ProcFrame(hash, s, s', q);
      }
    }
  }

  lemma CrashKeeps(hash: Hash, s: State, pid: Pid)
    requires Inv(hash, s)
    ensures Inv(hash, ApplyCrash(s, pid))
  {
    assert DiskInv(hash, ApplyCrash(s, pid));
    CrashKeepsProcs(hash, s, pid);
  }

  lemma ReadKeeps(hash: Hash, s: State, r: nat, n: nat)
    requires Inv(hash, s) && r in s.readers && s.readers[r].fd in s.data
    requires |s.readers[r].got| + n <= |s.data[s.readers[r].fd]|
    ensures Inv(hash, ApplyRead(s, r, n))
  {
    hide NamesInv, PublishedInv, FdsInv, ProcInvOf;
    ReaderKeeps(hash, s, r, ApplyRead(s, r, n).readers[r]);
  }

  lemma OpenKeeps(hash: Hash, s: State, r: nat, d: Sha256Digest)
    requires Inv(hash, s) && ObjectPath(d) in s.names && s.names[ObjectPath(d)] in s.data
    ensures Inv(hash, s.(readers := s.readers[r := Reader(d, s.names[ObjectPath(d)], [])]))
  {
    hide PublishedInv, FdsInv, ReadersInv, ProcInvOf;
    ReaderKeeps(hash, s, r, Reader(d, s.names[ObjectPath(d)], []));
  }

  /** A system call of a put. */
  predicate IsPutStep(step: Step) {
    !(step.Crash? || step.OpenObject? || step.ReadObject? || step.Unlink? || step.EditSource? || step.PowerLoss?)
  }

  lemma PutStepKeeps(hash: Hash, s: State, step: Step)
    requires Inv(hash, s) && Enabled(hash, s, step) && IsPutStep(step)
    ensures Inv(hash, Apply(hash, s, step))
  {
    hide Inv, Enabled, Apply;
    match step {
      case StartPutBytes(_, _) => StartKeeps(hash, s, step);
      case StartPutFile(_, _) => StartKeeps(hash, s, step);
      case HashChunk(pid, n) => HashChunkKeeps(hash, s, pid, n);
      case HashDone(_) => CheckKeeps(hash, s, step);
      case CheckPresence(_) => CheckKeeps(hash, s, step);
      case CreateTmp(pid, inode) => CreateTmpKeeps(hash, s, pid, inode);
      case ReadChunk(pid, n) => ReadChunkKeeps(hash, s, pid, n);
      case WriteChunk(pid, n) => WriteChunkKeeps(hash, s, pid, n);
      case Sync(pid) => SyncKeeps(hash, s, pid);
      case Verify(pid) => VerifyKeeps(hash, s, pid);
      case RenameReplaces(pid) => RenameKeeps(hash, s, pid);
      case RenameFindsTarget(_) => ReportKeeps(hash, s, step);
      case RenameFails(_) => ReportKeeps(hash, s, step);
      case RemoveTmp(pid, removed) => RemoveTmpKeeps(hash, s, pid, removed);
      case Fail(_) => ReportKeeps(hash, s, step);
    }
  }

  lemma OtherStepKeeps(hash: Hash, s: State, step: Step)
    requires Inv(hash, s) && Enabled(hash, s, step) && !IsPutStep(step)
    ensures Inv(hash, Apply(hash, s, step))
  {
    hide Inv, ApplyCrash, ApplyEdit, ApplyPowerLoss, ApplyRead, RemoveName, PowerLossAllows;
    match step {
      case Crash(pid) => CrashKeeps(hash, s, pid);
      case OpenObject(r, d) => OpenKeeps(hash, s, r, d);
      case ReadObject(r, n) => ReadKeeps(hash, s, r, n);
      case Unlink(path) => RemoveNameKeeps(hash, s, path);
      case EditSource(source, content) => EditKeeps(hash, s, source, content);
      case PowerLoss(names, data) => PowerLossKeeps(hash, s, names, data);
    }
  }

  /** Whoever takes a step, and whichever it is, the invariant holds afterwards. */
  lemma StepKeeps(hash: Hash, s: State, step: Step)
    requires Inv(hash, s) && Enabled(hash, s, step)
    ensures Inv(hash, Apply(hash, s, step))
  {
    hide Inv, Enabled, Apply;
    if IsPutStep(step) {
      PutStepKeeps(hash, s, step);
    } else {
      OtherStepKeeps(hash, s, step);
    }
  }

  // ----- what holds of every run -----

  lemma InitialInv(hash: Hash, s: State)
    requires IsInitial(s)
    ensures Inv(hash, s) && StoredInv(s)
  {
  }

  lemma {:induction false} RunInv(hash: Hash, states: seq<State>, steps: seq<Step>, i: nat)
    requires IsRun(hash, states, steps) && i < |states|
    ensures Inv(hash, states[i])
  {
    if i == 0 {
      InitialInv(hash, states[0]);
    } else {
      RunInv(hash, states, steps, i - 1);
      assert Follows(hash, states[i - 1], steps[i - 1], states[i]);
      StepKeeps(hash, states[i - 1], steps[i - 1]);
    }
  }

  /** The file at every object path has the content that its name promises. */
  ghost predicate IsIntact(hash: Hash, s: State) {
    forall d: Sha256Digest :: ObjectPath(d) in s.names ==>
      s.names[ObjectPath(d)] in s.data && hash(s.data[s.names[ObjectPath(d)]]) == d
  }

  lemma InvIntact(hash: Hash, s: State)
    requires Inv(hash, s)
    ensures IsIntact(hash, s)
  {
  }

  /**
   Whatever the processes, crashes, edits, unlinks and power failures did: in no state of any run is
   there an object with less or other content than its digest stands for.
   */
  lemma Integrity(hash: Hash, states: seq<State>, steps: seq<Step>, i: nat)
    requires IsRun(hash, states, steps) && i < |states|
    ensures IsIntact(hash, states[i])
  {
    RunInv(hash, states, steps, i);
    InvIntact(hash, states[i]);
  }

  /** What a reader has so far begins its object; with all of it in hand, the digest is the one asked for. */
  ghost predicate ReadsObject(hash: Hash, s: State, reader: Reader) {
    && reader.fd in s.data && reader.got <= s.data[reader.fd]
    && (|reader.got| == |s.data[reader.fd]| ==> hash(reader.got) == reader.digest)
  }

  lemma InvReader(hash: Hash, s: State, r: nat)
    requires Inv(hash, s) && r in s.readers
    ensures ReadsObject(hash, s, s.readers[r])
  {
    var reader := s.readers[r];
    if |reader.got| == |s.data[reader.fd]| {
      assert reader.got == s.data[reader.fd];
    }
  }

  /** Readers see whole objects even when the object is replaced or unlinked under their hands. */
  lemma ReadersSeeWholeObjects(hash: Hash, states: seq<State>, steps: seq<Step>, i: nat, r: nat)
    requires IsRun(hash, states, steps) && i < |states| && r in states[i].readers
    ensures ReadsObject(hash, states[i], states[i].readers[r])
  {
    RunInv(hash, states, steps, i);
    InvReader(hash, states[i], r);
  }

  /**
   A put that succeeds returns the digest of what it was given: of the bytes, or of the file when
   nobody edited it. Only a put of a file that was edited meanwhile reports a mismatch.
   */
  ghost predicate IsRightOutcome(hash: Hash, s: State, put: Put, outcome: Outcome) {
    match outcome
    case Stored(d) =>
      && d == hash(put.hashed)
      && (put.source.Some? && !put.edited ==> d == hash(Content(s, put.source.value)))
    case Failed(HashMismatch) => put.source.Some? && put.edited
    case Failed(Io) => true
  }

  lemma InvOutcome(hash: Hash, s: State, pid: Pid)
    requires Inv(hash, s) && pid in s.procs && s.procs[pid].Running? && s.procs[pid].at.Returned?
    ensures IsRightOutcome(hash, s, s.procs[pid].put, s.procs[pid].at.outcome)
  {
    assert ProcInvOf(hash, s, pid);
  }

  lemma ReturnedIsRight(hash: Hash, states: seq<State>, steps: seq<Step>, i: nat, pid: Pid)
    requires IsRun(hash, states, steps) && i < |states| && pid in states[i].procs
    requires states[i].procs[pid].Running? && states[i].procs[pid].at.Returned?
    ensures IsRightOutcome(hash, states[i], states[i].procs[pid].put, states[i].procs[pid].at.outcome)
  {
    RunInv(hash, states, steps, i);
    InvOutcome(hash, states[i], pid);
  }

  // ----- objects stay while nobody unlinks -----

  predicate LeavesObjects(step: Step) {
    !step.Unlink? && !step.PowerLoss?
  }

  /** The digest that a process reports, or is about to report, as stored. */
  function Reports(p: Proc): Option<Sha256Digest> {
    if p.Running? && (p.at.Returned? || p.at.Discarding?) && p.at.outcome.Stored?
    then Some(p.at.outcome.digest)
    else None
  }

  ghost predicate StoredInv(s: State) {
    forall pid :: pid in s.procs && Reports(s.procs[pid]).Some? ==>
      ObjectPath(Reports(s.procs[pid]).value) in s.names
  }

  lemma StepKeepsObjects(hash: Hash, s: State, step: Step, d: Sha256Digest)
    requires Enabled(hash, s, step) && LeavesObjects(step)
    ensures ObjectPath(d) in s.names ==> ObjectPath(d) in Apply(hash, s, step).names
  {
  }

  lemma StepKeepsStored(hash: Hash, s: State, step: Step)
    requires StoredInv(s) && Enabled(hash, s, step) && LeavesObjects(step)
    ensures StoredInv(Apply(hash, s, step))
  {
    var s' := Apply(hash, s, step);
    forall pid | pid in s'.procs && Reports(s'.procs[pid]).Some?
      ensures ObjectPath(Reports(s'.procs[pid]).value) in s'.names
    {
      StepKeepsObjects(hash, s, step, Reports(s'.procs[pid]).value);
    }
  }

  lemma {:induction false} RunKeepsStored(hash: Hash, states: seq<State>, steps: seq<Step>, i: nat)
    requires IsRun(hash, states, steps) && i < |states|
    requires forall k :: 0 <= k < i ==> LeavesObjects(steps[k])
    ensures StoredInv(states[i])
  {
    if i == 0 {
      InitialInv(hash, states[0]);
    } else {
      RunKeepsStored(hash, states, steps, i - 1);
      assert Follows(hash, states[i - 1], steps[i - 1], states[i]);
      StepKeepsStored(hash, states[i - 1], steps[i - 1]);
    }
  }

  lemma {:induction false} RunKeepsObjects(hash: Hash, states: seq<State>, steps: seq<Step>, i: nat, j: nat,
                                           d: Sha256Digest)
    requires IsRun(hash, states, steps) && i <= j < |states|
    requires forall k :: i <= k < j ==> LeavesObjects(steps[k])
    requires ObjectPath(d) in states[i].names
    ensures ObjectPath(d) in states[j].names
    decreases j - i
  {
    if i < j {
      RunKeepsObjects(hash, states, steps, i, j - 1, d);
      assert Follows(hash, states[j - 1], steps[j - 1], states[j]);
      StepKeepsObjects(hash, states[j - 1], steps[j - 1], d);
    }
  }

  /** Without a collector or power loss, what any put once reported as stored stays for good. */
  lemma StoredStays(hash: Hash, states: seq<State>, steps: seq<Step>, i: nat, j: nat, pid: Pid)
    requires IsRun(hash, states, steps) && i <= j < |states|
    requires forall k :: 0 <= k < j ==> LeavesObjects(steps[k])
    requires pid in states[i].procs && Reports(states[i].procs[pid]).Some?
    ensures ObjectPath(Reports(states[i].procs[pid]).value) in states[j].names
  {
    RunKeepsStored(hash, states, steps, i);
    RunKeepsObjects(hash, states, steps, i, j, Reports(states[i].procs[pid]).value);
  }
}
