/**
 What runs of whole store operations keep: the directory tree refines a map from digests to contents
 plus a table of roots, and no root dangles.
 */
module StoreRuns {
  import opened Wrappers
  import opened Digest
  import opened VacuoleStore
  import P = VacuoleProtocol
  import Text

  // ----- how the collector reads the store's own names -----

  lemma HexIsAscii(s: string)
    requires IsLowerHex(s)
    ensures |Utf8(s)| == |s|
  {
    Utf8Ascii(s);
  }

  lemma NoDotNoTmp(s: string)
    requires IsLowerHex(s)
    ensures !IsTmpName(s)
  {
    forall i | 0 <= i <= |s| - 4
      ensures !Text.IsAt(s, ".tmp", i)
    {
      assert s[i] != '.' && s[i..i + 4][0] == s[i];
    }
  }

  lemma ShardIsShardName(d: Sha256Digest)
    ensures IsShardName(Shard(d))
  {
    HexBytesLower([d[0]]);
    assert HexBytes([d[0]]) == Shard(d);
    HexIsAscii(Shard(d));
  }

  /** The collector takes an object's path for that object and nothing else. */
  lemma ObjectKeyName(d: Sha256Digest)
    ensures ReadName(ObjectKey(d)) == DigestName(d)
  {
    ShardIsShardName(d);
    HexBytesLower(d[1..]);
    NoDotNoTmp(FileName(d));
    ShardAndFileName(d);
    HexBytesLower(d);
    HexIsAscii(Hex(d));
    ParseHex(d);
  }

  /** The collector takes the temporary files of puts for what they are. */
  lemma TmpKeyName(d: Sha256Digest, pid: nat)
    ensures ReadName(TmpKey(d, pid)) == TmpName
  {
    ShardIsShardName(d);
    P.TmpName(d, pid);
    var name := TmpKey(d, pid).1;
    assert name[62..66] == ".tmp";
    assert Text.IsAt(name, ".tmp", 62);
  }

  // ----- what one collection does -----

  ghost function DigestNamed(t: Tree): set<Key> {
    set k | k in t.names && t.names[k].DigestName?
  }

  /** Every digest-named file is counted once: as reachable or as removed. */
  lemma ReportAddsUp(t: Tree, marked: set<Sha256Digest>, stats: GcStats)
    requires IsTree(t) && IsGcReport(t, marked, stats)
    ensures stats.reachable + stats.removed == |DigestNamed(t)|
  {
    assert DigestNamed(t) == Reached(t, marked) + Doomed(t, marked);
    assert Reached(t, marked) !! Doomed(t, marked);
  }

  /** An object survives exactly when it is marked. */
  lemma ObjectAfterGc(files: map<Key, Node>, marked: set<Sha256Digest>, d: Sha256Digest)
    ensures ObjectKey(d) in Swept(TreeOf(files), marked) <==> ObjectKey(d) in files && d in marked
  {
    hide ReadName, ObjectKey;
    ObjectKeyName(d);
  }

  /** Whatever its name, a file that the collector leaves is marked, or none of its business. */
  lemma SurvivorsAreMarked(files: map<Key, Node>, marked: set<Sha256Digest>, k: Key)
    requires k in Swept(TreeOf(files), marked)
    ensures ReadName(k).DigestName? ==> ReadName(k).digest in marked
    ensures ReadName(k).TmpName? ==> files[k].Folder?
  {
    hide ReadName;
  }

  /** A second collection finds nothing to do. */
  lemma SecondGcRemovesNothing(files: map<Key, Node>, marked: set<Sha256Digest>)
    requires CanSweep(TreeOf(files), marked)
    ensures var files' := Swept(TreeOf(files), marked);
      && CanSweep(TreeOf(files'), marked) && Swept(TreeOf(files'), marked) == files'
      && (forall stats: GcStats :: IsGcReport(TreeOf(files'), marked, stats) ==>
            stats.removed == 0 && stats.bytesReclaimed == 0)
  {
    hide ReadName;
    var files' := Swept(TreeOf(files), marked);
    assert Doomed(TreeOf(files'), marked) == {};
  }

  // ----- runs -----

  datatype Op =
    | PutBytes(data: Bytes)
    | PutFile(first: Bytes, second: Bytes)
    | AddRef(path: seq<string>, digest: Sha256Digest)
    | RemoveRef(path: seq<string>)
    | Gc

  /** A store as it is opened: how it hashes, and the process that opened it. */
  datatype Setup = Setup(hash: Bytes -> Sha256Digest, pid: nat)

  /** An operation that fails leaves the disk alone, but for `put_file`'s temporary file. */
  ghost predicate Succeeds(setup: Setup, disk: Disk, op: Op) {
    match op
    case PutBytes(data) => PutResult(setup.hash, setup.pid, disk, data).Ok?
    case PutFile(first, second) => PutFileResult(setup.hash, setup.pid, disk, first, second).Ok?
    case AddRef(p, _) => CanWriteRef(disk, p)
    case RemoveRef(_) => true
    case Gc => RefsReadable(disk) && CanSweep(TreeOf(disk.files), Marked(disk))
  }

  ghost function Perform(setup: Setup, disk: Disk, op: Op): Disk {
    match op
    case PutBytes(data) => PutDisk(setup.hash, setup.pid, disk, data)
    case PutFile(first, second) => PutFileDisk(setup.hash, setup.pid, disk, first, second)
    case AddRef(p, d) => AddRefDisk(disk, p, d)
    case RemoveRef(p) => RemoveRefDisk(disk, p)
    case Gc =>
      if Succeeds(setup, disk, Gc) then disk.(files := Swept(TreeOf(disk.files), Marked(disk))) else disk
  }

  // ----- the abstract store -----

  datatype Abstract = Abstract(objects: imap<Sha256Digest, Bytes>, roots: map<seq<string>, Sha256Digest>)

  /** Some root names the digest. */
  ghost predicate IsReferred(a: Abstract, d: Sha256Digest) {
    exists p :: p in a.roots && IsRoot(p) && a.roots[p] == d
  }

  ghost function AbstractStep(hash: Bytes -> Sha256Digest, a: Abstract, op: Op): Abstract {
    match op
    case PutBytes(data) =>
      if hash(data) in a.objects then a else a.(objects := a.objects[hash(data) := data])
    case PutFile(first, second) =>
      if hash(first) in a.objects then a else a.(objects := a.objects[hash(first) := second])
    case AddRef(p, d) => a.(roots := a.roots[p := d])
    case RemoveRef(p) => a.(roots := a.roots - {p})
    case Gc =>
      a.(objects := imap d | d in a.objects && IsReferred(a, d) :: a.objects[d])
  }

  ghost function View(disk: Disk): Abstract {
    Abstract(imap d: Sha256Digest | IsStoredIn(disk, d) :: disk.files[ObjectKey(d)].content,
             map p | p in disk.refs && RefDigest(disk.refs[p]).Parsed? :: RefDigest(disk.refs[p]).digest)
  }

  predicate IsStoredIn(disk: Disk, d: Sha256Digest) {
    ObjectKey(d) in disk.files && disk.files[ObjectKey(d)].File?
  }

  /** A file is an object under its own name, with the content that the name promises. */
  ghost predicate IsObject(hash: Bytes -> Sha256Digest, k: Key, node: Node) {
    && node.File? && k == ObjectKey(hash(node.content))
  }

  ghost predicate IsWellFormed(hash: Bytes -> Sha256Digest, disk: Disk) {
    && (forall k :: k in disk.files ==> IsObject(hash, k, disk.files[k]))
    && (forall p :: p in disk.refs ==> exists d: Sha256Digest :: disk.refs[p] == Utf8Text(Hex(d)))
  }

  lemma KeyFacts()
    ensures forall d: Sha256Digest, e: Sha256Digest :: ObjectKey(d) == ObjectKey(e) ==> d == e
    ensures forall d: Sha256Digest, pid: nat, e: Sha256Digest :: TmpKey(d, pid) != ObjectKey(e)
  {
    forall d: Sha256Digest, e: Sha256Digest | ObjectKey(d) == ObjectKey(e)
      ensures d == e
    {
      ObjectKeyInjective(d, e);
    }
    forall d: Sha256Digest, pid: nat, e: Sha256Digest
      ensures TmpKey(d, pid) != ObjectKey(e)
    {
      TmpKeyIsNoObject(d, pid, e);
    }
  }

  lemma EmptyIsWellFormed(hash: Bytes -> Sha256Digest)
    ensures IsWellFormed(hash, EMPTY) && View(EMPTY) == Abstract(imap[], map[])
  {
  }

  lemma RefFacts()
    ensures forall d: Sha256Digest :: RefDigest(Utf8Text(Hex(d))) == Parsed(d)
  {
    forall d: Sha256Digest
      ensures RefDigest(Utf8Text(Hex(d))) == Parsed(d)
    {
      RefDigestHex(d);
    }
  }

  /** On a store that only its own operations have touched, collection never fails. */
  lemma GcSucceeds(setup: Setup, disk: Disk)
    requires IsWellFormed(setup.hash, disk)
    ensures Succeeds(setup, disk, Gc)
  {
    hide ObjectKey, ReadName, RefDigest, Hex;
    RefFacts();
    var t := TreeOf(disk.files);
    forall k | k in disk.files
      ensures !IsObstacle(t.names[k], t.files[k], Marked(disk))
    {
      ObjectKeyName(setup.hash(disk.files[k].content));
    }
  }

  lemma KeepsWellFormed(setup: Setup, disk: Disk, op: Op)
    requires IsWellFormed(setup.hash, disk)
    ensures IsWellFormed(setup.hash, Perform(setup, disk, op))
  {
    hide ObjectKey, TmpKey, ReadName, RefDigest, Hex;
  }

  /** Filling an object's place, and dropping a temporary file, is all the view can see of a put. */
  lemma StoringRefines(setup: Setup, disk: Disk, d: Sha256Digest, tmp: Key, data: Bytes)
    requires forall e :: tmp != ObjectKey(e)
    ensures var disk' := disk.(files := (disk.files - {tmp})[ObjectKey(d) := File(data)]);
      View(disk') == View(disk).(objects := View(disk).objects[d := data])
  {
    hide ObjectKey, RefDigest;
    var disk' := disk.(files := (disk.files - {tmp})[ObjectKey(d) := File(data)]);
    forall e: Sha256Digest
      ensures IsStoredIn(disk', e) <==> e == d || IsStoredIn(disk, e)
      ensures e != d && IsStoredIn(disk, e) ==> disk'.files[ObjectKey(e)] == disk.files[ObjectKey(e)]
    {
      if ObjectKey(e) == ObjectKey(d) {
        ObjectKeyInjective(d, e);
      }
    }
    assert View(disk').objects == View(disk).objects[d := data];
  }

  lemma PutRefines(setup: Setup, disk: Disk, op: Op)
    requires IsWellFormed(setup.hash, disk) && Succeeds(setup, disk, op) && (op.PutBytes? || op.PutFile?)
    ensures View(Perform(setup, disk, op)) == AbstractStep(setup.hash, View(disk), op)
  {
    hide ObjectKey, TmpKey, View;
    KeyFacts();
    var data := if op.PutBytes? then op.data else op.first;
    var d := setup.hash(data);
    assert d in View(disk).objects <==> ObjectKey(d) in disk.files by {
      StoredIffPresent(setup, disk, d);
    }
    StoringRefines(setup, disk, d, TmpKey(d, setup.pid), if op.PutBytes? then op.data else op.second);
  }

  lemma StoredIffPresent(setup: Setup, disk: Disk, d: Sha256Digest)
    requires IsWellFormed(setup.hash, disk)
    ensures d in View(disk).objects <==> ObjectKey(d) in disk.files
  {
    hide ObjectKey, RefDigest;
  }

  lemma RefRefines(setup: Setup, disk: Disk, op: Op)
    requires Succeeds(setup, disk, op) && (op.AddRef? || op.RemoveRef?)
    ensures View(Perform(setup, disk, op)) == AbstractStep(setup.hash, View(disk), op)
  {
    hide ObjectKey, RefDigest, Hex;
    RefFacts();
  }

  lemma MarkedIsRoots(disk: Disk, d: Sha256Digest)
    ensures d in Marked(disk) <==>
              exists p :: p in View(disk).roots && IsRoot(p) && View(disk).roots[p] == d
  {
    hide ObjectKey, Parse, Hex;
    if d in Marked(disk) {
      var p :| p in Readings(disk) && Readings(disk)[p] == Names(d);
      assert p in View(disk).roots && IsRoot(p) && View(disk).roots[p] == d;
    }
    if p :| p in View(disk).roots && IsRoot(p) && View(disk).roots[p] == d {
      assert Readings(disk)[p] == Names(d);
    }
  }

  lemma GcRefines(setup: Setup, disk: Disk)
    requires IsWellFormed(setup.hash, disk)
    ensures View(Perform(setup, disk, Gc)) == AbstractStep(setup.hash, View(disk), Gc)
  {
    hide ObjectKey, ReadName, RefDigest, Hex, Marked;
    GcSucceeds(setup, disk);
    var after, a := Perform(setup, disk, Gc), AbstractStep(setup.hash, View(disk), Gc);
    forall d: Sha256Digest
      ensures IsStoredIn(after, d) <==> d in a.objects
    {
      ObjectAfterGc(disk.files, Marked(disk), d);
      MarkedIsRoots(disk, d);
    }
    assert View(after).objects == a.objects;
  }

  /** A failed operation changes nothing that the abstract store shows. */
  lemma FailureStutters(setup: Setup, disk: Disk, op: Op)
    requires IsWellFormed(setup.hash, disk) && !Succeeds(setup, disk, op)
    ensures View(Perform(setup, disk, op)) == View(disk)
  {
    hide ObjectKey, TmpKey, ReadName, RefDigest;
    if op.PutFile? {
      KeyFacts();
      var disk' := Perform(setup, disk, op);
      assert forall e: Sha256Digest :: IsStoredIn(disk', e) <==> IsStoredIn(disk, e);
      assert View(disk').objects == View(disk).objects;
    }
  }

  /** Each operation does to the view what its abstract counterpart says, or nothing when it fails. */
  lemma Refines(setup: Setup, disk: Disk, op: Op)
    requires IsWellFormed(setup.hash, disk)
    ensures View(Perform(setup, disk, op)) ==
              if Succeeds(setup, disk, op) then AbstractStep(setup.hash, View(disk), op) else View(disk)
  {
    hide View, Perform, AbstractStep, IsWellFormed;
    if !Succeeds(setup, disk, op) {
      FailureStutters(setup, disk, op);
    } else if op.PutBytes? || op.PutFile? {
      PutRefines(setup, disk, op);
    } else if op.Gc? {
      GcRefines(setup, disk);
    } else {
      RefRefines(setup, disk, op);
    }
  }

  // ----- whole runs -----

  ghost predicate IsRun(setup: Setup, disks: seq<Disk>, ops: seq<Op>) {
    && |disks| == |ops| + 1
    && disks[0] == EMPTY
    && forall i {:trigger ops[i]} :: 0 <= i < |ops| ==> disks[i + 1] == Perform(setup, disks[i], ops[i])
  }

  lemma {:induction false} RunWellFormed(setup: Setup, disks: seq<Disk>, ops: seq<Op>, i: nat)
    requires IsRun(setup, disks, ops) && i < |disks|
    ensures IsWellFormed(setup.hash, disks[i])
  {
    hide IsWellFormed, Perform;
    if i == 0 {
      EmptyIsWellFormed(setup.hash);
    } else {
      RunWellFormed(setup, disks, ops, i - 1);
      KeepsWellFormed(setup, disks[i - 1], ops[i - 1]);
    }
  }

  /** Throughout a run the disk refines the abstract store, and collection succeeds whenever it is called. */
  lemma RunRefines(setup: Setup, disks: seq<Disk>, ops: seq<Op>, i: nat)
    requires IsRun(setup, disks, ops) && i < |ops|
    ensures View(disks[i + 1]) ==
              if Succeeds(setup, disks[i], ops[i])
              then AbstractStep(setup.hash, View(disks[i]), ops[i])
              else View(disks[i])
    ensures ops[i] == Gc ==> Succeeds(setup, disks[i], ops[i])
    ensures forall d: Sha256Digest :: d in View(disks[i]).objects ==> setup.hash(View(disks[i]).objects[d]) == d
  {
    hide View, Perform, AbstractStep, IsWellFormed, Succeeds;
    RunWellFormed(setup, disks, ops, i);
    Refines(setup, disks[i], ops[i]);
    if ops[i] == Gc {
      GcSucceeds(setup, disks[i]);
    }
    ContentsMatch(setup, disks[i]);
  }

  lemma ContentsMatch(setup: Setup, disk: Disk)
    requires IsWellFormed(setup.hash, disk)
    ensures forall d: Sha256Digest :: d in View(disk).objects ==> setup.hash(View(disk).objects[d]) == d
  {
    hide ObjectKey, RefDigest;
    KeyFacts();
  }

  // ----- no reference dangles -----

  predicate NoDangling(a: Abstract) {
    forall p :: p in a.roots ==> a.roots[p] in a.objects
  }

  /** What the store's clients keep to: put first, then refer, one name below one namespace. */
  predicate IsDisciplined(a: Abstract, op: Op) {
    op.AddRef? ==> op.digest in a.objects && IsRoot(op.path)
  }

  lemma StepKeepsRoots(hash: Bytes -> Sha256Digest, a: Abstract, op: Op)
    requires NoDangling(a) && (forall p :: p in a.roots ==> IsRoot(p)) && IsDisciplined(a, op)
    ensures var a' := AbstractStep(hash, a, op);
      NoDangling(a') && forall p :: p in a'.roots ==> IsRoot(p)
  {
  }

  lemma {:induction false} RunHasNoDangling(setup: Setup, disks: seq<Disk>, ops: seq<Op>, i: nat)
    requires IsRun(setup, disks, ops) && i < |disks|
    requires forall k :: 0 <= k < i ==> IsDisciplined(View(disks[k]), ops[k])
    ensures NoDangling(View(disks[i])) && forall p :: p in View(disks[i]).roots ==> IsRoot(p)
  {
    hide View, Perform, AbstractStep, IsWellFormed, Succeeds;
    if i == 0 {
      EmptyIsWellFormed(setup.hash);
    } else {
      RunHasNoDangling(setup, disks, ops, i - 1);
      RunRefines(setup, disks, ops, i - 1);
      StepKeepsRoots(setup.hash, View(disks[i - 1]), ops[i - 1]);
    }
  }

  lemma AbstractGcSpares(hash: Bytes -> Sha256Digest, a: Abstract, p: seq<string>)
    requires p in a.roots && a.roots[p] in a.objects
    ensures a.roots[p] in AbstractStep(hash, a, Gc).objects <==>
              IsRoot(p) || exists q :: q in a.roots && IsRoot(q) && a.roots[q] == a.roots[p]
  {
  }

  /**
   Collection leaves the object that a reference names on the disk exactly when the reference lies right
   below a namespace, or another one for the same digest does: references nested deeper are no roots.
   */
  lemma GcSparesRoots(setup: Setup, disk: Disk, p: seq<string>, d: Sha256Digest)
    requires IsWellFormed(setup.hash, disk) && IsStoredIn(disk, d)
    requires p in disk.refs && RefDigest(disk.refs[p]) == Parsed(d)
    ensures IsStoredIn(Perform(setup, disk, Gc), d) <==>
              IsRoot(p) || exists q :: q in disk.refs && IsRoot(q) && RefDigest(disk.refs[q]) == Parsed(d)
  {
    hide ObjectKey, ReadName, RefDigest, Perform, AbstractStep, IsWellFormed;
    GcRefines(setup, disk);
    var a := View(disk);
    assert p in a.roots && a.roots[p] == d && d in a.objects;
    AbstractGcSpares(setup.hash, a, p);
    assert IsStoredIn(Perform(setup, disk, Gc), d) <==> d in View(Perform(setup, disk, Gc)).objects;
    assert forall q :: q in a.roots && a.roots[q] == d <==> q in disk.refs && RefDigest(disk.refs[q]) == Parsed(d);
  }

  /** A name that holds a slash makes a reference that protects nothing. */
  lemma NestedRefDangles(setup: Setup, data: Bytes)
    ensures var d := setup.hash(data);
      var ref := ["packages", "extra", "tool-1.0-1-x86_64"];
      var disks := [EMPTY,
                    Perform(setup, EMPTY, PutBytes(data)),
                    Perform(setup, Perform(setup, EMPTY, PutBytes(data)), AddRef(ref, d)),
                    Perform(setup, Perform(setup, Perform(setup, EMPTY, PutBytes(data)), AddRef(ref, d)), Gc)];
      && IsRun(setup, disks, [PutBytes(data), AddRef(ref, d), Gc])
      && ref in View(disks[2]).roots && View(disks[2]).roots[ref] == d && NoDangling(View(disks[2]))
      && !NoDangling(View(disks[3]))
  {
    hide View, Perform, AbstractStep, IsWellFormed;
    var d := setup.hash(data);
    var ref := ["packages", "extra", "tool-1.0-1-x86_64"];
    var put, refer := PutBytes(data), AddRef(ref, d);
    var d1 := Perform(setup, EMPTY, put);
    var d2 := Perform(setup, d1, refer);
    var d3 := Perform(setup, d2, Gc);
    var disks, ops := [EMPTY, d1, d2, d3], [put, refer, Gc];
    EmptyIsWellFormed(setup.hash);
    assert Succeeds(setup, EMPTY, put);
    RunRefines(setup, disks, ops, 0);
    PutLeavesRefs(setup, EMPTY, put);
    assert Succeeds(setup, d1, refer);
    RunRefines(setup, disks, ops, 1);
    RunRefines(setup, disks, ops, 2);
    AbstractNested(setup.hash, data, ref);
  }

  lemma PutLeavesRefs(setup: Setup, disk: Disk, op: Op)
    requires op.PutBytes? || op.PutFile?
    ensures Perform(setup, disk, op).refs == disk.refs && Perform(setup, disk, op).refDirs == disk.refDirs
  {
  }

  lemma AbstractNested(hash: Bytes -> Sha256Digest, data: Bytes, ref: seq<string>)
    requires !IsRoot(ref)
    ensures var a1 := AbstractStep(hash, Abstract(imap[], map[]), PutBytes(data));
      var a2 := AbstractStep(hash, a1, AddRef(ref, hash(data)));
      && ref in a2.roots && a2.roots[ref] == hash(data) && NoDangling(a2)
      && !NoDangling(AbstractStep(hash, a2, Gc))
  {
    var a1 := AbstractStep(hash, Abstract(imap[], map[]), PutBytes(data));
    var a2 := AbstractStep(hash, a1, AddRef(ref, hash(data)));
    AbstractGcSpares(hash, a2, ref);
  }
}
