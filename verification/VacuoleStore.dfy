/**
 The vacuole store as one process uses it: objects, named references, and the mark-and-sweep collector.

 The directory tree is kept as flat maps from path components to what is there. A directory is listed
 in whatever order the operating system likes, so the collector's loops pick their next entry freely.
 */
module VacuoleStore {
  import opened Wrappers
  import opened Digest
  import P = VacuoleProtocol
  import Text

  type Bytes = seq<Byte>

  /** Where something lies below `objects/`: a directory and a name in it. */
  type Key = (string, string)

  datatype Node = File(content: Bytes) | Folder

  /** What reading a reference file as a string gives. */
  datatype RefText = Utf8Text(text: string) | NotUtf8

  datatype StoreError = Io | InvalidDigestText | HashMismatch | GcFailed | Panic

  datatype GcStats = GcStats(reachable: nat, removed: nat, bytesReclaimed: nat)

  /** `refs` and `refDirs` are keyed by the path components below `refs/`. */
  datatype Disk = Disk(files: map<Key, Node>, refs: map<seq<string>, RefText>, refDirs: set<seq<string>>)

  const EMPTY: Disk := Disk(map[], map[], {[]})

  function ObjectKey(d: Sha256Digest): Key {
    P.OnDisk(P.ObjectPath(d))
  }

  function TmpKey(d: Sha256Digest, pid: nat): Key {
    P.OnDisk(P.TmpPath(d, pid))
  }

  lemma ObjectKeyInjective(d: Sha256Digest, e: Sha256Digest)
    requires ObjectKey(d) == ObjectKey(e)
    ensures d == e
  {
    P.OnDiskInjective(P.ObjectPath(d), P.ObjectPath(e));
  }

  lemma TmpKeyIsNoObject(d: Sha256Digest, pid: nat, e: Sha256Digest)
    ensures TmpKey(d, pid) != ObjectKey(e)
  {
    if TmpKey(d, pid) == ObjectKey(e) {
      P.OnDiskInjective(P.TmpPath(d, pid), P.ObjectPath(e));
    }
  }

  // ----- objects -----

  /** The outcome of `put_bytes`. */
  function PutResult(hash: Bytes -> Sha256Digest, pid: nat, disk: Disk, data: Bytes)
    : (r: Result<Sha256Digest, StoreError>)
  {
    var d := hash(data);
    if ObjectKey(d) in disk.files then Ok(d)
    else if TmpKey(d, pid) in disk.files && disk.files[TmpKey(d, pid)].Folder? then Err(Io)
    else Ok(d)
  }

  function PutDisk(hash: Bytes -> Sha256Digest, pid: nat, disk: Disk, data: Bytes): (r: Disk)
  {
    var d := hash(data);
    if ObjectKey(d) in disk.files || PutResult(hash, pid, disk, data).Err? then disk
    else disk.(files := (disk.files - {TmpKey(d, pid)})[ObjectKey(d) := File(data)])
  }

  /** `put_file` on a file that reads as `first` while it is hashed and as `second` while it is copied. */
  function PutFileResult(hash: Bytes -> Sha256Digest, pid: nat, disk: Disk, first: Bytes, second: Bytes)
    : (r: Result<Sha256Digest, StoreError>)
  {
    var d := hash(first);
    if ObjectKey(d) in disk.files then Ok(d)
    else if TmpKey(d, pid) in disk.files && disk.files[TmpKey(d, pid)].Folder? then Err(Io)
    else if hash(second) != d then Err(HashMismatch)
    else Ok(d)
  }

  function PutFileDisk(hash: Bytes -> Sha256Digest, pid: nat, disk: Disk, first: Bytes, second: Bytes): (r: Disk)
  {
    var d := hash(first);
    var rest := disk.files - {TmpKey(d, pid)};
    if ObjectKey(d) in disk.files then disk
    else match PutFileResult(hash, pid, disk, first, second)
      case Err(Io) => disk
      case Err(_) => disk.(files := rest)
      case Ok(_) => disk.(files := rest[ObjectKey(d) := File(second)])
  }

  /** On a file that nobody edits, `put_file` does what `put_bytes` does with its content. */
  lemma PutFileUnedited(hash: Bytes -> Sha256Digest, pid: nat, disk: Disk, data: Bytes)
    ensures PutFileResult(hash, pid, disk, data, data) == PutResult(hash, pid, disk, data)
    ensures PutFileDisk(hash, pid, disk, data, data) == PutDisk(hash, pid, disk, data)
  {
  }

  // ----- references -----

  /** The directories that have to exist above `p`. */
  function Parents(p: seq<string>): (r: set<seq<string>>)
    ensures forall q :: q in r <==> q < p
  {
    assert forall q :: q < p ==> 0 <= |q| < |p| && q == p[..|q|];
    set n | 0 <= n < |p| :: p[..n]
  }

  /** A reference cannot be written where a directory is, or below another reference. */
  predicate CanWriteRef(disk: Disk, p: seq<string>) {
    p !in disk.refDirs && forall n :: 0 <= n < |p| ==> p[..n] !in disk.refs
  }

  function AddRefDisk(disk: Disk, p: seq<string>, d: Sha256Digest): Disk {
    if CanWriteRef(disk, p)
    then disk.(refs := disk.refs[p := Utf8Text(Hex(d))], refDirs := disk.refDirs + Parents(p))
    else disk
  }

  function RemoveRefDisk(disk: Disk, p: seq<string>): Disk {
    disk.(refs := disk.refs - {p})
  }

  /** The digest that a reference file stands for. */
  function RefDigest(t: RefText): Parsed {
    match t
    case Utf8Text(text) => Parse(Text.Trim(text))
    case NotUtf8 => InvalidDigest
  }

  lemma RefDigestHex(d: Sha256Digest)
    ensures RefDigest(Utf8Text(Hex(d))) == Parsed(d)
  {
    var s := Hex(d);
    HexBytesLower(d);
    assert s[0] in s && s[63] in s;
    Text.TrimTrimmed(s);
    ParseHex(d);
  }

  /** A reference file right below a namespace; the collector looks nowhere else. */
  predicate IsRoot(p: seq<string>) {
    |p| == 2
  }

  // ----- marking -----

  /** What the collector makes of each reference file. */
  datatype Reading = Names(digest: Sha256Digest) | NamesNothing | Unreadable(error: StoreError)

  function ReadRef(t: RefText): Reading {
    if t == NotUtf8 then Unreadable(Io)
    else match RefDigest(t)
      case Parsed(d) => Names(d)
      case InvalidDigest => NamesNothing
      case Panicked => Unreadable(Panic)
  }

  function Readings(disk: Disk): map<seq<string>, Reading> {
    map p | p in disk.refs && IsRoot(p) :: ReadRef(disk.refs[p])
  }

  ghost function MarkedBy(readings: map<seq<string>, Reading>, done: set<seq<string>>): set<Sha256Digest> {
    set p | p in done && p in readings && readings[p].Names? :: readings[p].digest
  }

  /** The digests that the references name. */
  ghost function Marked(disk: Disk): set<Sha256Digest> {
    MarkedBy(Readings(disk), Readings(disk).Keys)
  }

  ghost predicate RefsReadable(disk: Disk) {
    forall p :: p in Readings(disk) ==> !Readings(disk)[p].Unreadable?
  }

  /** What marking has found once it has read the references in `done`. */
  ghost predicate MarkInv(readings: map<seq<string>, Reading>, done: set<seq<string>>, marks: set<Sha256Digest>) {
    && (forall p :: p in done ==> p in readings && !readings[p].Unreadable?)
    && marks == MarkedBy(readings, done)
  }

  ghost function Below(readings: map<seq<string>, Reading>, ns: string): set<seq<string>> {
    set p | p in readings && |p| == 2 && p[0] == ns
  }

  lemma MarkStep(readings: map<seq<string>, Reading>, done: set<seq<string>>, marks: set<Sha256Digest>, p: seq<string>)
    requires MarkInv(readings, done, marks) && p in readings && !readings[p].Unreadable?
    ensures MarkInv(readings, done + {p}, if readings[p].Names? then marks + {readings[p].digest} else marks)
  {
  }

  // ----- sweeping -----

  predicate IsShardName(s: string) {
    |Utf8(s)| == 2 && forall i :: 0 <= i < |s| ==> IsHexDigit(s[i])
  }

  predicate IsTmpName(name: string) {
    Text.Contains(name, ".tmp")
  }

  /** What the collector takes an entry for, going by its directory and its name. */
  datatype Name = OtherName | TmpName | DigestName(digest: Sha256Digest) | PanickingName

  function ReadDigestName(fullHex: string): Name {
    if |Utf8(fullHex)| != 64 then OtherName
    else match Parse(fullHex)
      case Parsed(d) => DigestName(d)
      case InvalidDigest => OtherName
      case Panicked => PanickingName
  }

  function ReadName(k: Key): Name {
    if !IsShardName(k.0) then OtherName
    else if IsTmpName(k.1) then TmpName
    else ReadDigestName(k.0 + k.1)
  }

  function NamesOf(files: map<Key, Node>): map<Key, Name> {
    map k | k in files :: ReadName(k)
  }

  predicate IsReached(n: Name, marked: set<Sha256Digest>) {
    n.DigestName? && n.digest in marked
  }

  /** An object that no reference reaches. */
  predicate IsDoomed(n: Name, marked: set<Sha256Digest>) {
    n.DigestName? && n.digest !in marked
  }

  /** What goes: unreached objects and temporary files. A directory named like one withstands. */
  predicate IsGarbage(n: Name, node: Node, marked: set<Sha256Digest>) {
    IsDoomed(n, marked) || (n.TmpName? && node.File?)
  }

  /** What makes the collector give up: it cannot be removed, or reading its name panics. */
  predicate IsObstacle(n: Name, node: Node, marked: set<Sha256Digest>) {
    (IsDoomed(n, marked) && node.Folder?) || n.PanickingName?
  }

  /** The files and their names, which the sweep starts from. */
  datatype Tree = Tree(files: map<Key, Node>, names: map<Key, Name>)

  ghost predicate IsTree(t: Tree) {
    t.names.Keys == t.files.Keys
  }

  ghost function TreeOf(files: map<Key, Node>): (t: Tree)
    ensures IsTree(t)
  {
    Tree(files, NamesOf(files))
  }

  /** What is left when the garbage among `done` is gone. */
  ghost function SweptOf(t: Tree, marked: set<Sha256Digest>, done: set<Key>): map<Key, Node>
    requires IsTree(t)
  {
    map k | k in t.files && !(k in done && IsGarbage(t.names[k], t.files[k], marked)) :: t.files[k]
  }

  ghost function Swept(t: Tree, marked: set<Sha256Digest>): map<Key, Node>
    requires IsTree(t)
  {
    SweptOf(t, marked, t.files.Keys)
  }

  ghost function Reached(t: Tree, marked: set<Sha256Digest>): set<Key> {
    set k | k in t.names && IsReached(t.names[k], marked)
  }

  ghost function Doomed(t: Tree, marked: set<Sha256Digest>): set<Key> {
    set k | k in t.names && IsDoomed(t.names[k], marked)
  }

  ghost predicate CanSweep(t: Tree, marked: set<Sha256Digest>)
    requires IsTree(t)
  {
    forall k :: k in t.files ==> !IsObstacle(t.names[k], t.files[k], marked)
  }

  function Size(node: Node): nat {
    match node
    case File(content) => |content|
    case Folder => 0
  }

  ghost function TotalSize(files: map<Key, Node>, keys: set<Key>): nat
    requires keys <= files.Keys
  {
    if keys == {} then 0
    else
      var k :| k in keys;
      Size(files[k]) + TotalSize(files, keys - {k})
  }

  /** The total does not depend on the order of summation. */
  lemma {:induction false} TotalSizeAdd(files: map<Key, Node>, keys: set<Key>, k: Key)
    requires keys <= files.Keys && k in files && k !in keys
    ensures TotalSize(files, keys + {k}) == TotalSize(files, keys) + Size(files[k])
    decreases keys
  {
    var all := keys + {k};
    var m :| m in all && TotalSize(files, all) == Size(files[m]) + TotalSize(files, all - {m});
    if m == k {
      assert all - {k} == keys;
    } else {
      assert all - {m} == (keys - {m}) + {k};
      TotalSizeAdd(files, keys - {m}, k);
      TotalSizeAdd(files, keys - {m}, m);
      assert (keys - {m}) + {m} == keys;
    }
  }

  /** The counts of a successful collection. */
  ghost predicate IsGcReport(t: Tree, marked: set<Sha256Digest>, stats: GcStats)
    requires IsTree(t)
  {
    && stats.reachable == |Reached(t, marked)|
    && stats.removed == |Doomed(t, marked)|
    && stats.bytesReclaimed == TotalSize(t.files, Doomed(t, marked))
  }

  /** Only garbage goes, and nothing comes to be that was not there. */
  ghost predicate OnlyGarbageGone(t: Tree, after: map<Key, Node>, marked: set<Sha256Digest>)
    requires IsTree(t)
  {
    && after.Keys <= t.files.Keys
    && (forall k :: k in after ==> after[k] == t.files[k])
    && (forall k :: k in t.files && k !in after ==> IsGarbage(t.names[k], t.files[k], marked))
  }

  /** What the sweep has done and counted once it has looked at `done`. */
  ghost predicate SweepInv(t: Tree, marked: set<Sha256Digest>, done: set<Key>, files: map<Key, Node>, stats: GcStats)
    requires IsTree(t)
  {
    && done <= t.files.Keys
    && files == SweptOf(t, marked, done)
    && (forall k :: k in done ==> !IsObstacle(t.names[k], t.files[k], marked))
    && stats.reachable == |Reached(t, marked) * done|
    && stats.removed == |Doomed(t, marked) * done|
    && stats.bytesReclaimed == TotalSize(t.files, Doomed(t, marked) * done)
  }

  /** What one entry adds to the counts. */
  function Counted(n: Name, node: Node, marked: set<Sha256Digest>, stats: GcStats): GcStats {
    if IsReached(n, marked) then stats.(reachable := stats.reachable + 1)
    else if IsDoomed(n, marked)
    then stats.(removed := stats.removed + 1, bytesReclaimed := stats.bytesReclaimed + Size(node))
    else stats
  }

  lemma SweptStep(t: Tree, marked: set<Sha256Digest>, done: set<Key>, k: Key)
    requires IsTree(t) && k in t.files && k !in done
    ensures k in SweptOf(t, marked, done)
    ensures SweptOf(t, marked, done + {k}) ==
              if IsGarbage(t.names[k], t.files[k], marked)
              then SweptOf(t, marked, done) - {k}
              else SweptOf(t, marked, done)
  {
  }

  lemma CountStep(s: set<Key>, done: set<Key>, k: Key)
    requires k !in done
    ensures s * (done + {k}) == s * done + if k in s then {k} else {}
    ensures |s * (done + {k})| == |s * done| + if k in s then 1 else 0
  {
    assert s * (done + {k}) == s * done + if k in s then {k} else {};
  }

  lemma SweepStep(t: Tree, marked: set<Sha256Digest>, done: set<Key>, files: map<Key, Node>, stats: GcStats, k: Key)
    requires IsTree(t) && SweepInv(t, marked, done, files, stats)
    requires k in t.files && k !in done && !IsObstacle(t.names[k], t.files[k], marked)
    ensures k in files && files[k] == t.files[k]
    ensures SweepInv(t, marked, done + {k},
                     if IsGarbage(t.names[k], t.files[k], marked) then files - {k} else files,
                     Counted(t.names[k], t.files[k], marked, stats))
  {
    hide SweptOf, TotalSize, Size, Reached, Doomed, IsObstacle, IsGarbage, IsReached, IsDoomed, Counted;
    CountedIs(t.names[k], t.files[k], marked, stats);
    SweptStep(t, marked, done, k);
    SweptAt(t, marked, done, k);
    CountStep(Reached(t, marked), done, k);
    CountStep(Doomed(t, marked), done, k);
    SizeStep(t, marked, done, k);
    CountedAt(t, marked, k);
  }

  lemma CountedIs(n: Name, node: Node, marked: set<Sha256Digest>, stats: GcStats)
    ensures var counted := Counted(n, node, marked, stats);
      && counted.reachable == stats.reachable + (if IsReached(n, marked) then 1 else 0)
      && counted.removed == stats.removed + (if IsDoomed(n, marked) then 1 else 0)
      && counted.bytesReclaimed == stats.bytesReclaimed + (if IsDoomed(n, marked) then Size(node) else 0)
  {
  }

  lemma SweptAt(t: Tree, marked: set<Sha256Digest>, done: set<Key>, k: Key)
    requires IsTree(t) && k in t.files && k !in done
    ensures k in SweptOf(t, marked, done) && SweptOf(t, marked, done)[k] == t.files[k]
  {
  }

  lemma CountedAt(t: Tree, marked: set<Sha256Digest>, k: Key)
    requires k in t.names
    ensures k in Reached(t, marked) <==> IsReached(t.names[k], marked)
    ensures k in Doomed(t, marked) <==> IsDoomed(t.names[k], marked)
  {
  }

  lemma SizeStep(t: Tree, marked: set<Sha256Digest>, done: set<Key>, k: Key)
    requires IsTree(t) && k in t.files && k !in done && done <= t.files.Keys
    ensures TotalSize(t.files, Doomed(t, marked) * (done + {k})) ==
              TotalSize(t.files, Doomed(t, marked) * done) +
              if IsDoomed(t.names[k], marked) then Size(t.files[k]) else 0
  {
    hide TotalSize;
    CountStep(Doomed(t, marked), done, k);
    if IsDoomed(t.names[k], marked) {
      TotalSizeAdd(t.files, Doomed(t, marked) * done, k);
    } else {
      assert Doomed(t, marked) * done + {} == Doomed(t, marked) * done;
    }
  }

  ghost function KeysOf(files: map<Key, Node>, shard: string): set<Key> {
    set k | k in files && k.0 == shard
  }

  ghost function KeysOutside(files: map<Key, Node>, shards: set<string>): set<Key> {
    set k | k in files && k.0 !in shards
  }

  lemma OneShardLess(files: map<Key, Node>, shards: set<string>, shard: string)
    requires shard in shards
    ensures KeysOutside(files, shards - {shard}) == KeysOutside(files, shards) + KeysOf(files, shard)
  {
  }

  lemma OneEntryLess<K>(done: set<K>, all: set<K>, entries: set<K>, k: K)
    requires entries <= all && k in entries
    ensures done + (all - (entries - {k})) == done + (all - entries) + {k}
  {
  }

  lemma ShardUntouched(t: Tree, marked: set<Sha256Digest>, done: set<Key>, files: map<Key, Node>, stats: GcStats,
                       shard: string)
    requires IsTree(t) && SweepInv(t, marked, done, files, stats)
    requires forall k :: k in done ==> k.0 != shard
    ensures KeysOf(files, shard) == KeysOf(t.files, shard)
  {
  }

  lemma NoShard(files: map<Key, Node>, shard: string)
    requires !IsShardName(shard)
    ensures forall k :: k in files && k.0 == shard ==> NamesOf(files)[k] == OtherName
  {
  }

  lemma OthersAreSpared(t: Tree, marked: set<Sha256Digest>, done: set<Key>, rest: set<Key>)
    requires IsTree(t) && rest <= t.files.Keys && forall k :: k in rest ==> t.names[k] == OtherName
    ensures forall k :: k in rest ==> !IsObstacle(t.names[k], t.files[k], marked)
    ensures SweptOf(t, marked, done + rest) == SweptOf(t, marked, done)
  {
  }

  lemma OthersAreUncounted(t: Tree, marked: set<Sha256Digest>, done: set<Key>, rest: set<Key>)
    requires IsTree(t) && forall k :: k in rest && k in t.names ==> t.names[k] == OtherName
    ensures Reached(t, marked) * (done + rest) == Reached(t, marked) * done
    ensures Doomed(t, marked) * (done + rest) == Doomed(t, marked) * done
  {
  }

  /** Directories that are no shards are passed over. */
  lemma SkipAll(t: Tree, marked: set<Sha256Digest>, done: set<Key>, rest: set<Key>, files: map<Key, Node>,
                stats: GcStats)
    requires IsTree(t) && SweepInv(t, marked, done, files, stats)
    requires rest <= t.files.Keys && forall k :: k in rest ==> t.names[k] == OtherName
    ensures SweepInv(t, marked, done + rest, files, stats)
  {
    hide ReadName, TotalSize, SweptOf, Reached, Doomed, IsObstacle;
    OthersAreSpared(t, marked, done, rest);
    OthersAreUncounted(t, marked, done, rest);
  }

  lemma SweepBegins(t: Tree, marked: set<Sha256Digest>)
    requires IsTree(t)
    ensures SweepInv(t, marked, {}, t.files, GcStats(0, 0, 0))
  {
    assert Reached(t, marked) * {} == {} && Doomed(t, marked) * {} == {};
  }

  lemma SweepEnds(t: Tree, marked: set<Sha256Digest>, files: map<Key, Node>, stats: GcStats)
    requires IsTree(t) && SweepInv(t, marked, t.files.Keys, files, stats)
    ensures CanSweep(t, marked) && files == Swept(t, marked)
    ensures IsGcReport(t, marked, stats) && OnlyGarbageGone(t, files, marked)
  {
    assert Reached(t, marked) * t.files.Keys == Reached(t, marked);
    assert Doomed(t, marked) * t.files.Keys == Doomed(t, marked);
  }

  lemma SweepStops(t: Tree, marked: set<Sha256Digest>, done: set<Key>, files: map<Key, Node>, stats: GcStats, k: Key)
    requires IsTree(t) && SweepInv(t, marked, done, files, stats)
    requires k in t.files && IsObstacle(t.names[k], t.files[k], marked)
    ensures !CanSweep(t, marked) && OnlyGarbageGone(t, files, marked)
  {
  }

  const BUFFER: nat := 64 * 1024

  /** A store opened by the process `pid`, with the disk it works on. */
  class VacuoleStore {
    const hash: Bytes -> Sha256Digest
    const pid: nat
    var files: map<Key, Node>
    var refs: map<seq<string>, RefText>
    var refDirs: set<seq<string>>

    ghost function Contents(): Disk
      reads this
    {
      Disk(files, refs, refDirs)
    }

    /** `open` on a root directory that does not exist yet. */
    constructor (hash: Bytes -> Sha256Digest, pid: nat)
      ensures Contents() == EMPTY && this.hash == hash && this.pid == pid
    {
      this.hash := hash;
      this.pid := pid;
      files, refs, refDirs := EMPTY.files, EMPTY.refs, EMPTY.refDirs;
    }

    method Contains(d: Sha256Digest) returns (present: bool)
      ensures present <==> ObjectKey(d) in files
    {
      present := ObjectKey(d) in files;
    }

    method PutBytes(data: Bytes) returns (r: Result<Sha256Digest, StoreError>)
      modifies this
      ensures r == PutResult(hash, pid, old(Contents()), data)
      ensures Contents() == PutDisk(hash, pid, old(Contents()), data)
    {
      var d := hash(data);
      var present := Contains(d);
      if present {
        return Ok(d);
      }
      r := WriteAtomic(d, data);
    }

    /** Create, write and rename the temporary file. */
    method WriteAtomic(d: Sha256Digest, data: Bytes) returns (r: Result<Sha256Digest, StoreError>)
      modifies this
      ensures r.Err? <==> old(TmpKey(d, pid) in files && files[TmpKey(d, pid)].Folder?)
      ensures r == if r.Err? then Err(Io) else Ok(d)
      ensures files == if r.Err? then old(files) else (old(files) - {TmpKey(d, pid)})[ObjectKey(d) := File(data)]
      ensures refs == old(refs) && refDirs == old(refDirs)
    {
      var tmp := TmpKey(d, pid);
      TmpKeyIsNoObject(d, pid, d);
      if tmp in files && files[tmp].Folder? {
        return Err(Io);
      }
      files := files[tmp := File(data)];
      files := (files - {tmp})[ObjectKey(d) := files[tmp]];
      r := Ok(d);
    }

    /**
     Stream a file through the hasher, then again into the store; `first` and `second` are what the two
     passes read, and differ if the file is edited in between.
     */
    method PutFile(first: Bytes, second: Bytes) returns (r: Result<Sha256Digest, StoreError>)
      modifies this
      ensures r == PutFileResult(hash, pid, old(Contents()), first, second)
      ensures Contents() == PutFileDisk(hash, pid, old(Contents()), first, second)
    {
      hide ObjectKey, TmpKey;
      var d := HashStream(first);
      var present := Contains(d);
      if present {
        return Ok(d);
      }
      var tmp := TmpKey(d, pid);
      TmpKeyIsNoObject(d, pid, d);
      if tmp in files && files[tmp].Folder? {
        return Err(Io);
      }
      var copied := CopyStream(second, tmp);
      if copied != d {
        files := files - {tmp};
        return Err(HashMismatch);
      }
      files := (files - {tmp})[ObjectKey(d) := files[tmp]];
      r := Ok(d);
    }

    /** The first pass of `put_file`. */
    method HashStream(source: Bytes) returns (d: Sha256Digest)
      ensures d == hash(source)
    {
      var hashed: Bytes := [];
      while |hashed| < |source|
        invariant hashed <= source
      {
        var n := if |source| - |hashed| < BUFFER then |source| - |hashed| else BUFFER;
        hashed := hashed + source[|hashed|..|hashed| + n];
      }
      assert hashed == source;
      d := hash(hashed);
    }

    /** The second pass: copy the source to a new file, and hash what was written. */
    method CopyStream(source: Bytes, tmp: Key) returns (d: Sha256Digest)
      modifies this`files
      ensures d == hash(source)
      ensures files == old(files)[tmp := File(source)]
    {
      files := files[tmp := File([])];
      var written: Bytes := [];
      while |written| < |source|
        invariant written <= source
        invariant files == old(files)[tmp := File(written)]
      {
        var n := if |source| - |written| < BUFFER then |source| - |written| else BUFFER;
        written := written + source[|written|..|written| + n];
        files := files[tmp := File(written)];
      }
      assert written == source;
      d := hash(written);
    }

    method AddRef(p: seq<string>, d: Sha256Digest) returns (r: Result<(), StoreError>)
      modifies this
      ensures r == if old(CanWriteRef(Contents(), p)) then Ok(()) else Err(Io)
      ensures Contents() == AddRefDisk(old(Contents()), p, d)
    {
      if !CanWriteRef(Disk(files, refs, refDirs), p) {
        return Err(Io);
      }
      refDirs := refDirs + Parents(p);
      refs := refs[p := Utf8Text(Hex(d))];
      r := Ok(());
    }

    method ResolveRef(p: seq<string>) returns (r: Result<Option<Sha256Digest>, StoreError>)
      ensures p !in refs && p !in refDirs ==> r == Ok(None)
      ensures p !in refs && p in refDirs ==> r == Err(Io)
      ensures p in refs && refs[p] == NotUtf8 ==> r == Err(Io)
      ensures p in refs && refs[p] != NotUtf8 ==>
                match RefDigest(refs[p])
                case Parsed(d) => r == Ok(Some(d))
                case InvalidDigest => r == Err(InvalidDigestText)
                case Panicked => r == Err(Panic)
    {
      if p !in refs {
        return if p in refDirs then Err(Io) else Ok(None);
      }
      if refs[p] == NotUtf8 {
        return Err(Io);
      }
      var parsed := ParseDigest(Text.Trim(refs[p].text));
      match parsed {
        case Parsed(d) => r := Ok(Some(d));
        case InvalidDigest => r := Err(InvalidDigestText);
        case Panicked => r := Err(Panic);
      }
    }

    method RemoveRef(p: seq<string>) returns (r: Result<(), StoreError>)
      modifies this
      ensures Contents() == RemoveRefDisk(old(Contents()), p)
      ensures r == if p !in old(refs) && p in refDirs then Err(Io) else Ok(())
    {
      if p in refs {
        refs := refs - {p};
        return Ok(());
      }
      assert refs - {p} == refs;
      r := if p in refDirs then Err(Io) else Ok(());
    }

    /** The inner loop of marking: the files of one namespace. */
    method MarkNamespace(ns: string, marks: set<Sha256Digest>,
                         ghost readings: map<seq<string>, Reading>, ghost done: set<seq<string>>)
        returns (r: Result<set<Sha256Digest>, StoreError>)
      requires readings == Readings(Contents()) && MarkInv(readings, done, marks)
      ensures r.Ok? ==> MarkInv(readings, done + Below(readings, ns), r.value)
      ensures r.Err? ==> !RefsReadable(Contents())
    {
      hide ReadRef, MarkInv;
      var entries := set p | p in refs && |p| == 2 && p[0] == ns;
      var reachable := marks;
      ghost var seen := done;
      assert entries == Below(readings, ns);
      assert seen == done + (Below(readings, ns) - entries);
      while entries != {}
        invariant entries <= Below(readings, ns) && seen == done + (Below(readings, ns) - entries)
        invariant MarkInv(readings, seen, reachable)
        decreases entries
      {
        var p :| p in entries;
        OneEntryLess(done, Below(readings, ns), entries, p);
        entries := entries - {p};
        var reading := ReadRefFile(p);
        match reading {
          case Unreadable(e) => return Err(e);
          case NamesNothing => MarkStep(readings, seen, reachable, p);
          case Names(d) =>
            MarkStep(readings, seen, reachable, p);
            reachable := reachable + {d};
        }
        seen := seen + {p};
      }
      assert seen == done + Below(readings, ns);
      r := Ok(reachable);
    }

    method ReadRefFile(p: seq<string>) returns (r: Reading)
      requires p in refs
      ensures r == ReadRef(refs[p])
    {
      hide Parse, Text.Trim;
      if refs[p] == NotUtf8 {
        return Unreadable(Io);
      }
      var parsed := ParseDigest(Text.Trim(refs[p].text));
      match parsed {
        case Parsed(d) => r := Names(d);
        case InvalidDigest => r := NamesNothing;
        case Panicked => r := Unreadable(Panic);
      }
    }

    /** Mark: every digest that a file right below a namespace names. */
    method CollectReachable() returns (r: Result<set<Sha256Digest>, StoreError>)
      ensures r.Ok? <==> RefsReadable(Contents())
      ensures r.Ok? ==> r.value == Marked(Contents())
    {
      var reachable: set<Sha256Digest> := {};
      var namespaces := set p | p in refs && |p| >= 2 :: p[0];
      ghost var readings := Readings(Contents());
      ghost var done: set<seq<string>> := {};
      while namespaces != {}
        invariant done == set p | p in readings && |p| == 2 && p[0] !in namespaces
        invariant MarkInv(readings, done, reachable)
        decreases namespaces
      {
        var ns :| ns in namespaces;
        namespaces := namespaces - {ns};
        r := MarkNamespace(ns, reachable, readings, done);
        if r.Err? {
          return;
        }
        reachable := r.value;
        done := done + Below(readings, ns);
      }
      assert done == readings.Keys;
      r := Ok(reachable);
    }

    /** Look at one entry of a valid shard. */
    method SweepEntry(k: Key, marked: set<Sha256Digest>, stats: GcStats, ghost t: Tree, ghost done: set<Key>)
        returns (r: Result<GcStats, StoreError>)
      requires IsTree(t) && SweepInv(t, marked, done, files, stats)
      requires k in t.files && k !in done && t.names[k] == ReadName(k) && IsShardName(k.0)
      modifies this`files
      ensures r.Ok? ==> SweepInv(t, marked, done + {k}, files, r.value)
      ensures r.Err? ==> IsObstacle(t.names[k], t.files[k], marked) && files == old(files)
    {
      var node := files[k];
      if IsTmpName(k.1) {
        SweepStep(t, marked, done, files, stats, k);
        if node.File? {
          files := files - {k};
        }
        return Ok(stats);
      }
      var name := ReadEntryName(k);
      match name {
        case OtherName =>
          SweepStep(t, marked, done, files, stats, k);
          r := Ok(stats);
        case PanickingName => r := Err(Panic);
        case DigestName(d) =>
          if d in marked {
            SweepStep(t, marked, done, files, stats, k);
            r := Ok(stats.(reachable := stats.reachable + 1));
          } else if node.Folder? {
            r := Err(GcFailed);
          } else {
            SweepStep(t, marked, done, files, stats, k);
            files := files - {k};
            r := Ok(stats.(removed := stats.removed + 1, bytesReclaimed := stats.bytesReclaimed + Size(node)));
          }
      }
    }

    /** The digest that a directory and a name spell together. */
    method ReadEntryName(k: Key) returns (r: Name)
      ensures r == ReadDigestName(k.0 + k.1) && !r.TmpName?
    {
      var fullHex := k.0 + k.1;
      if |Utf8(fullHex)| != 64 {
        return OtherName;
      }
      var parsed := ParseDigest(fullHex);
      match parsed {
        case Parsed(d) => r := DigestName(d);
        case InvalidDigest => r := OtherName;
        case Panicked => r := PanickingName;
      }
    }

    /** The inner loop of the sweep: the entries of one shard. */
    method SweepShard(shard: string, marked: set<Sha256Digest>, stats: GcStats, ghost t: Tree, ghost done: set<Key>)
        returns (r: Result<GcStats, StoreError>)
      requires IsTree(t) && SweepInv(t, marked, done, files, stats) && IsShardName(shard)
      requires forall k :: k in t.names ==> t.names[k] == ReadName(k)
      requires forall k :: k in done ==> k.0 != shard
      modifies this`files
      ensures r.Ok? ==> SweepInv(t, marked, done + KeysOf(t.files, shard), files, r.value)
      ensures r.Err? ==> !CanSweep(t, marked) && OnlyGarbageGone(t, files, marked)
    {
      hide SweepInv, ReadName, IsShardName;
      var entries := set k | k in files && k.0 == shard;
      var counted := stats;
      ghost var ofShard := KeysOf(t.files, shard);
      ghost var seen := done;
      ShardUntouched(t, marked, done, files, stats, shard);
      assert entries == ofShard;
      assert seen == done + (ofShard - entries);
      while entries != {}
        invariant entries <= ofShard && seen == done + (ofShard - entries)
        invariant SweepInv(t, marked, seen, files, counted)
        decreases entries
      {
        var k :| k in entries;
        OneEntryLess(done, ofShard, entries, k);
        entries := entries - {k};
        r := SweepEntry(k, marked, counted, t, seen);
        if r.Err? {
          SweepStops(t, marked, seen, files, counted, k);
          return;
        }
        counted := r.value;
        seen := seen + {k};
      }
      assert seen == done + ofShard;
      r := Ok(counted);
    }

    /** The outer loop of the sweep: all directories below `objects/`. */
    method Sweep(marked: set<Sha256Digest>) returns (r: Result<GcStats, StoreError>)
      modifies this`files
      ensures r.Ok? <==> CanSweep(TreeOf(old(files)), marked)
      ensures r.Ok? ==> files == Swept(TreeOf(old(files)), marked)
      ensures r.Ok? ==> IsGcReport(TreeOf(old(files)), marked, r.value)
      ensures OnlyGarbageGone(TreeOf(old(files)), files, marked)
    {
      hide SweepInv, ReadName, IsShardName;
      ghost var t := TreeOf(files);
      var stats := GcStats(0, 0, 0);
      var shards := set k | k in files :: k.0;
      ghost var done: set<Key> := {};
      SweepBegins(t, marked);
      while shards != {}
        invariant done == KeysOutside(t.files, shards)
        invariant SweepInv(t, marked, done, files, stats)
        decreases shards
      {
        var shard :| shard in shards;
        OneShardLess(t.files, shards, shard);
        shards := shards - {shard};
        ghost var ofShard := KeysOf(t.files, shard);
        if IsShardName(shard) {
          r := SweepShard(shard, marked, stats, t, done);
          if r.Err? {
            return;
          }
          stats := r.value;
        } else {
          NoShard(t.files, shard);
          SkipAll(t, marked, done, ofShard, files, stats);
        }
        done := done + ofShard;
      }
      assert done == t.files.Keys;
      SweepEnds(t, marked, files, stats);
      r := Ok(stats);
    }

    /** Mark and sweep. */
    method Gc() returns (r: Result<GcStats, StoreError>)
      modifies this
      ensures refs == old(refs) && refDirs == old(refDirs)
      ensures r.Ok? <==>
                old(RefsReadable(Contents())) && CanSweep(TreeOf(old(files)), old(Marked(Contents())))
      ensures r.Ok? ==> files == Swept(TreeOf(old(files)), old(Marked(Contents())))
      ensures r.Ok? ==> IsGcReport(TreeOf(old(files)), old(Marked(Contents())), r.value)
      ensures OnlyGarbageGone(TreeOf(old(files)), files, old(Marked(Contents())))
      ensures !old(RefsReadable(Contents())) ==> files == old(files)
    {
      var marks := CollectReachable();
      if marks.Err? {
        return Err(marks.error);
      }
      r := Sweep(marks.value);
    }
  }
}
