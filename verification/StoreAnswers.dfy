/** When the operations of the store succeed, and what the collector reads, marks and removes. */
module StoreAnswers {
  import opened Wrappers
  import opened Digest
  import opened VacuoleStore
  import R = StoreRuns
  import Text

  // ----- success -----

  /** A store that only disciplined operations have touched: references right below namespaces, and no others. */
  ghost predicate IsOrderly(hash: Bytes -> Sha256Digest, disk: Disk) {
    && R.IsWellFormed(hash, disk)
    && (forall p :: p in disk.refs ==> IsRoot(p))
    && (forall p :: p in disk.refDirs ==> |p| < 2)
  }

  /** On such a store a put of bytes never fails, and that of a file only if it is edited. */
  lemma PutsSucceed(setup: R.Setup, disk: Disk, first: Bytes, second: Bytes)
    requires R.IsWellFormed(setup.hash, disk)
    ensures PutResult(setup.hash, setup.pid, disk, first) == Ok(setup.hash(first))
    ensures R.IsStoredIn(PutDisk(setup.hash, setup.pid, disk, first), setup.hash(first))
    ensures PutFileResult(setup.hash, setup.pid, disk, first, second) ==
              if R.IsStoredIn(disk, setup.hash(first)) || setup.hash(first) == setup.hash(second)
              then Ok(setup.hash(first)) else Err(HashMismatch)
    ensures PutFileResult(setup.hash, setup.pid, disk, first, second).Ok? ==>
              R.IsStoredIn(PutFileDisk(setup.hash, setup.pid, disk, first, second), setup.hash(first))
  {
    hide ObjectKey, TmpKey;
    R.KeyFacts();
  }

  lemma RefsSucceed(hash: Bytes -> Sha256Digest, disk: Disk, p: seq<string>, d: Sha256Digest)
    requires IsOrderly(hash, disk) && IsRoot(p)
    ensures CanWriteRef(disk, p)
    ensures IsOrderly(hash, AddRefDisk(disk, p, d))
  {
    hide ObjectKey, Hex;
    forall n | 0 <= n < |p|
      ensures p[..n] !in disk.refs
    {
      assert |p[..n]| == n;
    }
    assert forall q :: q in Parents(p) ==> |q| < 2;
  }

  lemma OpKeepsOrderly(setup: R.Setup, disk: Disk, op: R.Op)
    requires IsOrderly(setup.hash, disk) && (op.AddRef? ==> IsRoot(op.path))
    ensures IsOrderly(setup.hash, R.Perform(setup, disk, op))
  {
    hide ObjectKey, TmpKey, Hex, CanWriteRef, R.IsWellFormed, Marked, RefsReadable, CanSweep, TreeOf, Swept;
    R.KeepsWellFormed(setup, disk, op);
    match op {
      case AddRef(p, d) => RefsSucceed(setup.hash, disk, p, d);
      case _ =>
    }
  }

  /** An operation fails only if it is to store a file that is edited in between, and is not stored already. */
  lemma OpSucceeds(setup: R.Setup, disk: Disk, op: R.Op)
    requires IsOrderly(setup.hash, disk) && (op.AddRef? ==> IsRoot(op.path))
    ensures R.Succeeds(setup, disk, op) <==>
              (op.PutFile? ==>
                 setup.hash(op.first) == setup.hash(op.second) || R.IsStoredIn(disk, setup.hash(op.first)))
  {
    hide PutResult, PutFileResult, CanWriteRef, R.IsWellFormed, R.IsStoredIn, RefsReadable, CanSweep;
    match op {
      case PutBytes(data) => PutsSucceed(setup, disk, data, data);
      case PutFile(first, second) => PutsSucceed(setup, disk, first, second);
      case AddRef(p, d) => RefsSucceed(setup.hash, disk, p, d);
      case RemoveRef(_) =>
      case Gc => R.GcSucceeds(setup, disk);
    }
  }

  lemma {:induction false} RunIsOrderly(setup: R.Setup, disks: seq<Disk>, ops: seq<R.Op>, i: nat)
    requires R.IsRun(setup, disks, ops) && i < |disks|
    requires forall k :: 0 <= k < i ==> R.IsDisciplined(R.View(disks[k]), ops[k])
    ensures IsOrderly(setup.hash, disks[i])
  {
    hide R.View, R.Perform, R.IsWellFormed;
    if i == 0 {
      R.EmptyIsWellFormed(setup.hash);
    } else {
      RunIsOrderly(setup, disks, ops, i - 1);
      OpKeepsOrderly(setup, disks[i - 1], ops[i - 1]);
    }
  }

  /**
   In every run whose clients keep to the discipline nothing ever fails, but for the storing of a file that
   changes between its two passes, and that exactly if no such object is there.
   */
  lemma RunSucceeds(setup: R.Setup, disks: seq<Disk>, ops: seq<R.Op>, i: nat)
    requires R.IsRun(setup, disks, ops) && i < |ops|
    requires forall k :: 0 <= k <= i ==> R.IsDisciplined(R.View(disks[k]), ops[k])
    ensures R.Succeeds(setup, disks[i], ops[i]) <==>
              (ops[i].PutFile? ==>
                 setup.hash(ops[i].first) == setup.hash(ops[i].second)
                 || R.IsStoredIn(disks[i], setup.hash(ops[i].first)))
  {
    hide R.View, R.Perform, R.IsWellFormed, R.IsStoredIn, R.Succeeds;
    RunIsOrderly(setup, disks, ops, i);
    OpSucceeds(setup, disks[i], ops[i]);
  }

  // ----- marking -----

  /**
   What marking makes of the reference files right below a namespace: a malformed one names nothing and stops
   nothing, and only one that is no text, or whose text cuts a character, ends the collection.
   */
  lemma MarksAnswer(disk: Disk)
    ensures RefsReadable(disk) <==>
              forall p :: p in disk.refs && |p| == 2 ==>
                disk.refs[p].Utf8Text? && !Parse(Text.Trim(disk.refs[p].text)).Panicked?
    ensures forall d: Sha256Digest :: d in Marked(disk) <==>
              exists p :: p in disk.refs && |p| == 2 && disk.refs[p].Utf8Text?
                          && Parse(Text.Trim(disk.refs[p].text)) == Parsed(d)
  {
    hide Parse, Text.Trim;
    var readings := Readings(disk);
    forall p | p in disk.refs && |p| == 2
      ensures p in readings && readings[p] == ReadRef(disk.refs[p])
    {
    }
    forall d: Sha256Digest
      ensures d in Marked(disk) <==>
                exists p :: p in disk.refs && |p| == 2 && disk.refs[p].Utf8Text?
                            && Parse(Text.Trim(disk.refs[p].text)) == Parsed(d)
    {
      if p :| p in disk.refs && |p| == 2 && disk.refs[p].Utf8Text? && Parse(Text.Trim(disk.refs[p].text)) == Parsed(d) {
        assert readings[p] == Names(d);
      }
    }
  }

  // ----- sweeping -----

  /** The directory has a two-digit hexadecimal name, so the collector looks into it. */
  predicate IsInShard(k: Key) {
    |Utf8(k.0)| == 2 && forall i :: 0 <= i < |k.0| ==> IsHexDigit(k.0[i])
  }

  /** The directory and the name spell a digest. */
  predicate Spells(k: Key, d: Sha256Digest) {
    |Utf8(k.0 + k.1)| == 64 && Parse(k.0 + k.1) == Parsed(d)
  }

  ghost predicate SpellsUnmarked(k: Key, marked: set<Sha256Digest>) {
    exists d: Sha256Digest :: Spells(k, d) && d !in marked
  }

  ghost predicate HoldsTmp(name: string) {
    exists i :: Text.IsAt(name, ".tmp", i)
  }

  lemma HoldsTmpIs(name: string)
    ensures IsTmpName(name) <==> HoldsTmp(name)
  {
  }

  /**
   What a complete sweep removes: in the directories with two-digit names, the files that have `.tmp` in their
   names, and everything else whose directory and name spell a digest that is not marked. Whatever has another
   name, or lies in another directory, stays.
   */
  lemma SweepRemoves(files: map<Key, Node>, marked: set<Sha256Digest>, k: Key)
    ensures k in Swept(TreeOf(files), marked) <==>
              k in files &&
              !(IsInShard(k) && if HoldsTmp(k.1) then files[k].File? else SpellsUnmarked(k, marked))
    ensures k in Swept(TreeOf(files), marked) ==> Swept(TreeOf(files), marked)[k] == files[k]
  {
    hide Parse, Utf8, IsTmpName, HoldsTmp;
    HoldsTmpIs(k.1);
    if k in files {
      NameUnmarked(k, marked);
    }
  }

  lemma NameUnmarked(k: Key, marked: set<Sha256Digest>)
    ensures IsDoomed(ReadDigestName(k.0 + k.1), marked) <==> SpellsUnmarked(k, marked)
  {
    hide Parse, Utf8;
    match ReadDigestName(k.0 + k.1) {
      case DigestName(d) => assert Spells(k, d);
      case _ =>
    }
  }

  /**
   When a sweep goes through: nothing that it looks at is a directory with the name of an unmarked object, or
   has a name of 64 bytes that cuts a character.
   */
  lemma SweepSucceeds(files: map<Key, Node>, marked: set<Sha256Digest>)
    ensures CanSweep(TreeOf(files), marked) <==>
              forall k :: k in files && IsInShard(k) && !HoldsTmp(k.1) ==>
                && !(files[k].Folder? && SpellsUnmarked(k, marked))
                && !(|Utf8(k.0 + k.1)| == 64 && Parse(k.0 + k.1).Panicked?)
  {
    hide Parse, Utf8, IsTmpName, HoldsTmp, SpellsUnmarked;
    forall k: Key
      ensures IsTmpName(k.1) <==> HoldsTmp(k.1)
      ensures IsDoomed(ReadDigestName(k.0 + k.1), marked) <==> SpellsUnmarked(k, marked)
    {
      HoldsTmpIs(k.1);
      NameUnmarked(k, marked);
    }
    var t := TreeOf(files);
    forall k | k in files
      ensures t.names[k] == ReadName(k)
    {
    }
  }
}
