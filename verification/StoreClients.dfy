/**
 The two clients that fill the vacuole: fetching the sources of a recipe, and caching a built package.
 Both put an object first and refer to it afterwards.
 */
module StoreClients {
  import opened Wrappers
  import opened Digest
  import opened VacuoleStore
  import R = StoreRuns
  import Text

  // ----- downloading -----

  /** What one attempt to download comes to. */
  datatype Response = Body(bytes: Bytes) | Transient | Fatal

  /**
   The network as it meets a source: what the attempts at a URL come to, one after the other, when it is
   asked as the candidate with that number.
   */
  type Answers = (nat, string) -> seq<Response>

  /** The network as it meets a whole fetch: its answers to the source with that number. */
  type Network = nat -> Answers

  const MAX_DOWNLOAD_RETRIES: nat := 3

  function ResponseAt(responses: seq<Response>, attempt: nat): Response {
    if attempt < |responses| then responses[attempt] else Fatal
  }

  /** Attempts from `attempt` on; only a transient failure is followed by another one. */
  function Attempts(hash: Bytes -> Sha256Digest, hex: string, responses: seq<Response>, attempt: nat)
    : (r: Option<Bytes>)
    requires attempt <= MAX_DOWNLOAD_RETRIES
    decreases MAX_DOWNLOAD_RETRIES - attempt
  {
    match ResponseAt(responses, attempt)
    case Body(b) => if Hex(hash(b)) == hex then Some(b) else None
    case Transient => if attempt < MAX_DOWNLOAD_RETRIES then Attempts(hash, hex, responses, attempt + 1) else None
    case Fatal => None
  }

  function Download(hash: Bytes -> Sha256Digest, expected: string, responses: seq<Response>): (r: Option<Bytes>) {
    match Text.StripPrefix(expected, PREFIX)
    case None => None
    case Some(hex) => if |Utf8(hex)| != 64 then None else Attempts(hash, hex, responses, 0)
  }

  lemma {:induction false} AttemptsVerified(hash: Bytes -> Sha256Digest, hex: string, responses: seq<Response>,
                                            attempt: nat)
    requires attempt <= MAX_DOWNLOAD_RETRIES
    ensures var r := Attempts(hash, hex, responses, attempt);
      r.Some? ==> Hex(hash(r.value)) == hex
    decreases MAX_DOWNLOAD_RETRIES - attempt
  {
    if ResponseAt(responses, attempt).Transient? && attempt < MAX_DOWNLOAD_RETRIES {
      AttemptsVerified(hash, hex, responses, attempt + 1);
    }
  }

  /** Whatever the network delivers, a download that succeeds has the declared hash. */
  lemma DownloadVerified(hash: Bytes -> Sha256Digest, expected: string, responses: seq<Response>)
    ensures var r := Download(hash, expected, responses);
      r.Some? ==> expected == ToPrefixed(hash(r.value))
  {
    match Text.StripPrefix(expected, PREFIX) {
      case None =>
      case Some(hex) => AttemptsVerified(hash, hex, responses, 0);
    }
  }

  /**
   A declared hash can be met by some network exactly when it is the printed form of a digest that some
   bytes have: one spelled with upper-case digits is never met, although recipes may declare it.
   */
  lemma DownloadableHashes(hash: Bytes -> Sha256Digest, expected: string)
    ensures (exists responses :: Download(hash, expected, responses).Some?) <==>
            (exists b: Bytes :: expected == ToPrefixed(hash(b)))
    ensures (exists i :: 0 <= i < |expected| && 'A' <= expected[i] <= 'F') ==>
              forall responses :: Download(hash, expected, responses).None?
  {
    if responses :| Download(hash, expected, responses).Some? {
      DownloadVerified(hash, expected, responses);
    }
    if b: Bytes :| expected == ToPrefixed(hash(b)) {
      DownloadDelivers(hash, b);
    }
    forall responses | exists i :: 0 <= i < |expected| && 'A' <= expected[i] <= 'F'
      ensures Download(hash, expected, responses).None?
    {
      DownloadVerified(hash, expected, responses);
      PrintedInLowerCase();
    }
  }

  /** So no response to a recipe that declares `sha256:A…` is ever taken. */
  lemma UpperCaseIsNeverMet(hash: Bytes -> Sha256Digest, rest: string, responses: seq<Response>)
    ensures Download(hash, "sha256:A" + rest, responses).None?
  {
    hide Download;
    assert ("sha256:A" + rest)[7] == 'A';
    DownloadableHashes(hash, "sha256:A" + rest);
  }

  lemma PrintedInLowerCase()
    ensures forall d: Sha256Digest, i ::
              0 <= i < |ToPrefixed(d)| ==> !('A' <= ToPrefixed(d)[i] <= 'F')
  {
    forall d: Sha256Digest, i | 0 <= i < |ToPrefixed(d)|
      ensures !('A' <= ToPrefixed(d)[i] <= 'F')
    {
      HexBytesLower(d);
      assert i >= |PREFIX| ==> ToPrefixed(d)[i] == Hex(d)[i - |PREFIX|];
    }
  }

  // ----- fetching the sources of a recipe -----

  /** `filename` is the last segment of the URL's path. */
  datatype Source = Source(url: string, filename: string, hash: Option<string>)

  datatype FetchReport = FetchReport(fetched: nat, cached: nat, skipped: nat, failed: nat, errors: seq<string>)

  const NS_SOURCES := "sources"

  function SourceRef(s: Source): seq<string> {
    [NS_SOURCES, s.filename]
  }

  /** Where to look: a replacement for each mirror whose prefix fits, then the URL itself. */
  function Candidates(url: string, mirrors: seq<(string, string)>): (r: seq<string>)
    ensures |r| > 0 && r[|r| - 1] == url
  {
    if mirrors == [] then [url]
    else
      var rest := Candidates(url, mirrors[1..]);
      match Text.StripPrefix(url, mirrors[0].0)
      case Some(tail) => [mirrors[0].1 + tail] + rest
      case None => rest
  }

  /** The candidates from the `j`-th on are asked in turn. */
  function FirstDownload(hash: Bytes -> Sha256Digest, expected: string, urls: seq<string>, net: Answers, j: nat)
    : Option<Bytes>
  {
    if urls == [] then None
    else match Download(hash, expected, net(j, urls[0]))
      case Some(b) => Some(b)
      case None => FirstDownload(hash, expected, urls[1..], net, j + 1)
  }

  datatype Outcome = Cached | Skipped | Fetched | Failed | Aborted(error: StoreError)

  datatype Fetch = Fetch(disk: Disk, outcome: Outcome)

  /** Put the object, then refer to it. */
  function Cache(setup: R.Setup, disk: Disk, p: seq<string>, data: Bytes): Fetch {
    match PutResult(setup.hash, setup.pid, disk, data)
    case Err(e) => Fetch(disk, Aborted(e))
    case Ok(d) =>
      var disk1 := PutDisk(setup.hash, setup.pid, disk, data);
      Fetch(AddRefDisk(disk1, p, d), if CanWriteRef(disk1, p) then Fetched else Aborted(Io))
  }

  /** Put a file that two passes read as `first` and `second`, then refer to it. */
  function CacheFile(setup: R.Setup, disk: Disk, p: seq<string>, first: Bytes, second: Bytes): Fetch {
    var disk1 := PutFileDisk(setup.hash, setup.pid, disk, first, second);
    match PutFileResult(setup.hash, setup.pid, disk, first, second)
    case Err(e) => Fetch(disk1, Aborted(e))
    case Ok(d) => Fetch(AddRefDisk(disk1, p, d), if CanWriteRef(disk1, p) then Fetched else Aborted(Io))
  }

  /** One source. A reference that cannot be read counts as missing. */
  function FetchOne(setup: R.Setup, disk: Disk, s: Source, mirrors: seq<(string, string)>, net: Answers): Fetch {
    var p := SourceRef(s);
    if p in disk.refs && RefDigest(disk.refs[p]) == Panicked then Fetch(disk, Aborted(Panic))
    else if p in disk.refs && RefDigest(disk.refs[p]).Parsed? then Fetch(disk, Cached)
    else match s.hash
      case None => Fetch(disk, Skipped)
      case Some(expected) =>
        match FirstDownload(setup.hash, expected, Candidates(s.url, mirrors), net, 0)
        case None => Fetch(disk, Failed)
        case Some(data) => Cache(setup, disk, p, data)
  }

  datatype FetchAll = FetchAll(disk: Disk, result: Result<FetchReport, StoreError>)

  function Tally(report: FetchReport, outcome: Outcome, url: string): FetchReport
    requires !outcome.Aborted?
  {
    match outcome
    case Cached => report.(cached := report.cached + 1)
    case Skipped => report.(skipped := report.skipped + 1)
    case Fetched => report.(fetched := report.fetched + 1)
    case Failed => report.(failed := report.failed + 1, errors := report.errors + [url])
  }

  /** The sources from the `k`-th on, one after the other. */
  function FetchSources(setup: R.Setup, disk: Disk, sources: seq<Source>, mirrors: seq<(string, string)>,
                        net: Network, k: nat, report: FetchReport): FetchAll
    decreases |sources|
  {
    if sources == [] then FetchAll(disk, Ok(report))
    else
      var one := FetchOne(setup, disk, sources[0], mirrors, net(k));
      if one.outcome.Aborted? then FetchAll(one.disk, Err(one.outcome.error))
      else FetchSources(setup, one.disk, sources[1..], mirrors, net, k + 1, Tally(report, one.outcome, sources[0].url))
  }

  const NOTHING: FetchReport := FetchReport(0, 0, 0, 0, [])

  // ----- what a fetch does to the store -----

  /** `p` refers to a stored object whose content has the digest `d`. */
  ghost predicate RefersTo(setup: R.Setup, disk: Disk, p: seq<string>, d: Sha256Digest) {
    && p in disk.refs && RefDigest(disk.refs[p]) == Parsed(d)
    && R.IsStoredIn(disk, d) && setup.hash(disk.files[ObjectKey(d)].content) == d
  }

  /** A reference that a fetch may have written: it names an object with the hash that a source declares. */
  ghost predicate IsDeclared(setup: R.Setup, disk: Disk, p: seq<string>, sources: seq<Source>) {
    exists i, d: Sha256Digest ::
      0 <= i < |sources| && p == SourceRef(sources[i])
      && sources[i].hash == Some(ToPrefixed(d)) && RefersTo(setup, disk, p, d)
  }

  lemma {:induction false} FirstDownloadVerified(hash: Bytes -> Sha256Digest, expected: string, urls: seq<string>,
                                                 net: Answers, j: nat)
    ensures var r := FirstDownload(hash, expected, urls, net, j);
      r.Some? ==> expected == ToPrefixed(hash(r.value))
    decreases |urls|
  {
    if urls != [] {
      DownloadVerified(hash, expected, net(j, urls[0]));
      FirstDownloadVerified(hash, expected, urls[1..], net, j + 1);
    }
  }

  /** Storing and referring leave all other objects and references in place. */
  lemma CacheKeeps(setup: R.Setup, disk: Disk, p: seq<string>, data: Bytes)
    requires R.IsWellFormed(setup.hash, disk)
    ensures var f := Cache(setup, disk, p, data);
      && R.IsWellFormed(setup.hash, f.disk)
      && (f.outcome == Fetched || f.outcome.Aborted?)
      && (forall d: Sha256Digest :: R.IsStoredIn(disk, d) ==> R.IsStoredIn(f.disk, d))
      && (forall q :: q != p && q in disk.refs ==> q in f.disk.refs && f.disk.refs[q] == disk.refs[q])
      && (forall q :: q in f.disk.refs && q !in disk.refs ==> q == p && f.outcome == Fetched)
      && (f.outcome == Fetched ==> RefersTo(setup, f.disk, p, setup.hash(data)))
  {
    hide ObjectKey, TmpKey, Hex, RefDigest;
    var put := R.PutBytes(data);
    R.KeyFacts();
    R.RefFacts();
    R.KeepsWellFormed(setup, disk, put);
    var disk1 := R.Perform(setup, disk, put);
    R.KeepsWellFormed(setup, disk1, R.AddRef(p, setup.hash(data)));
  }

  /**
   Caching a package file: other objects and references stay, and if it succeeds the reference names an
   object with the hash that the first pass found. A file that is edited in between gets no reference.
   */
  lemma CacheFileKeeps(setup: R.Setup, disk: Disk, p: seq<string>, first: Bytes, second: Bytes)
    requires R.IsWellFormed(setup.hash, disk)
    ensures var f := CacheFile(setup, disk, p, first, second);
      && R.IsWellFormed(setup.hash, f.disk)
      && (forall d: Sha256Digest :: R.IsStoredIn(disk, d) ==> R.IsStoredIn(f.disk, d))
      && (forall q :: q != p && q in disk.refs ==> q in f.disk.refs && f.disk.refs[q] == disk.refs[q])
      && (forall q :: q in f.disk.refs && q !in disk.refs ==> q == p && f.outcome == Fetched)
      && (f.outcome == Fetched ==> RefersTo(setup, f.disk, p, setup.hash(first)))
      && (f.outcome == Aborted(HashMismatch) ==> setup.hash(first) != setup.hash(second) && f.disk.refs == disk.refs)
  {
    hide ObjectKey, TmpKey, Hex, RefDigest;
    var put := R.PutFile(first, second);
    R.KeyFacts();
    R.RefFacts();
    R.KeepsWellFormed(setup, disk, put);
    var disk1 := R.Perform(setup, disk, put);
    R.KeepsWellFormed(setup, disk1, R.AddRef(p, setup.hash(first)));
  }

  /** What a fetch keeps: references and objects stay, and new references name what was declared. */
  ghost predicate FetchKept(setup: R.Setup, before: Disk, after: Disk, sources: seq<Source>) {
    && R.IsWellFormed(setup.hash, after)
    && (forall d: Sha256Digest :: R.IsStoredIn(before, d) ==> R.IsStoredIn(after, d))
    && (forall q :: q in before.refs ==> q in after.refs && after.refs[q] == before.refs[q])
    && (forall q :: q in after.refs && q !in before.refs ==> IsDeclared(setup, after, q, sources))
  }

  lemma FetchOneKeeps(setup: R.Setup, disk: Disk, s: Source, mirrors: seq<(string, string)>, net: Answers)
    requires R.IsWellFormed(setup.hash, disk)
    ensures FetchKept(setup, disk, FetchOne(setup, disk, s, mirrors, net).disk, [s])
  {
    hide ObjectKey, Hex, RefDigest, Cache, ToPrefixed, Download;
    R.RefFacts();
    var p := SourceRef(s);
    if s.hash.Some? && p !in disk.refs {
      var urls := Candidates(s.url, mirrors);
      FirstDownloadVerified(setup.hash, s.hash.value, urls, net, 0);
      var data := FirstDownload(setup.hash, s.hash.value, urls, net, 0);
      if data.Some? {
        CacheKeeps(setup, disk, p, data.value);
        var after := Cache(setup, disk, p, data.value).disk;
        forall q | q in after.refs && q !in disk.refs
          ensures IsDeclared(setup, after, q, [s])
        {
          assert [s][0] == s && s.hash == Some(ToPrefixed(setup.hash(data.value)));
        }
      }
    }
  }

  lemma KeptCompose(setup: R.Setup, a: Disk, b: Disk, c: Disk, s: Source, rest: seq<Source>)
    requires FetchKept(setup, a, b, [s]) && FetchKept(setup, b, c, rest)
    ensures FetchKept(setup, a, c, [s] + rest)
  {
    hide ObjectKey, Hex, RefDigest, SourceRef, ToPrefixed;
    forall q | q in c.refs && q !in a.refs
      ensures IsDeclared(setup, c, q, [s] + rest)
    {
      if q in b.refs {
        var i, d: Sha256Digest :|
          0 <= i < |[s]| && q == SourceRef([s][i])
          && [s][i].hash == Some(ToPrefixed(d)) && RefersTo(setup, b, q, d);
        assert ([s] + rest)[0] == s;
        StoredContent(setup, c, d);
        assert RefersTo(setup, c, q, d);
      } else {
        var i, d: Sha256Digest :|
          0 <= i < |rest| && q == SourceRef(rest[i])
          && rest[i].hash == Some(ToPrefixed(d)) && RefersTo(setup, c, q, d);
        assert ([s] + rest)[i + 1] == rest[i];
      }
    }
  }

  lemma StoredContent(setup: R.Setup, disk: Disk, d: Sha256Digest)
    requires R.IsWellFormed(setup.hash, disk) && R.IsStoredIn(disk, d)
    ensures setup.hash(disk.files[ObjectKey(d)].content) == d
  {
    hide ObjectKey;
    R.KeyFacts();
  }

  /** Whichever mirrors supplied the bytes: each new reference names an object with a declared hash. */
  lemma {:induction false} FetchSourcesKeep(setup: R.Setup, disk: Disk, sources: seq<Source>,
                                            mirrors: seq<(string, string)>, net: Network, k: nat, report: FetchReport)
    requires R.IsWellFormed(setup.hash, disk)
    ensures FetchKept(setup, disk, FetchSources(setup, disk, sources, mirrors, net, k, report).disk, sources)
    decreases |sources|
  {
    hide FetchKept, FetchOne, R.IsWellFormed;
    if sources == [] {
      NothingFetched(setup, disk);
    } else {
      var one := FetchOne(setup, disk, sources[0], mirrors, net(k));
      FetchOneKeeps(setup, disk, sources[0], mirrors, net(k));
      KeptWellFormed(setup, disk, one.disk, [sources[0]]);
      assert [sources[0]] + sources[1..] == sources;
      if one.outcome.Aborted? {
        NothingFetched(setup, one.disk);
        KeptCompose(setup, disk, one.disk, one.disk, sources[0], sources[1..]);
      } else {
        var report' := Tally(report, one.outcome, sources[0].url);
        FetchSourcesKeep(setup, one.disk, sources[1..], mirrors, net, k + 1, report');
        var rest := FetchSources(setup, one.disk, sources[1..], mirrors, net, k + 1, report');
        KeptCompose(setup, disk, one.disk, rest.disk, sources[0], sources[1..]);
      }
    }
  }

  lemma NothingFetched(setup: R.Setup, disk: Disk)
    requires R.IsWellFormed(setup.hash, disk)
    ensures forall sources :: FetchKept(setup, disk, disk, sources)
  {
  }

  lemma KeptWellFormed(setup: R.Setup, before: Disk, after: Disk, sources: seq<Source>)
    requires FetchKept(setup, before, after, sources)
    ensures R.IsWellFormed(setup.hash, after)
  {
  }

  /** A report accounts for every source once, and lists the URLs that failed. */
  lemma {:induction false} ReportCountsSources(setup: R.Setup, disk: Disk, sources: seq<Source>,
                                               mirrors: seq<(string, string)>, net: Network, k: nat,
                                               report: FetchReport)
    ensures var r := FetchSources(setup, disk, sources, mirrors, net, k, report).result;
      r.Ok? ==>
        && r.value.fetched + r.value.cached + r.value.skipped + r.value.failed ==
             report.fetched + report.cached + report.skipped + report.failed + |sources|
        && |r.value.errors| - |report.errors| == r.value.failed - report.failed
    decreases |sources|
  {
    hide FetchOne;
    if sources != [] {
      var one := FetchOne(setup, disk, sources[0], mirrors, net(k));
      if !one.outcome.Aborted? {
        ReportCountsSources(setup, one.disk, sources[1..], mirrors, net, k + 1,
                            Tally(report, one.outcome, sources[0].url));
      }
    }
  }

  /** The reference of a source names the hash that the source declares. */
  ghost predicate MatchesDeclared(disk: Disk, s: Source) {
    exists d: Sha256Digest ::
      SourceRef(s) in disk.refs && RefDigest(disk.refs[SourceRef(s)]) == Parsed(d) && s.hash == Some(ToPrefixed(d))
  }

  /**
   A file name that is in the store already counts as cached, whatever hash it was stored under. So a
   source reported as fetched or cached is the declared one exactly when its name was free, or was taken
   by that very digest.
   */
  lemma CachedByNameOnly(setup: R.Setup, disk: Disk, s: Source, mirrors: seq<(string, string)>, net: Answers)
    requires R.IsWellFormed(setup.hash, disk) && s.hash.Some?
    requires var o := FetchOne(setup, disk, s, mirrors, net).outcome; o == Cached || o == Fetched
    ensures MatchesDeclared(FetchOne(setup, disk, s, mirrors, net).disk, s) <==>
              SourceRef(s) !in disk.refs || MatchesDeclared(disk, s)
  {
    hide ObjectKey, Hex, RefDigest, Cache, ToPrefixed, Download, SourceRef;
    R.RefFacts();
    var p := SourceRef(s);
    if p !in disk.refs {
      var urls := Candidates(s.url, mirrors);
      FirstDownloadVerified(setup.hash, s.hash.value, urls, net, 0);
      var data := FirstDownload(setup.hash, s.hash.value, urls, net, 0).value;
      CacheKeeps(setup, disk, p, data);
      var d := setup.hash(data);
      var after := FetchOne(setup, disk, s, mirrors, net).disk;
      assert after == Cache(setup, disk, p, data).disk;
      assert p in after.refs && RefDigest(after.refs[p]) == Parsed(d) && s.hash == Some(ToPrefixed(d));
    }
  }

  lemma DownloadDelivers(hash: Bytes -> Sha256Digest, data: Bytes)
    ensures Download(hash, ToPrefixed(hash(data)), [Body(data)]) == Some(data)
  {
    hide Hex, Utf8;
    var expected, hex := ToPrefixed(hash(data)), Hex(hash(data));
    assert PREFIX <= expected && expected[|PREFIX|..] == hex;
    HexBytesLower(hash(data));
    HexIsAscii(hash(data));
    assert Attempts(hash, hex, [Body(data)], 0) == Some(data);
  }

  lemma HexIsAscii(d: Sha256Digest)
    ensures |Utf8(Hex(d))| == 64
  {
    hide Utf8;
    HexBytesLower(d);
    Utf8Ascii(Hex(d));
  }

  /** A source that the network delivers at once, from the URL it declares. */
  lemma FetchDelivers(setup: R.Setup, s: Source, data: Bytes, net: Answers)
    requires s.hash == Some(ToPrefixed(setup.hash(data))) && net(0, s.url) == [Body(data)]
    ensures var f := FetchOne(setup, EMPTY, s, [], net);
      && f.outcome == Fetched && R.IsWellFormed(setup.hash, f.disk)
      && RefersTo(setup, f.disk, SourceRef(s), setup.hash(data))
  {
    hide ObjectKey, TmpKey, Hex, RefDigest, Download, ToPrefixed;
    R.EmptyIsWellFormed(setup.hash);
    DownloadDelivers(setup.hash, data);
    CacheKeeps(setup, EMPTY, SourceRef(s), data);
    var d := setup.hash(data);
    assert PutResult(setup.hash, setup.pid, EMPTY, data) == Ok(d);
    assert CanWriteRef(PutDisk(setup.hash, setup.pid, EMPTY, data), SourceRef(s));
  }

  /**
   Two recipes that name different tarballs alike: the second one is reported as cached, and its reference
   is the tarball of the first.
   */
  lemma SecondTarballIsFirst(setup: R.Setup, one: Bytes, two: Bytes, net: Answers)
    requires setup.hash(one) != setup.hash(two) && net(0, "https://a.org/v1.0.tar.gz") == [Body(one)]
    ensures var s := Source("https://a.org/v1.0.tar.gz", "v1.0.tar.gz", Some(ToPrefixed(setup.hash(one))));
      var t := Source("https://b.org/v1.0.tar.gz", "v1.0.tar.gz", Some(ToPrefixed(setup.hash(two))));
      var f := FetchOne(setup, EMPTY, s, [], net);
      var g := FetchOne(setup, f.disk, t, [], net);
      f.outcome == Fetched && g.outcome == Cached && !MatchesDeclared(g.disk, t)
  {
    hide ObjectKey, TmpKey, Hex, RefDigest, Download, FirstDownload, Cache;
    var s := Source("https://a.org/v1.0.tar.gz", "v1.0.tar.gz", Some(ToPrefixed(setup.hash(one))));
    FetchDelivers(setup, s, one, net);
    assert forall d: Sha256Digest :: ToPrefixed(d) == ToPrefixed(setup.hash(two)) ==> d == setup.hash(two) by {
      PrefixedInjective();
    }
  }

  lemma PrefixedInjective()
    ensures forall d: Sha256Digest, e: Sha256Digest :: ToPrefixed(d) == ToPrefixed(e) ==> d == e
  {
    hide Hex;
    forall d: Sha256Digest, e: Sha256Digest | ToPrefixed(d) == ToPrefixed(e)
      ensures d == e
    {
      assert ToPrefixed(d)[|PREFIX|..] == Hex(d) && ToPrefixed(e)[|PREFIX|..] == Hex(e);
      HexInjective(d, e);
    }
  }

  // ----- the loops -----

  method DownloadAndVerify(hash: Bytes -> Sha256Digest, expected: string, responses: seq<Response>)
      returns (r: Option<Bytes>)
    ensures r == Download(hash, expected, responses)
  {
    var stripped := Text.StripPrefix(expected, PREFIX);
    if stripped.None? || |Utf8(stripped.value)| != 64 {
      return None;
    }
    var attempt := 0;
    while attempt <= MAX_DOWNLOAD_RETRIES
      invariant attempt <= MAX_DOWNLOAD_RETRIES
      invariant Attempts(hash, stripped.value, responses, attempt) == Download(hash, expected, responses)
      decreases MAX_DOWNLOAD_RETRIES - attempt
    {
      match ResponseAt(responses, attempt) {
        case Body(b) =>
          return if Hex(hash(b)) == stripped.value then Some(b) else None;
        case Fatal => return None;
        case Transient =>
          if attempt == MAX_DOWNLOAD_RETRIES {
            return None;
          }
          attempt := attempt + 1;
      }
    }
  }

  /** Put bytes into the store and refer to them. */
  method StoreAndRefer(store: VacuoleStore, p: seq<string>, data: Bytes) returns (r: Outcome)
    modifies store
    ensures Fetch(store.Contents(), r) == Cache(R.Setup(store.hash, store.pid), old(store.Contents()), p, data)
  {
    var put := store.PutBytes(data);
    if put.Err? {
      return Aborted(put.error);
    }
    var ref := store.AddRef(p, put.value);
    r := if ref.Ok? then Fetched else Aborted(ref.error);
  }

  /** `store_in_cas`: put the package file that a build has written, and refer to it. */
  method StoreInCas(store: VacuoleStore, p: seq<string>, first: Bytes, second: Bytes) returns (r: Outcome)
    modifies store
    ensures Fetch(store.Contents(), r) ==
              CacheFile(R.Setup(store.hash, store.pid), old(store.Contents()), p, first, second)
  {
    hide PutFileDisk, PutFileResult, CanWriteRef, AddRefDisk;
    var put := store.PutFile(first, second);
    if put.Err? {
      return Aborted(put.error);
    }
    var ref := store.AddRef(p, put.value);
    r := if ref.Ok? then Fetched else Aborted(ref.error);
  }

  method CandidateUrls(url: string, mirrors: seq<(string, string)>) returns (urls: seq<string>)
    ensures urls == Candidates(url, mirrors)
  {
    urls := [];
    for i := 0 to |mirrors|
      invariant urls + Candidates(url, mirrors[i..]) == Candidates(url, mirrors)
    {
      var tail := Text.StripPrefix(url, mirrors[i].0);
      if tail.Some? {
        urls := urls + [mirrors[i].1 + tail.value];
      }
      assert mirrors[i..][1..] == mirrors[i + 1..];
    }
    urls := urls + [url];
  }

  /** The first URL, mirrors before the original, that delivers what was declared. */
  method TryUrls(hash: Bytes -> Sha256Digest, expected: string, urls: seq<string>, net: Answers)
      returns (r: Option<Bytes>)
    ensures r == FirstDownload(hash, expected, urls, net, 0)
  {
    for i := 0 to |urls|
      invariant FirstDownload(hash, expected, urls[i..], net, i) == FirstDownload(hash, expected, urls, net, 0)
    {
      assert urls[i..][1..] == urls[i + 1..];
      r := DownloadAndVerify(hash, expected, net(i, urls[i]));
      if r.Some? {
        return;
      }
    }
    r := None;
  }

  method FetchSource(store: VacuoleStore, s: Source, mirrors: seq<(string, string)>, net: Answers)
      returns (r: Outcome)
    modifies store
    ensures Fetch(store.Contents(), r) ==
              FetchOne(R.Setup(store.hash, store.pid), old(store.Contents()), s, mirrors, net)
  {
    hide Cache, FirstDownload, Candidates, Parse, Text.Trim, CanWriteRef, PutDisk, AddRefDisk;
    var p := SourceRef(s);
    var resolved := store.ResolveRef(p);
    if resolved == Err(Panic) {
      return Aborted(Panic);
    }
    if resolved.Ok? && resolved.value.Some? {
      return Cached;
    }
    if s.hash.None? {
      return Skipped;
    }
    var urls := CandidateUrls(s.url, mirrors);
    var data := TryUrls(store.hash, s.hash.value, urls, net);
    if data.None? {
      return Failed;
    }
    r := StoreAndRefer(store, p, data.value);
  }

  method FetchSourcesWithProgress(store: VacuoleStore, sources: seq<Source>, mirrors: seq<(string, string)>,
                                  net: Network)
      returns (r: Result<FetchReport, StoreError>)
    modifies store
    ensures FetchAll(store.Contents(), r) ==
              FetchSources(R.Setup(store.hash, store.pid), old(store.Contents()), sources, mirrors, net, 0, NOTHING)
  {
    hide FetchOne;
    var report := NOTHING;
    ghost var setup := R.Setup(store.hash, store.pid);
    for i := 0 to |sources|
      invariant FetchSources(setup, store.Contents(), sources[i..], mirrors, net, i, report) ==
                FetchSources(setup, old(store.Contents()), sources, mirrors, net, 0, NOTHING)
    {
      assert sources[i..][1..] == sources[i + 1..];
      var outcome := FetchSource(store, sources[i], mirrors, net(i));
      if outcome.Aborted? {
        return Err(outcome.error);
      }
      report := Tally(report, outcome, sources[i].url);
    }
    r := Ok(report);
  }
}
