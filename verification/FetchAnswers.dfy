/** What fetching comes to: which download is taken, what one source answers, and what the report says. */
module FetchAnswers {
  import opened Wrappers
  import opened Digest
  import opened VacuoleStore
  import opened StoreAnswers
  import opened StoreClients
  import R = StoreRuns
  import Text

  // ----- one URL -----

  /** The attempts before this one failed for the time being, and this one delivers `b`. */
  ghost predicate IsAnswered(responses: seq<Response>, from: nat, k: nat, b: Bytes) {
    && from <= k < |responses| && responses[k] == Body(b)
    && forall j :: from <= j < k ==> responses[j] == Transient
  }

  /** Attempts that fail for the time being make no difference. */
  lemma {:induction false} Retried(hash: Bytes -> Sha256Digest, hex: string, responses: seq<Response>,
                                   attempt: nat, k: nat)
    requires attempt <= k <= MAX_DOWNLOAD_RETRIES && k < |responses|
    requires forall j :: attempt <= j < k ==> responses[j] == Transient
    ensures Attempts(hash, hex, responses, attempt) == Attempts(hash, hex, responses, k)
    decreases k - attempt
  {
    if attempt < k {
      Retried(hash, hex, responses, attempt + 1, k);
    }
  }

  /** The attempt that a download succeeds with. */
  lemma {:induction false} AttemptsAnswer(hash: Bytes -> Sha256Digest, hex: string, responses: seq<Response>,
                                          attempt: nat)
    returns (k: nat)
    requires attempt <= MAX_DOWNLOAD_RETRIES && Attempts(hash, hex, responses, attempt).Some?
    ensures k <= MAX_DOWNLOAD_RETRIES
    ensures IsAnswered(responses, attempt, k, Attempts(hash, hex, responses, attempt).value)
    decreases MAX_DOWNLOAD_RETRIES - attempt
  {
    if ResponseAt(responses, attempt).Transient? {
      k := AttemptsAnswer(hash, hex, responses, attempt + 1);
    } else {
      k := attempt;
    }
  }

  /**
   A download succeeds exactly with bytes of the declared hash that one of the first four attempts delivers,
   all attempts before it having failed for the time being only.
   */
  lemma DownloadAnswers(hash: Bytes -> Sha256Digest, expected: string, responses: seq<Response>, b: Bytes)
    ensures Download(hash, expected, responses) == Some(b) <==>
              expected == ToPrefixed(hash(b)) && exists k: nat :: k <= 3 && IsAnswered(responses, 0, k, b)
  {
    hide Hex, Utf8;
    assert ToPrefixed(hash(b))[|PREFIX|..] == Hex(hash(b));
    HexIsAscii(hash(b));
    if Download(hash, expected, responses) == Some(b) {
      DownloadVerified(hash, expected, responses);
      var k := AttemptsAnswer(hash, expected[|PREFIX|..], responses, 0);
    }
    if expected == ToPrefixed(hash(b)) {
      forall k: nat | k <= 3 && IsAnswered(responses, 0, k, b)
        ensures Download(hash, expected, responses) == Some(b)
      {
        Retried(hash, Hex(hash(b)), responses, 0, k);
      }
    }
  }

  // ----- the candidates -----

  /** How many of the first `i` mirrors fit the URL. */
  function Fitting(url: string, mirrors: seq<(string, string)>, i: nat): nat
    requires i <= |mirrors|
  {
    if i == 0 then 0 else Fitting(url, mirrors, i - 1) + if mirrors[i - 1].0 <= url then 1 else 0
  }

  lemma {:induction false} FittingCons(url: string, mirrors: seq<(string, string)>, i: nat)
    requires 0 < i <= |mirrors|
    ensures Fitting(url, mirrors, i) ==
              Fitting(url, mirrors[1..], i - 1) + if mirrors[0].0 <= url then 1 else 0
    decreases i
  {
    if i > 1 {
      FittingCons(url, mirrors, i - 1);
      assert mirrors[1..][i - 2] == mirrors[i - 1];
    }
  }

  /** The URL with the prefix that the mirror stands for replaced. */
  function Replaced(url: string, mirror: (string, string)): string
    requires mirror.0 <= url
  {
    mirror.1 + url[|mirror.0|..]
  }

  lemma CandidatesCons(url: string, mirrors: seq<(string, string)>)
    requires mirrors != []
    ensures Candidates(url, mirrors) ==
              (if mirrors[0].0 <= url then [Replaced(url, mirrors[0])] else []) + Candidates(url, mirrors[1..])
  {
  }

  lemma {:induction false} CandidateCount(url: string, mirrors: seq<(string, string)>)
    ensures |Candidates(url, mirrors)| == Fitting(url, mirrors, |mirrors|) + 1
  {
    if mirrors != [] {
      CandidateCount(url, mirrors[1..]);
      FittingCons(url, mirrors, |mirrors|);
    }
  }

  lemma {:induction false} CandidateOf(url: string, mirrors: seq<(string, string)>, i: nat)
    requires i < |mirrors| && mirrors[i].0 <= url
    ensures Fitting(url, mirrors, i) < |Candidates(url, mirrors)| - 1
    ensures Candidates(url, mirrors)[Fitting(url, mirrors, i)] == Replaced(url, mirrors[i])
    decreases i
  {
    hide Candidates, Replaced;
    CandidatesCons(url, mirrors);
    if i > 0 {
      CandidateOf(url, mirrors[1..], i - 1);
      FittingCons(url, mirrors, i);
    }
  }

  /**
   The candidates are, for each mirror that fits and in their order, the URL with the prefix replaced, and then
   the URL itself.
   */
  lemma CandidatesAnswer(url: string, mirrors: seq<(string, string)>)
    ensures var r := Candidates(url, mirrors);
      && |r| == Fitting(url, mirrors, |mirrors|) + 1 && r[|r| - 1] == url
      && forall i {:trigger mirrors[i]} :: 0 <= i < |mirrors| && mirrors[i].0 <= url ==>
           Fitting(url, mirrors, i) < |r| - 1 && r[Fitting(url, mirrors, i)] == Replaced(url, mirrors[i])
  {
    hide Replaced, Fitting;
    CandidateCount(url, mirrors);
    forall i {:trigger mirrors[i]} | 0 <= i < |mirrors| && mirrors[i].0 <= url
      ensures Fitting(url, mirrors, i) < |Candidates(url, mirrors)| - 1
      ensures Candidates(url, mirrors)[Fitting(url, mirrors, i)] == Replaced(url, mirrors[i])
    {
      CandidateOf(url, mirrors, i);
    }
  }

  /** Candidate `i` delivers `b`, and no candidate before it delivers anything. */
  ghost predicate Delivers(hash: Bytes -> Sha256Digest, expected: string, urls: seq<string>, net: Answers, from: nat,
                           i: nat, b: Bytes)
  {
    && i < |urls| && Download(hash, expected, net(from + i, urls[i])) == Some(b)
    && forall j :: 0 <= j < i ==> Download(hash, expected, net(from + j, urls[j])).None?
  }

  ghost predicate NoneDelivers(hash: Bytes -> Sha256Digest, expected: string, urls: seq<string>, net: Answers,
                               from: nat)
  {
    forall j :: 0 <= j < |urls| ==> Download(hash, expected, net(from + j, urls[j])).None?
  }

  lemma {:induction false} FirstDecides(hash: Bytes -> Sha256Digest, expected: string, urls: seq<string>,
                                        net: Answers, from: nat, i: nat)
    requires i <= |urls|
    requires forall j :: 0 <= j < i ==> Download(hash, expected, net(from + j, urls[j])).None?
    requires i < |urls| ==> Download(hash, expected, net(from + i, urls[i])).Some?
    ensures FirstDownload(hash, expected, urls, net, from) ==
              if i < |urls| then Download(hash, expected, net(from + i, urls[i])) else None
    decreases |urls|
  {
    hide Download;
    if i > 0 {
      assert Download(hash, expected, net(from + 0, urls[0])).None?;
      forall j | 0 <= j < i - 1
        ensures Download(hash, expected, net(from + 1 + j, urls[1..][j])).None?
      {
        assert Download(hash, expected, net(from + (j + 1), urls[j + 1])).None?;
        assert from + 1 + j == from + (j + 1);
      }
      assert from + 1 + (i - 1) == from + i;
      FirstDecides(hash, expected, urls[1..], net, from + 1, i - 1);
    } else if urls != [] {
      assert from + 0 == from;
    }
  }

  /** The first candidate that delivers, if there is one. */
  lemma FirstDelivery(hash: Bytes -> Sha256Digest, expected: string, urls: seq<string>, net: Answers, from: nat)
    returns (i: nat)
    ensures i <= |urls|
    ensures forall j :: 0 <= j < i ==> Download(hash, expected, net(from + j, urls[j])).None?
    ensures i < |urls| ==> Download(hash, expected, net(from + i, urls[i])).Some?
  {
    hide Download;
    i := 0;
    while i < |urls| && Download(hash, expected, net(from + i, urls[i])).None?
      invariant i <= |urls|
      invariant forall j :: 0 <= j < i ==> Download(hash, expected, net(from + j, urls[j])).None?
    {
      i := i + 1;
    }
  }

  /**
   The first candidate that delivers decides, whatever the ones before it came to; there is no download only
   if none of them delivers, the URL itself included.
   */
  lemma FirstDownloadAnswers(hash: Bytes -> Sha256Digest, expected: string, urls: seq<string>, net: Answers,
                             from: nat)
    ensures var r := FirstDownload(hash, expected, urls, net, from);
      && (r.None? <==> NoneDelivers(hash, expected, urls, net, from))
      && forall b :: r == Some(b) <==> exists i :: Delivers(hash, expected, urls, net, from, i, b)
  {
    hide Download, FirstDownload;
    var i := FirstDelivery(hash, expected, urls, net, from);
    FirstDecides(hash, expected, urls, net, from, i);
    if i < |urls| {
      assert Delivers(hash, expected, urls, net, from, i, Download(hash, expected, net(from + i, urls[i])).value);
    }
    forall k, b | Delivers(hash, expected, urls, net, from, k, b)
      ensures FirstDownload(hash, expected, urls, net, from) == Some(b)
    {
      FirstDecides(hash, expected, urls, net, from, k);
    }
  }

  // ----- one source -----

  /** No digest can be read under the name of the source: there is no reference, or a malformed one. */
  predicate IsFree(disk: Disk, s: Source) {
    SourceRef(s) !in disk.refs || RefDigest(disk.refs[SourceRef(s)]).InvalidDigest?
  }

  /**
   What one source comes to. A name that is taken is cached, whatever its hash; one that is free is skipped if
   no hash is declared, fails if none of the candidates delivers it, and is otherwise put into the store as
   the first of them delivers it.
   */
  lemma FetchAnswersOne(setup: R.Setup, disk: Disk, s: Source, mirrors: seq<(string, string)>, net: Answers)
    ensures var f := FetchOne(setup, disk, s, mirrors, net);
      var urls := Candidates(s.url, mirrors);
      && (!IsFree(disk, s) ==>
            f == Fetch(disk, if RefDigest(disk.refs[SourceRef(s)]) == Panicked then Aborted(Panic) else Cached))
      && (IsFree(disk, s) && s.hash.None? ==> f == Fetch(disk, Skipped))
      && (IsFree(disk, s) && s.hash.Some? && NoneDelivers(setup.hash, s.hash.value, urls, net, 0) ==>
            f == Fetch(disk, Failed))
      && (IsFree(disk, s) && s.hash.Some? ==>
            forall i, b :: Delivers(setup.hash, s.hash.value, urls, net, 0, i, b) ==>
              f == Cache(setup, disk, SourceRef(s), b))
  {
    hide Candidates, FirstDownload, RefDigest, Cache, Delivers, NoneDelivers, SourceRef;
    if s.hash.Some? {
      var urls := Candidates(s.url, mirrors);
      FirstDownloadAnswers(setup.hash, s.hash.value, urls, net, 0);
      forall i, b | Delivers(setup.hash, s.hash.value, urls, net, 0, i, b)
        ensures FirstDownload(setup.hash, s.hash.value, urls, net, 0) == Some(b)
      {
      }
    }
  }

  /** On an orderly store caching succeeds, the reference names the bytes, and the store stays orderly. */
  lemma CacheSucceeds(setup: R.Setup, disk: Disk, p: seq<string>, data: Bytes)
    requires IsOrderly(setup.hash, disk) && IsRoot(p)
    ensures var f := Cache(setup, disk, p, data);
      f.outcome == Fetched && RefersTo(setup, f.disk, p, setup.hash(data)) && IsOrderly(setup.hash, f.disk)
  {
    hide ObjectKey, TmpKey, Hex, RefDigest, CanWriteRef, AddRefDisk;
    PutsSucceed(setup, disk, data, data);
    var disk1 := R.Perform(setup, disk, R.PutBytes(data));
    R.KeepsWellFormed(setup, disk, R.PutBytes(data));
    R.PutLeavesRefs(setup, disk, R.PutBytes(data));
    RefsSucceed(setup.hash, disk1, p, setup.hash(data));
    CacheKeeps(setup, disk, p, data);
  }

  /** Caching a package file fails only if it is edited in between, and is not stored already. */
  lemma CacheFileSucceeds(setup: R.Setup, disk: Disk, p: seq<string>, first: Bytes, second: Bytes)
    requires IsOrderly(setup.hash, disk) && IsRoot(p)
    ensures var f := CacheFile(setup, disk, p, first, second);
      && IsOrderly(setup.hash, f.disk)
      && if R.IsStoredIn(disk, setup.hash(first)) || setup.hash(first) == setup.hash(second)
         then f.outcome == Fetched && RefersTo(setup, f.disk, p, setup.hash(first))
         else f.outcome == Aborted(HashMismatch)
  {
    hide ObjectKey, TmpKey, Hex, RefDigest, CanWriteRef, AddRefDisk, R.IsStoredIn;
    PutsSucceed(setup, disk, first, second);
    var put := R.PutFile(first, second);
    R.KeepsWellFormed(setup, disk, put);
    R.PutLeavesRefs(setup, disk, put);
    RefsSucceed(setup.hash, R.Perform(setup, disk, put), p, setup.hash(first));
    CacheFileKeeps(setup, disk, p, first, second);
  }

  /** Every source of a fetch finds the store orderly, so none is aborted. */
  lemma FetchSucceeds(setup: R.Setup, disk: Disk, s: Source, mirrors: seq<(string, string)>, net: Answers)
    requires IsOrderly(setup.hash, disk)
    ensures var f := FetchOne(setup, disk, s, mirrors, net);
      var urls := Candidates(s.url, mirrors);
      && IsOrderly(setup.hash, f.disk)
      && f.outcome == (if SourceRef(s) in disk.refs then Cached
                       else if s.hash.None? then Skipped
                       else if NoneDelivers(setup.hash, s.hash.value, urls, net, 0) then Failed
                       else Fetched)
      && (f.outcome == Fetched ==>
            exists i, b :: Delivers(setup.hash, s.hash.value, urls, net, 0, i, b)
                           && RefersTo(setup, f.disk, SourceRef(s), setup.hash(b)))
      && (f.outcome != Fetched ==> f.disk == disk)
  {
    hide Hex, RefDigest, Cache, Delivers, NoneDelivers, Candidates, FirstDownload, R.IsStoredIn;
    R.RefFacts();
    FetchAnswersOne(setup, disk, s, mirrors, net);
    if SourceRef(s) !in disk.refs && s.hash.Some? {
      var urls := Candidates(s.url, mirrors);
      FirstDownloadAnswers(setup.hash, s.hash.value, urls, net, 0);
      var r := FirstDownload(setup.hash, s.hash.value, urls, net, 0);
      if r.Some? {
        CacheSucceeds(setup, disk, SourceRef(s), r.value);
      }
    }
  }

  // ----- a whole fetch -----

  /** What the sources come to in turn, each on the disk that the one before it leaves. */
  ghost predicate AreFetches(setup: R.Setup, disk: Disk, sources: seq<Source>, mirrors: seq<(string, string)>,
                             net: Network, k: nat, fetches: seq<Fetch>)
    decreases |fetches|
  {
    fetches == [] ||
    (sources != [] && fetches[0] == FetchOne(setup, disk, sources[0], mirrors, net(k))
     && AreFetches(setup, fetches[0].disk, sources[1..], mirrors, net, k + 1, fetches[1..]))
  }

  function Count(fetches: seq<Fetch>, outcome: Outcome): nat {
    if fetches == [] then 0 else (if fetches[0].outcome == outcome then 1 else 0) + Count(fetches[1..], outcome)
  }

  function FailedUrls(fetches: seq<Fetch>, sources: seq<Source>): seq<string>
    requires |fetches| <= |sources|
  {
    if fetches == [] then []
    else (if fetches[0].outcome == Failed then [sources[0].url] else []) + FailedUrls(fetches[1..], sources[1..])
  }

  /** The report with so many more sources under each heading. */
  function Reported(report: FetchReport, fetches: seq<Fetch>, sources: seq<Source>): FetchReport
    requires |fetches| <= |sources|
  {
    FetchReport(report.fetched + Count(fetches, Fetched), report.cached + Count(fetches, Cached),
                report.skipped + Count(fetches, Skipped), report.failed + Count(fetches, Failed),
                report.errors + FailedUrls(fetches, sources))
  }

  lemma ReportedCons(report: FetchReport, one: Fetch, rest: seq<Fetch>, sources: seq<Source>)
    requires |rest| < |sources| && !one.outcome.Aborted?
    ensures Reported(report, [one] + rest, sources) ==
              Reported(Tally(report, one.outcome, sources[0].url), rest, sources[1..])
  {
    assert ([one] + rest)[1..] == rest;
    assert report.errors + ([sources[0].url] + FailedUrls(rest, sources[1..])) ==
           report.errors + [sources[0].url] + FailedUrls(rest, sources[1..]);
    assert [] + FailedUrls(rest, sources[1..]) == FailedUrls(rest, sources[1..]);
  }

  lemma ReportedNone(report: FetchReport, sources: seq<Source>)
    ensures Reported(report, [], sources) == report
  {
  }

  /**
   A fetch takes the sources in turn. If none is aborted, the report counts each under what it came to and lists
   the URLs of those that failed, in order; the first that is aborted ends the fetch with its error.
   */
  lemma {:induction false} ReportAnswers(setup: R.Setup, disk: Disk, sources: seq<Source>,
                                         mirrors: seq<(string, string)>, net: Network, k: nat, report: FetchReport)
    returns (fetches: seq<Fetch>)
    ensures |fetches| <= |sources| && AreFetches(setup, disk, sources, mirrors, net, k, fetches)
    ensures forall i :: 0 <= i < |fetches| - 1 ==> !fetches[i].outcome.Aborted?
    ensures var all := FetchSources(setup, disk, sources, mirrors, net, k, report);
      && all.disk == (if fetches == [] then disk else fetches[|fetches| - 1].disk)
      && if fetches != [] && fetches[|fetches| - 1].outcome.Aborted?
         then all.result == Err(fetches[|fetches| - 1].outcome.error)
         else |fetches| == |sources| && all.result == Ok(Reported(report, fetches, sources))
    decreases |sources|
  {
    hide FetchOne, Reported, Tally, AreFetches;
    if sources == [] {
      fetches := [];
      ReportedNone(report, []);
      NoFetches(setup, disk, sources, mirrors, net, k);
    } else {
      var one := FetchOne(setup, disk, sources[0], mirrors, net(k));
      var rest := [];
      if one.outcome.Aborted? {
        NoFetches(setup, one.disk, sources[1..], mirrors, net, k + 1);
      } else {
        var report' := Tally(report, one.outcome, sources[0].url);
        rest := ReportAnswers(setup, one.disk, sources[1..], mirrors, net, k + 1, report');
        ReportedCons(report, one, rest, sources);
      }
      fetches := [one] + rest;
      FetchesCons(setup, disk, sources, mirrors, net, k, rest);
    }
  }

  lemma NoFetches(setup: R.Setup, disk: Disk, sources: seq<Source>, mirrors: seq<(string, string)>, net: Network,
                     k: nat)
    ensures AreFetches(setup, disk, sources, mirrors, net, k, [])
  {
  }

  lemma FetchesCons(setup: R.Setup, disk: Disk, sources: seq<Source>, mirrors: seq<(string, string)>,
                    net: Network, k: nat, rest: seq<Fetch>)
    requires sources != []
    requires var one := FetchOne(setup, disk, sources[0], mirrors, net(k));
      AreFetches(setup, one.disk, sources[1..], mirrors, net, k + 1, rest)
    ensures AreFetches(setup, disk, sources, mirrors, net, k,
                       [FetchOne(setup, disk, sources[0], mirrors, net(k))] + rest)
  {
    hide FetchOne;
    assert ([FetchOne(setup, disk, sources[0], mirrors, net(k))] + rest)[1..] == rest;
  }

  /** On an orderly store a fetch always ends with a report. */
  lemma {:induction false} FetchReports(setup: R.Setup, disk: Disk, sources: seq<Source>,
                                        mirrors: seq<(string, string)>, net: Network, k: nat, report: FetchReport)
    requires IsOrderly(setup.hash, disk)
    ensures var all := FetchSources(setup, disk, sources, mirrors, net, k, report);
      all.result.Ok? && IsOrderly(setup.hash, all.disk)
    decreases |sources|
  {
    hide FetchOne, IsOrderly, Delivers, NoneDelivers;
    if sources != [] {
      var one := FetchOne(setup, disk, sources[0], mirrors, net(k));
      FetchSucceeds(setup, disk, sources[0], mirrors, net(k));
      FetchReports(setup, one.disk, sources[1..], mirrors, net, k + 1, Tally(report, one.outcome, sources[0].url));
    }
  }
}
