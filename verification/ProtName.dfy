/** Package file names: how `pack` writes them and how the repository reads them. */
module ProtName {
  import opened Wrappers
  import Text
  import Version

  datatype ProtName = ProtName(name: string, version: string, release: nat, arch: string)

  /** The name `pack` gives the archive, without the extension. */
  function FileStem(p: ProtName): string {
    p.name + "-" + p.version + "-" + Text.Decimal(p.release) + "-" + p.arch
  }

  // ----- where the version starts -----

  /** A dash with a numeric character after it; which characters are numeric is Unicode's to say. */
  predicate IsSplit(s: string, i: int, numeric: char -> bool) {
    0 <= i < |s| - 1 && s[i] == '-' && numeric(s[i + 1])
  }

  /** The last such dash, or 0. */
  function LastSplit(s: string, numeric: char -> bool): (r: nat)
    ensures r == 0 || IsSplit(s, r, numeric)
    ensures forall i :: r < i ==> !IsSplit(s, i, numeric)
  {
    LastSplitBefore(s, |s|, numeric)
  }

  function LastSplitBefore(s: string, n: nat, numeric: char -> bool): (r: nat)
    requires n <= |s|
    ensures r == 0 || (r < n && IsSplit(s, r, numeric))
    ensures forall i :: r < i < n ==> !IsSplit(s, i, numeric)
  {
    if n == 0 then 0
    else if IsSplit(s, n - 1, numeric) then n - 1
    else LastSplitBefore(s, n - 1, numeric)
  }

  function NameOf(s: string, numeric: char -> bool): string {
    var at := LastSplit(s, numeric);
    if at > 0 then s[..at] else s
  }

  function VersionOf(s: string, numeric: char -> bool): string {
    var at := LastSplit(s, numeric);
    if at > 0 then s[at + 1..] else ""
  }

  /** `extract_name` and `extract_version` run the same loop over the characters. */
  method FindLastSplit(s: string, numeric: char -> bool) returns (lastSplit: nat)
    ensures lastSplit == 0 || IsSplit(s, lastSplit, numeric)
    ensures forall i :: lastSplit < i ==> !IsSplit(s, i, numeric)
    ensures lastSplit == LastSplit(s, numeric)
  {
    lastSplit := 0;
    for i := 0 to |s|
      invariant lastSplit == 0 || (lastSplit < i && IsSplit(s, lastSplit, numeric))
      invariant forall j :: lastSplit < j < i ==> !IsSplit(s, j, numeric)
    {
      if s[i] == '-' && i + 1 < |s| && numeric(s[i + 1]) {
        lastSplit := i;
      }
    }
  }

  method ExtractName(nameVer: string, numeric: char -> bool) returns (name: string)
    ensures name == NameOf(nameVer, numeric)
  {
    var lastSplit := FindLastSplit(nameVer, numeric);
    name := if lastSplit > 0 then nameVer[..lastSplit] else nameVer;
  }

  method ExtractVersion(nameVer: string, numeric: char -> bool) returns (version: string)
    ensures version == VersionOf(nameVer, numeric)
  {
    var lastSplit := FindLastSplit(nameVer, numeric);
    version := if lastSplit > 0 then nameVer[lastSplit + 1..] else "";
  }

  // ----- reading a file name -----

  function Parsed(stem: string, numeric: char -> bool): ProtName {
    match Text.RSplitOnce(stem, '-')
    case None => ProtName(stem, "", 1, "")
    case Some((nameVerRelease, arch)) =>
      match Text.RSplitOnce(nameVerRelease, '-')
      case None => ProtName(nameVerRelease, "", 1, arch)
      case Some((nameVer, releaseText)) =>
        var release := match Text.ParseUnsigned(releaseText, Text.U32_BOUND) case Some(n) => n case None => 1;
        ProtName(NameOf(nameVer, numeric), VersionOf(nameVer, numeric), release, arch)
  }

  /** `parse_prot_filename`. */
  method ParseProtFilename(stem: string, numeric: char -> bool) returns (p: ProtName)
    ensures p == Parsed(stem, numeric)
    ensures '-' !in p.arch && p.release < Text.U32_BOUND
  {
    match Text.RSplitOnce(stem, '-')
    case None =>
      p := ProtName(stem, "", 1, "");
    case Some((nameVerRelease, arch)) =>
      match Text.RSplitOnce(nameVerRelease, '-')
      case None =>
        p := ProtName(nameVerRelease, "", 1, arch);
      case Some((nameVer, releaseText)) =>
        var release := 1;
        var parsed := Text.ParseUnsigned(releaseText, Text.U32_BOUND);
        if parsed.Some? {
          release := parsed.value;
        }
        var name := ExtractName(nameVer, numeric);
        var version := ExtractVersion(nameVer, numeric);
        p := ProtName(name, version, release, arch);
  }

  // ----- reading what was written -----

  /** What a caller can check before packing. */
  predicate IsReadable(p: ProtName, numeric: char -> bool) {
    && p.name != "" && '-' !in p.arch
    && p.version != "" && numeric(p.version[0])
    && forall i :: 0 <= i < |p.version| ==> !IsSplit(p.version, i, numeric)
  }

  lemma ReleaseHasNoDash(release: nat)
    ensures '-' !in Text.Decimal(release)
  {
    assert Text.AllDigits(Text.Decimal(release));
  }

  /** With a dash-free architecture, only finding the start of the version is left. */
  lemma ParsedStem(p: ProtName, numeric: char -> bool)
    requires '-' !in p.arch && p.release < Text.U32_BOUND
    ensures var nameVer := p.name + "-" + p.version;
      Parsed(FileStem(p), numeric) ==
        ProtName(NameOf(nameVer, numeric), VersionOf(nameVer, numeric), p.release, p.arch)
  {
    hide Text.RSplitOnce, Text.Decimal, Text.ParseUnsigned, LastSplit;
    var nameVer := p.name + "-" + p.version;
    var release := Text.Decimal(p.release);
    ReleaseHasNoDash(p.release);
    Text.RSplitOnceAt(nameVer + "-" + release, '-', p.arch);
    Text.RSplitOnceAt(nameVer, '-', release);
    Text.ParseDecimal(p.release, Text.U32_BOUND);
  }

  lemma SplitAtVersion(name: string, version: string, numeric: char -> bool)
    ensures var s := name + "-" + version;
      && (IsSplit(s, |name|, numeric) <==> version != "" && numeric(version[0]))
      && (forall i :: IsSplit(s, |name| + 1 + i, numeric) && i >= 0 <==> IsSplit(version, i, numeric))
  {
  }

  /** The name and the version come apart again exactly at the dash written between them. */
  lemma NameAndVersion(name: string, version: string, numeric: char -> bool)
    ensures var s := name + "-" + version;
      NameOf(s, numeric) == name && VersionOf(s, numeric) == version <==>
      name != "" && LastSplit(s, numeric) == |name|
  {
    hide LastSplit;
    var s := name + "-" + version;
    assert s[..|name|] == name && s[|name| + 1..] == version;
    assert |NameOf(s, numeric)| == |name| ==> LastSplit(s, numeric) == |name|;
  }

  /**
   Reading gives back the four parts exactly when the name is not empty, the architecture has no dash,
   and the version starts with a numeric character that is its last one right after a dash. The release
   is any number its type holds.
   */
  lemma ReadsBack(p: ProtName, numeric: char -> bool)
    requires p.release < Text.U32_BOUND
    ensures Parsed(FileStem(p), numeric) == p <==> IsReadable(p, numeric)
  {
    hide Text.RSplitOnce, Text.Decimal, FileStem, NameOf, VersionOf, LastSplit;
    var s := p.name + "-" + p.version;
    if '-' !in p.arch {
      ParsedStem(p, numeric);
      NameAndVersion(p.name, p.version, numeric);
      SplitAtVersion(p.name, p.version, numeric);
      assert forall i :: IsSplit(p.version, i, numeric) ==> IsSplit(s, |p.name| + 1 + i, numeric);
      assert forall i :: i > |p.name| && IsSplit(s, i, numeric) ==> IsSplit(p.version, i - |p.name| - 1, numeric);
    } else {
      ArchHasNoDash(FileStem(p), numeric);
    }
  }

  lemma ArchHasNoDash(stem: string, numeric: char -> bool)
    ensures '-' !in Parsed(stem, numeric).arch
  {
    hide Text.RSplitOnce, Text.ParseUnsigned, NameOf, VersionOf;
  }

  /**
   What a stem is read as that no package was written to: one without a dash is a name, one with a single dash
   a name and an architecture, and a release that is no number counts as 1.
   */
  lemma OddStems(nameVer: string, releaseText: string, arch: string, numeric: char -> bool)
    requires '-' !in arch
    ensures Parsed(arch, numeric) == ProtName(arch, "", 1, "")
    ensures '-' !in nameVer ==> Parsed(nameVer + "-" + arch, numeric) == ProtName(nameVer, "", 1, arch)
    ensures '-' !in releaseText && Text.ParseUnsigned(releaseText, Text.U32_BOUND).None? ==>
              Parsed(nameVer + "-" + releaseText + "-" + arch, numeric) ==
                ProtName(NameOf(nameVer, numeric), VersionOf(nameVer, numeric), 1, arch)
  {
    hide Text.RSplitOnce, Text.ParseUnsigned, NameOf, VersionOf;
    Text.RSplitOnceAt(nameVer, '-', arch);
    if '-' !in releaseText {
      Text.RSplitOnceAt(nameVer + "-" + releaseText, '-', arch);
      Text.RSplitOnceAt(nameVer, '-', releaseText);
    }
  }

  /** Readable packages never share a file name. */
  lemma StemsAreDistinct(p: ProtName, q: ProtName, numeric: char -> bool)
    requires IsReadable(p, numeric) && IsReadable(q, numeric)
    requires p.release < Text.U32_BOUND && q.release < Text.U32_BOUND
    requires FileStem(p) == FileStem(q)
    ensures p == q
  {
    hide FileStem, IsReadable, Parsed;
    ReadsBack(p, numeric);
    ReadsBack(q, numeric);
  }

  /** A version printed from its three numbers is always readable. */
  lemma PrintedVersionReadsBack(name: string, major: nat, minor: nat, patch: nat, release: nat, arch: string,
                                numeric: char -> bool)
    requires name != "" && '-' !in arch && release < Text.U32_BOUND
    requires forall c: char | Text.IsDigit(c) :: numeric(c)
    ensures var p := ProtName(name, Version.Print(major, minor, patch), release, arch);
      Parsed(FileStem(p), numeric) == p
  {
    hide Text.Decimal, FileStem, Parsed;
    Version.PrintedParts(major, minor, patch);
    assert Text.IsDigit(Version.Print(major, minor, patch)[0]) by {
      assert Text.Decimal(major) != "" && Text.AllDigits(Text.Decimal(major));
    }
    ReadsBack(ProtName(name, Version.Print(major, minor, patch), release, arch), numeric);
  }

  /** A version such as `1.0-2` moves the boundary: its head is read as part of the name. */
  lemma DashedVersionIsMisread(numeric: char -> bool)
    requires numeric('2')
    ensures Parsed(FileStem(ProtName("a", "1.0-2", 1, "any")), numeric) == ProtName("a-1.0", "2", 1, "any")
  {
    hide Text.RSplitOnce, Text.Decimal, FileStem, LastSplit;
    var p, s := ProtName("a", "1.0-2", 1, "any"), "a-1.0-2";
    assert p.name + "-" + p.version == s;
    ParsedStem(p, numeric);
    assert IsSplit(s, 5, numeric);
    assert LastSplit(s, numeric) == 5;
    assert s[..5] == "a-1.0" && s[6..] == "2";
  }
}
