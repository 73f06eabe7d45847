/** Package versions: how they are read and how they compare. */
module Version {
  import opened Wrappers
  import Text

  datatype Version = Version(major: nat, minor: nat, patch: nat, rest: string)

  datatype VersionError = Empty | InvalidComponent

  // ----- reading -----

  /** An empty component counts as zero. */
  function ParseComponent(s: string): Option<nat> {
    if s == "" then Some(0) else Text.ParseUnsigned(s, Text.U64_BOUND)
  }

  function PartAt(parts: seq<string>, i: nat): string {
    if i < |parts| then parts[i] else "0"
  }

  /** What follows the third component, after what follows the first dash. */
  function RestOf(parts: seq<string>, tail: string): string {
    var extra := if |parts| <= 3 then "" else Text.Join(parts[3..], '.');
    if extra == "" then tail else tail + "." + extra
  }

  function ParseCore(core: string, tail: string): Result<Version, VersionError> {
    var parts := Text.Split(core, '.');
    match (ParseComponent(parts[0]), ParseComponent(PartAt(parts, 1)), ParseComponent(PartAt(parts, 2)))
    case (Some(major), Some(minor), Some(patch)) => Ok(Version(major, minor, patch, RestOf(parts, tail)))
    case _ => Err(InvalidComponent)
  }

  function Parse(input: string): Result<Version, VersionError> {
    var s := Text.Trim(input);
    if s == "" then Err(Empty)
    else match Text.SplitOnce(s, '-')
      case Some((core, r)) => ParseCore(core, "-" + r)
      case None => ParseCore(s, "")
  }

  function Print(major: nat, minor: nat, patch: nat): string {
    Text.Decimal(major) + "." + (Text.Decimal(minor) + "." + Text.Decimal(patch))
  }

  lemma PrintedParts(major: nat, minor: nat, patch: nat)
    ensures var s := Print(major, minor, patch);
      && Text.Split(s, '.') == [Text.Decimal(major), Text.Decimal(minor), Text.Decimal(patch)]
      && s != "" && '-' !in s && Text.IsTrimmed(s)
  {
    hide Text.Decimal, Text.Split;
    var a, b, c := Text.Decimal(major), Text.Decimal(minor), Text.Decimal(patch);
    var s := Print(major, minor, patch);
    assert forall i :: 0 <= i < |s| ==> Text.IsDigit(s[i]) || s[i] == '.';
    Text.SplitCons(a, '.', b + "." + c);
    Text.SplitCons(b, '.', c);
    Text.SplitNone(c, '.');
  }

  /** Reading undoes printing, for all numbers that fit the fields. */
  lemma ParsePrinted(major: nat, minor: nat, patch: nat)
    requires major < Text.U64_BOUND && minor < Text.U64_BOUND && patch < Text.U64_BOUND
    ensures Parse(Print(major, minor, patch)) == Ok(Version(major, minor, patch, ""))
  {
    hide Print, Text.Decimal, Text.Split, Text.SplitOnce, Text.Trim, Text.ParseUnsigned;
    PrintedParts(major, minor, patch);
    Text.TrimTrimmed(Print(major, minor, patch));
    Text.ParseDecimal(major, Text.U64_BOUND);
    Text.ParseDecimal(minor, Text.U64_BOUND);
    Text.ParseDecimal(patch, Text.U64_BOUND);
  }

  /** The number a component stands for: nothing for no number, and zero for one that is empty or missing. */
  function NumberAt(parts: seq<string>, i: nat): Option<nat> {
    if i >= |parts| || parts[i] == "" then Some(0) else Text.ParseUnsigned(parts[i], Text.U64_BOUND)
  }

  lemma NumberIs(parts: seq<string>, i: nat)
    ensures ParseComponent(PartAt(parts, i)) == NumberAt(parts, i)
  {
    hide Text.ParseUnsigned, Text.Decimal;
    Text.SmallNumbers();
    Text.ParseDecimal(0, Text.U64_BOUND);
  }

  lemma CoreJoined(parts: seq<string>, tail: string)
    requires parts != [] && forall i :: 0 <= i < |parts| ==> '.' !in parts[i]
    requires |parts| > 3 ==> Text.Join(parts[3..], '.') != ""
    ensures var rest := tail + if |parts| > 3 then "." + Text.Join(parts[3..], '.') else "";
      ParseCore(Text.Join(parts, '.'), tail) ==
        match (NumberAt(parts, 0), NumberAt(parts, 1), NumberAt(parts, 2))
        case (Some(major), Some(minor), Some(patch)) => Ok(Version(major, minor, patch, rest))
        case _ => Err(InvalidComponent)
  {
    hide Text.Split, Text.Join, ParseComponent, NumberAt;
    Text.SplitJoin(parts, '.');
    NumberIs(parts, 0);
    NumberIs(parts, 1);
    NumberIs(parts, 2);
    var rest := tail + if |parts| > 3 then "." + Text.Join(parts[3..], '.') else "";
    assert tail + "" == tail;
    assert RestOf(parts, tail) == rest;
    assert parts[0] == PartAt(parts, 0);
    hide PartAt, RestOf;
  }

  /**
   How any version reads that is put together of components: the first three are numbers, or there is an error;
   a missing one is zero. What comes after a dash is kept with it, and further components come after that.
   */
  lemma ParseJoined(parts: seq<string>, dashed: bool, tail: string)
    requires parts != [] && forall i :: 0 <= i < |parts| ==> '.' !in parts[i] && '-' !in parts[i]
    requires var s := Text.Join(parts, '.') + if dashed then "-" + tail else ""; s != "" && Text.IsTrimmed(s)
    requires |parts| > 3 ==> Text.Join(parts[3..], '.') != ""
    ensures var s := Text.Join(parts, '.') + if dashed then "-" + tail else "";
      var rest := (if dashed then "-" + tail else "") + if |parts| > 3 then "." + Text.Join(parts[3..], '.') else "";
      Parse(s) == match (NumberAt(parts, 0), NumberAt(parts, 1), NumberAt(parts, 2))
                  case (Some(major), Some(minor), Some(patch)) => Ok(Version(major, minor, patch, rest))
                  case _ => Err(InvalidComponent)
  {
    hide Text.Trim, Text.SplitOnce, Text.Join, ParseCore, NumberAt;
    var core := Text.Join(parts, '.');
    JoinHasNoDash(parts);
    if dashed {
      ParsedDashed(core, tail);
      CoreJoined(parts, "-" + tail);
    } else {
      assert core + "" == core;
      Text.TrimTrimmed(core);
      CoreJoined(parts, "");
    }
  }

  /** The first dash is where a version is cut. */
  lemma ParsedDashed(core: string, tail: string)
    requires '-' !in core && Text.IsTrimmed(core + ("-" + tail))
    ensures Parse(core + ("-" + tail)) == ParseCore(core, "-" + tail)
  {
    hide Text.Trim, Text.SplitOnce, ParseCore;
    Text.TrimTrimmed(core + ("-" + tail));
    assert core + ("-" + tail) == core + ['-'] + tail;
    Text.SplitOnceAt(core, '-', tail);
  }

  lemma {:induction false} JoinHasNoDash(parts: seq<string>)
    requires forall i :: 0 <= i < |parts| ==> '-' !in parts[i]
    ensures '-' !in Text.Join(parts, '.')
  {
    if |parts| > 1 {
      JoinHasNoDash(parts[1..]);
    }
  }

  lemma OperatorStart(s: string)
    requires s != "" && (s[0] == '=' || s[0] == '<' || s[0] == '>')
    ensures ParseComponent(Text.Split(s, '.')[0]).None?
  {
    var first := Text.Split(s, '.')[0];
    assert first != "" && first[0] == s[0];
  }

  /** What can be read as a version starts with none of the characters that comparisons are written with. */
  lemma ParsedStart(s: string)
    requires Text.IsTrimmed(s) && Parse(s).Ok?
    ensures s != "" && s[0] != '=' && s[0] != '<' && s[0] != '>'
  {
    Text.TrimTrimmed(s);
    if s[0] == '=' || s[0] == '<' || s[0] == '>' {
      var core := match Text.SplitOnce(s, '-') case Some((c, _)) => c case None => s;
      assert core != "" && core[0] == s[0];
      OperatorStart(core);
    }
  }

  // ----- comparing -----

  /** `<`: the numbers count, `rest` does not. */
  predicate Less(a: Version, b: Version) {
    || a.major < b.major
    || (a.major == b.major && a.minor < b.minor)
    || (a.major == b.major && a.minor == b.minor && a.patch < b.patch)
  }

  predicate SameNumbers(a: Version, b: Version) {
    a.major == b.major && a.minor == b.minor && a.patch == b.patch
  }

  /** The order is strict and total up to `rest`; what neither precedes may yet differ. */
  lemma LessIsStrict(a: Version, b: Version, c: Version)
    ensures !Less(a, a)
    ensures Less(a, b) && Less(b, c) ==> Less(a, c)
    ensures !Less(a, b) && !Less(b, a) <==> SameNumbers(a, b)
    ensures SameNumbers(a, b) ==> (a == b <==> a.rest == b.rest)
  {
  }

  function Numbers(v: Version): seq<nat> {
    [v.major, v.minor, v.patch]
  }

  /** `a` is smaller at the first of the three numbers in which they differ. */
  ghost predicate IsBefore(a: Version, b: Version) {
    exists i :: 0 <= i < 3 && Numbers(a)[..i] == Numbers(b)[..i] && Numbers(a)[i] < Numbers(b)[i]
  }

  /** The order is that of the three numbers, the first that differs deciding. */
  lemma LessIsBefore(a: Version, b: Version)
    ensures Less(a, b) <==> IsBefore(a, b)
  {
    var m, n := Numbers(a), Numbers(b);
    assert m[..0] == n[..0];
    assert m[..1] == n[..1] <==> m[0] == n[0];
    assert m[..2] == n[..2] <==> m[0] == n[0] && m[1] == n[1] by {
      assert m[..2] == [m[0], m[1]] && n[..2] == [n[0], n[1]];
    }
  }

  datatype Constraint =
    | GreaterOrEqual(v: Version)
    | LessOrEqual(v: Version)
    | LessThan(v: Version)
    | GreaterThan(v: Version)
    | Equal(v: Version)

  predicate Satisfies(a: Version, c: Constraint) {
    match c
    case GreaterOrEqual(v) => !Less(a, v)
    case LessOrEqual(v) => !Less(v, a)
    case LessThan(v) => Less(a, v)
    case GreaterThan(v) => Less(v, a)
    case Equal(v) => a == v
  }

  /**
   `<=` and `>=` together do not make `=`, because equality looks at `rest` and the order does not: they
   do exactly when the two agree in `rest`. The strict constraints are what the others leave.
   */
  lemma BothWaysIsNotEqual(a: Version, v: Version)
    ensures Satisfies(a, LessThan(v)) <==> !Satisfies(a, GreaterOrEqual(v))
    ensures Satisfies(a, GreaterThan(v)) <==> !Satisfies(a, LessOrEqual(v))
    ensures Satisfies(a, LessOrEqual(v)) && Satisfies(a, GreaterOrEqual(v)) ==>
              (Satisfies(a, Equal(v)) <==> a.rest == v.rest)
  {
    LessIsStrict(a, v, v);
  }

  lemma DashedParse(tail: string)
    requires Text.IsTrimmed("1-" + tail)
    ensures Parse("1-" + tail) == Ok(Version(1, 0, 0, "-" + tail))
  {
    hide Text.Trim, Text.Split, Text.SplitOnce, Text.ParseUnsigned, Text.Decimal;
    var s := "1-" + tail;
    Text.TrimTrimmed(s);
    assert s == "1" + ['-'] + tail;
    Text.SplitOnceAt("1", '-', tail);
    Text.SplitNone("1", '.');
    Text.SmallNumbers();
    Text.ParseDecimal(0, Text.U64_BOUND);
    Text.ParseDecimal(1, Text.U64_BOUND);
  }

  /** `1-a` and `1-b` are each at least and at most the other, and not equal. */
  lemma DashedVersionsDiffer()
    ensures Parse("1-a").Ok? && Parse("1-b").Ok?
    ensures var a, b := Parse("1-a").value, Parse("1-b").value;
      && Satisfies(a, LessOrEqual(b)) && Satisfies(a, GreaterOrEqual(b)) && !Satisfies(a, Equal(b))
      && Satisfies(b, LessOrEqual(a)) && Satisfies(b, GreaterOrEqual(a)) && !Satisfies(b, Equal(a))
  {
    hide Parse;
    assert "1-" + "a" == "1-a" && "1-" + "b" == "1-b";
    DashedParse("a");
    DashedParse("b");
    assert ("-" + "a")[1] != ("-" + "b")[1];
  }
}
