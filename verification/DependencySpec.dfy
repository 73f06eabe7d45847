/** Dependency strings such as `glibc >= 2.39`, and the names that may stand in them. */
module DependencySpec {
  import opened Wrappers
  import Text
  import opened Version

  datatype Spec = Spec(name: string, constraint: Option<Constraint>)

  datatype SpecError = EmptySpec | InvalidFormat | InvalidName | InvalidVersion

  // ----- package names -----

  predicate IsNameChar(c: char) {
    'a' <= c <= 'z' || Text.IsDigit(c)
  }

  predicate IsNamePart(part: string) {
    part != "" && forall i :: 0 <= i < |part| ==> IsNameChar(part[i])
  }

  /** `is_valid_package_name`: dash-separated parts, the first of which starts with a letter. */
  predicate IsValidName(name: string) {
    var parts := Text.Split(name, '-');
    && IsNamePart(parts[0]) && 'a' <= parts[0][0] <= 'z'
    && forall i :: 0 < i < |parts| ==> IsNamePart(parts[i])
  }

  // ----- the regular expression that recipes are validated with -----

  datatype Regex = OneOf(chars: set<char>) | Then(first: Regex, second: Regex) | Star(body: Regex)

  ghost predicate Matches(r: Regex, s: string)
    decreases r, |s|
  {
    match r
    case OneOf(chars) => |s| == 1 && s[0] in chars
    case Then(a, b) => exists i :: 0 <= i <= |s| && Matches(a, s[..i]) && Matches(b, s[i..])
    case Star(a) => s == "" || exists i :: 0 < i <= |s| && Matches(a, s[..i]) && Matches(r, s[i..])
  }

  const LETTERS: set<char> := set c: char | 'a' <= c <= 'z'
  const LETTERS_AND_DIGITS: set<char> := set c: char | IsNameChar(c)

  /** `[a-z0-9]*` */
  const RUN: Regex := Star(OneOf(LETTERS_AND_DIGITS))
  /** `-[a-z0-9]+` */
  const DASHED: Regex := Then(OneOf({'-'}), Then(OneOf(LETTERS_AND_DIGITS), RUN))
  /** `^[a-z][a-z0-9]*(-[a-z0-9]+)*$` */
  const KEBAB_CASE: Regex := Then(OneOf(LETTERS), Then(RUN, Star(DASHED)))

  lemma MatchesThen(a: Regex, b: Regex, s: string, t: string)
    requires Matches(a, s) && Matches(b, t)
    ensures Matches(Then(a, b), s + t)
  {
    assert (s + t)[..|s|] == s && (s + t)[|s|..] == t;
  }

  lemma ThenMatches(a: Regex, b: Regex, s: string) returns (first: string, second: string)
    requires Matches(Then(a, b), s)
    ensures s == first + second && Matches(a, first) && Matches(b, second)
  {
    var i :| 0 <= i <= |s| && Matches(a, s[..i]) && Matches(b, s[i..]);
    first, second := s[..i], s[i..];
  }

  lemma OneMatches(chars: set<char>, s: string)
    ensures Matches(OneOf(chars), s) <==> |s| == 1 && s[0] in chars
  {
  }

  lemma MatchesMore(a: Regex, s: string, t: string)
    requires s != "" && Matches(a, s) && Matches(Star(a), t)
    ensures Matches(Star(a), s + t)
  {
    assert (s + t)[..|s|] == s && (s + t)[|s|..] == t;
  }

  predicate AllNameChars(s: string) {
    forall i :: 0 <= i < |s| ==> IsNameChar(s[i])
  }

  lemma {:induction false} RunMatches(s: string)
    ensures Matches(RUN, s) <==> AllNameChars(s)
    decreases |s|
  {
    if s != "" {
      if AllNameChars(s) {
        assert Matches(OneOf(LETTERS_AND_DIGITS), [s[0]]);
        RunMatches(s[1..]);
        MatchesMore(OneOf(LETTERS_AND_DIGITS), [s[0]], s[1..]);
        assert [s[0]] + s[1..] == s;
      }
      if Matches(RUN, s) {
        var i :| 0 < i <= |s| && Matches(OneOf(LETTERS_AND_DIGITS), s[..i]) && Matches(RUN, s[i..]);
        RunMatches(s[i..]);
        assert s == s[..i] + s[i..];
      }
    }
  }

  /** `[a-z0-9]+` */
  lemma PartMatches(s: string)
    ensures Matches(Then(OneOf(LETTERS_AND_DIGITS), RUN), s) <==> IsNamePart(s)
  {
    hide Matches;
    if IsNamePart(s) {
      OneMatches(LETTERS_AND_DIGITS, [s[0]]);
      RunMatches(s[1..]);
      MatchesThen(OneOf(LETTERS_AND_DIGITS), RUN, [s[0]], s[1..]);
      assert [s[0]] + s[1..] == s;
    }
    if Matches(Then(OneOf(LETTERS_AND_DIGITS), RUN), s) {
      var first, second := ThenMatches(OneOf(LETTERS_AND_DIGITS), RUN, s);
      OneMatches(LETTERS_AND_DIGITS, first);
      RunMatches(second);
    }
  }

  lemma DashedMatches(s: string)
    ensures Matches(DASHED, s) <==> |s| > 1 && s[0] == '-' && IsNamePart(s[1..])
  {
    hide Matches;
    var part := Then(OneOf(LETTERS_AND_DIGITS), RUN);
    if |s| > 1 && s[0] == '-' && IsNamePart(s[1..]) {
      PartMatches(s[1..]);
      OneMatches({'-'}, [s[0]]);
      MatchesThen(OneOf({'-'}), part, [s[0]], s[1..]);
      assert [s[0]] + s[1..] == s;
    }
    if Matches(DASHED, s) {
      var first, second := ThenMatches(OneOf({'-'}), part, s);
      OneMatches({'-'}, first);
      PartMatches(second);
      assert s[1..] == second;
    }
  }

  /** Each part with a dash before it. */
  function WithDashes(parts: seq<string>): string {
    if parts == [] then "" else "-" + parts[0] + WithDashes(parts[1..])
  }

  predicate AreNameParts(parts: seq<string>) {
    forall i :: 0 <= i < |parts| ==> IsNamePart(parts[i])
  }

  lemma {:induction false} DashesMatch(parts: seq<string>)
    requires AreNameParts(parts)
    ensures Matches(Star(DASHED), WithDashes(parts))
  {
    if parts != [] {
      var d := "-" + parts[0];
      DashedMatches(d);
      assert d[1..] == parts[0];
      DashesMatch(parts[1..]);
      MatchesMore(DASHED, d, WithDashes(parts[1..]));
    }
  }

  lemma {:induction false} PartsOfMatch(s: string) returns (parts: seq<string>)
    requires Matches(Star(DASHED), s)
    ensures AreNameParts(parts) && s == WithDashes(parts)
    decreases |s|
  {
    if s == "" {
      parts := [];
    } else {
      var i :| 0 < i <= |s| && Matches(DASHED, s[..i]) && Matches(Star(DASHED), s[i..]);
      DashedMatches(s[..i]);
      var rest := PartsOfMatch(s[i..]);
      parts := [s[..i][1..]] + rest;
      assert parts[1..] == rest;
      assert s == s[..i] + s[i..] && s[..i] == "-" + s[..i][1..];
    }
  }

  lemma {:induction false} JoinDashes(first: string, parts: seq<string>)
    ensures Text.Join([first] + parts, '-') == first + WithDashes(parts)
    decreases |parts|
  {
    var all := [first] + parts;
    if parts == [] {
      assert first + "" == first;
    } else {
      assert all[1..] == parts == [parts[0]] + parts[1..];
      JoinDashes(parts[0], parts[1..]);
    }
  }

  lemma SplitParts(first: string, parts: seq<string>)
    requires IsNamePart(first) && AreNameParts(parts)
    ensures Text.Split(first + WithDashes(parts), '-') == [first] + parts
  {
    var all := [first] + parts;
    forall i | 0 <= i < |all|
      ensures '-' !in all[i]
    {
      assert IsNamePart(all[i]);
    }
    JoinDashes(first, parts);
    Text.SplitJoin(all, '-');
  }

  /** The hand-written check accepts exactly the language of the regular expression. */
  lemma ValidNamesAreKebabCase(name: string)
    ensures IsValidName(name) <==> Matches(KEBAB_CASE, name)
  {
    hide Matches;
    if IsValidName(name) {
      var parts := Text.Split(name, '-');
      Text.JoinSplit(name, '-');
      assert parts == [parts[0]] + parts[1..];
      JoinDashes(parts[0], parts[1..]);
      KebabOfParts(parts[0], parts[1..]);
    }
    if Matches(KEBAB_CASE, name) {
      var first, parts := PartsOfKebab(name);
      SplitParts(first, parts);
    }
  }

  lemma KebabOfParts(first: string, parts: seq<string>)
    requires IsNamePart(first) && 'a' <= first[0] <= 'z' && AreNameParts(parts)
    ensures Matches(KEBAB_CASE, first + WithDashes(parts))
  {
    hide Matches, WithDashes;
    RunMatches(first[1..]);
    DashesMatch(parts);
    OneMatches(LETTERS, [first[0]]);
    MatchesThen(RUN, Star(DASHED), first[1..], WithDashes(parts));
    MatchesThen(OneOf(LETTERS), Then(RUN, Star(DASHED)), [first[0]], first[1..] + WithDashes(parts));
    assert [first[0]] + (first[1..] + WithDashes(parts)) == first + WithDashes(parts);
  }

  lemma PartsOfKebab(name: string) returns (first: string, parts: seq<string>)
    requires Matches(KEBAB_CASE, name)
    ensures IsNamePart(first) && 'a' <= first[0] <= 'z' && AreNameParts(parts)
    ensures name == first + WithDashes(parts)
  {
    hide Matches, WithDashes;
    var letter, t := ThenMatches(OneOf(LETTERS), Then(RUN, Star(DASHED)), name);
    var run, tail := ThenMatches(RUN, Star(DASHED), t);
    OneMatches(LETTERS, letter);
    RunMatches(run);
    parts := PartsOfMatch(tail);
    first := letter + run;
  }

  // ----- parsing -----

  /** The operators in the order in which they are looked for. */
  const OPERATORS: seq<string> := [">=", "<=", "<", ">", "="]

  function MakeConstraint(k: nat, v: Version): Constraint
    requires k < 5
  {
    match k
    case 0 => GreaterOrEqual(v)
    case 1 => LessOrEqual(v)
    case 2 => LessThan(v)
    case 3 => GreaterThan(v)
    case _ => Equal(v)
  }

  /** The text around an operator found at `idx`. */
  function ParseAround(input: string, idx: nat, k: nat): Result<Spec, SpecError>
    requires k < 5 && Text.IsAt(input, OPERATORS[k], idx)
  {
    var namePart := Text.Trim(input[..idx]);
    var versionPart := Text.Trim(input[idx + |OPERATORS[k]|..]);
    if namePart == "" || versionPart == "" then Err(InvalidFormat)
    else if !IsValidName(namePart) then Err(InvalidName)
    else match Parse(versionPart)
      case Err(_) => Err(InvalidVersion)
      case Ok(v) => Ok(Spec(namePart, Some(MakeConstraint(k, v))))
  }

  function ParseFrom(input: string, k: nat): Result<Spec, SpecError>
    requires k <= 5
    decreases 5 - k
  {
    if k == 5 then (if IsValidName(input) then Ok(Spec(input, None)) else Err(InvalidName))
    else match Text.Find(input, OPERATORS[k])
      case Some(idx) => ParseAround(input, idx, k)
      case None => ParseFrom(input, k + 1)
  }

  /** `parse_dependency_spec`. */
  function ParseSpec(text: string): Result<Spec, SpecError> {
    var input := Text.Trim(text);
    if input == "" then Err(EmptySpec) else ParseFrom(input, 0)
  }

  /** Every name that comes out is in the language of the regular expression. */
  lemma {:induction false} ParsedNameIsValid(text: string)
    ensures ParseSpec(text).Ok? ==> Matches(KEBAB_CASE, ParseSpec(text).value.name)
  {
    hide Matches, IsValidName, Text.Trim, Text.Find, Parse;
    var input := Text.Trim(text);
    if input != "" {
      ParsedFromIsValid(input, 0);
      if ParseSpec(text).Ok? {
        ValidNamesAreKebabCase(ParseSpec(text).value.name);
      }
    }
  }

  lemma {:induction false} ParsedFromIsValid(input: string, k: nat)
    requires k <= 5
    ensures ParseFrom(input, k).Ok? ==> IsValidName(ParseFrom(input, k).value.name)
    decreases 5 - k
  {
    hide IsValidName, Text.Trim, Text.Find, Parse;
    if k < 5 {
      ParsedFromIsValid(input, k + 1);
    }
  }

  // ----- reading back what was written -----

  predicate IsOperatorChar(c: char) {
    c == '<' || c == '>' || c == '='
  }

  predicate IsPlain(s: string) {
    forall i :: 0 <= i < |s| ==> !IsOperatorChar(s[i])
  }

  /** A name is made of name characters and dashes, so it holds no operator and no white space. */
  lemma {:induction false} JoinedChars(parts: seq<string>)
    requires AreNameParts(parts)
    ensures forall i :: 0 <= i < |Text.Join(parts, '-')| ==>
              IsNameChar(Text.Join(parts, '-')[i]) || Text.Join(parts, '-')[i] == '-'
  {
    if |parts| > 1 {
      JoinedChars(parts[1..]);
      assert Text.Join(parts, '-') == parts[0] + ['-'] + Text.Join(parts[1..], '-');
    }
  }

  lemma ValidNameChars(name: string)
    requires IsValidName(name)
    ensures name != "" && forall i :: 0 <= i < |name| ==> IsNameChar(name[i]) || name[i] == '-'
    ensures IsPlain(name) && Text.IsTrimmed(name)
  {
    var parts := Text.Split(name, '-');
    assert AreNameParts(parts);
    Text.JoinSplit(name, '-');
    JoinedChars(parts);
    assert name != "";
  }

  lemma BlankIsPlain(s: string)
    requires Text.IsBlank(s)
    ensures IsPlain(s)
  {
  }

  lemma NotBeforeTail(head: string, k: nat, tail: string, j: nat, i: int)
    requires k < 5 && j < k && IsPlain(head) && i < |head| + |OPERATORS[k]|
    requires tail != "" && !IsOperatorChar(tail[0])
    ensures !Text.IsAt(head + OPERATORS[k] + tail, OPERATORS[j], i)
  {
    var t, op, p := head + OPERATORS[k] + tail, OPERATORS[k], OPERATORS[j];
    if 0 <= i <= |t| - |p| {
      var found := t[i..i + |p|];
      assert found[0] == t[i] && found[|p| - 1] == t[i + |p| - 1];
      if i < |head| {
        assert t[i] == head[i];
      } else {
        assert t[|head| + |op|] == tail[0];
        assert t[i] == op[i - |head|];
        assert |op| == 2 ==> t[|head| + 1] == op[1];
      }
    }
  }

  /** In `head + operator + tail`, operators of higher priority occur only inside `tail`. */
  lemma OccursInTail(head: string, k: nat, tail: string, j: nat, i: int)
    requires k < 5 && j < k && IsPlain(head)
    requires tail != "" && !IsOperatorChar(tail[0])
    ensures Text.IsAt(head + OPERATORS[k] + tail, OPERATORS[j], i) <==>
              Text.IsAt(tail, OPERATORS[j], i - |head| - |OPERATORS[k]|)
  {
    var t, op, p := head + OPERATORS[k] + tail, OPERATORS[k], OPERATORS[j];
    var n := |head| + |op|;
    if i < n {
      NotBeforeTail(head, k, tail, j, i);
    }
    if Text.IsAt(t, p, i) {
      assert t[i..i + |p|] == tail[i - n..i - n + |p|];
    }
    if Text.IsAt(tail, p, i - n) {
      assert t[i..i + |p|] == tail[i - n..i - n + |p|];
    }
  }

  lemma OccursInVersion(w: string, v: string, p: string, i: int)
    requires Text.IsBlank(w) && p != "" && IsOperatorChar(p[0])
    ensures Text.IsAt(w + v, p, i) <==> Text.IsAt(v, p, i - |w|)
  {
    var t := w + v;
    if Text.IsAt(t, p, i) {
      assert t[i..i + |p|][0] == t[i];
      assert t[i..i + |p|] == v[i - |w|..i - |w| + |p|];
    }
    if Text.IsAt(v, p, i - |w|) {
      assert t[i..i + |p|] == v[i - |w|..i - |w| + |p|];
    }
  }

  /** The first occurrence of the operator itself is the one written. */
  lemma OperatorFound(head: string, k: nat, tail: string)
    requires k < 5 && IsPlain(head)
    ensures Text.Find(head + OPERATORS[k] + tail, OPERATORS[k]) == Some(|head|)
  {
    var t, op := head + OPERATORS[k] + tail, OPERATORS[k];
    assert t[|head|..|head| + |op|] == op;
    assert Text.IsAt(t, op, |head|);
    forall i | 0 <= i < |head|
      ensures !Text.IsAt(t, op, i)
    {
      assert t[i..i + |op|][0] == t[i] == head[i];
    }
  }

  /** A dependency as it may be written, with blanks around the operator. */
  function Written(name: string, w1: string, k: nat, w2: string, v: string): string
    requires k < 5
  {
    name + w1 + OPERATORS[k] + (w2 + v)
  }

  /** An operator that would be found before the one written. */
  predicate HoldsHigherOperator(v: string, k: nat)
    requires k <= 5
  {
    exists j :: 0 <= j < k && Text.Contains(v, OPERATORS[j])
  }

  lemma FoundExactlyInVersion(name: string, w1: string, k: nat, w2: string, v: string, j: nat)
    requires k < 5 && j < k && IsValidName(name) && Text.IsBlank(w1) && Text.IsBlank(w2)
    requires v != "" && !IsOperatorChar(v[0])
    ensures var idx := Text.Find(Written(name, w1, k, w2, v), OPERATORS[j]);
      && (idx.Some? <==> Text.Contains(v, OPERATORS[j]))
      && (idx.Some? ==> idx.value >= |name + w1 + OPERATORS[k]|)
  {
    ValidNameChars(name);
    BlankIsPlain(w1);
    var head, tail := name + w1, w2 + v;
    var t, p := Written(name, w1, k, w2, v), OPERATORS[j];
    assert t == head + OPERATORS[k] + tail;
    forall i: int
      ensures Text.IsAt(t, p, i) <==> Text.IsAt(v, p, i - |head| - |OPERATORS[k]| - |w2|)
    {
      OccursInTail(head, k, tail, j, i);
      OccursInVersion(w2, v, p, i - |head| - |OPERATORS[k]|);
    }
    if Text.Contains(v, p) {
      assert Text.IsAt(t, p, Text.Find(v, p).value + |head| + |OPERATORS[k]| + |w2|);
    }
  }

  lemma {:induction false} ParseFromSkips(input: string, k: nat, m: nat)
    requires k <= m <= 5 && forall j :: k <= j < m ==> Text.Find(input, OPERATORS[j]).None?
    ensures ParseFrom(input, k) == ParseFrom(input, m)
    decreases m - k
  {
    hide IsValidName, ParseAround, Text.Find;
    if k < m {
      ParseFromSkips(input, k + 1, m);
    }
  }

  /** With an operator inside it, what stands before the operator found is no name. */
  lemma OperatorBeforeSpoils(input: string, i: nat, idx: nat, k: nat)
    requires k < 5 && Text.IsAt(input, OPERATORS[k], idx)
    requires i < idx && IsOperatorChar(input[i])
    ensures ParseAround(input, idx, k).Err?
  {
    var s := input[..idx];
    assert s[i] == input[i];
    Text.TrimKeeps(s, i);
    OperatorSpoils(Text.Trim(s), s[i]);
  }

  lemma OperatorSpoils(name: string, c: char)
    requires c in name && IsOperatorChar(c)
    ensures !IsValidName(name)
  {
    if IsValidName(name) {
      ValidNameChars(name);
    }
  }

  lemma WrittenIsTrimmed(name: string, w1: string, k: nat, w2: string, v: string)
    requires k < 5 && IsValidName(name) && v != "" && Text.IsTrimmed(v)
    ensures Text.IsTrimmed(Written(name, w1, k, w2, v)) && Written(name, w1, k, w2, v) != ""
  {
    ValidNameChars(name);
    var t := Written(name, w1, k, w2, v);
    assert t[0] == name[0] && t[|t| - 1] == v[|v| - 1];
  }

  /** What is written around the operator is found again. */
  lemma AroundWritten(name: string, w1: string, k: nat, w2: string, v: string)
    requires k < 5 && IsValidName(name) && Text.IsBlank(w1) && Text.IsBlank(w2)
    requires Text.IsTrimmed(v) && v != "" && Parse(v).Ok?
    ensures var t := Written(name, w1, k, w2, v);
      && Text.IsAt(t, OPERATORS[k], |name + w1|)
      && ParseAround(t, |name + w1|, k) == Ok(Spec(name, Some(MakeConstraint(k, Parse(v).value))))
  {
    hide IsValidName, Parse;
    ValidNameChars(name);
    var t, n := Written(name, w1, k, w2, v), |name + w1|;
    assert t[..n] == "" + name + w1;
    assert t[n..n + |OPERATORS[k]|] == OPERATORS[k];
    assert t[n + |OPERATORS[k]|..] == w2 + v + "";
    Text.TrimPadded("", name, w1);
    Text.TrimPadded(w2, v, "");
  }

  /**
   A dependency is read back as it was written, with or without blanks, exactly when its version text
   holds no operator that is looked for earlier. Versions may hold operators after a dash.
   */
  lemma WrittenReadsBack(pre: string, name: string, w1: string, k: nat, w2: string, v: string, post: string)
    requires k < 5 && IsValidName(name) && Text.IsTrimmed(v) && Parse(v).Ok?
    requires Text.IsBlank(pre) && Text.IsBlank(w1) && Text.IsBlank(w2) && Text.IsBlank(post)
    ensures ParseSpec(pre + Written(name, w1, k, w2, v) + post) ==
              Ok(Spec(name, Some(MakeConstraint(k, Parse(v).value))))
            <==> !HoldsHigherOperator(v, k)
  {
    hide IsValidName, Parse, ParseAround, Text.Trim, Text.Find, Written;
    ParsedStart(v);
    var t := Written(name, w1, k, w2, v);
    WrittenIsTrimmed(name, w1, k, w2, v);
    Text.TrimPadded(pre, t, post);
    forall j | 0 <= j < k
      ensures var idx := Text.Find(t, OPERATORS[j]);
        && (idx.Some? <==> Text.Contains(v, OPERATORS[j]))
        && (idx.Some? ==> idx.value >= |name + w1 + OPERATORS[k]|)
    {
      FoundExactlyInVersion(name, w1, k, w2, v, j);
    }
    if HoldsHigherOperator(v, k) {
      var j := FirstHigher(v, k);
      ParseFromSkips(t, 0, j);
      EarlierOperatorWins(name, w1, k, w2, v, j);
    } else {
      ParseFromSkips(t, 0, k);
      WrittenFound(name, w1, k, w2, v);
      AroundWritten(name, w1, k, w2, v);
    }
  }

  lemma FirstHigher(v: string, k: nat) returns (j: nat)
    requires k <= 5 && HoldsHigherOperator(v, k)
    ensures j < k && Text.Contains(v, OPERATORS[j])
    ensures forall i :: 0 <= i < j ==> !Text.Contains(v, OPERATORS[i])
  {
    hide Text.Contains;
    j := 0;
    while !Text.Contains(v, OPERATORS[j])
      invariant j < k && exists i :: j <= i < k && Text.Contains(v, OPERATORS[i])
      invariant forall i :: 0 <= i < j ==> !Text.Contains(v, OPERATORS[i])
      decreases k - j
    {
      j := j + 1;
    }
  }

  lemma WrittenFound(name: string, w1: string, k: nat, w2: string, v: string)
    requires k < 5 && IsValidName(name) && Text.IsBlank(w1)
    ensures Text.Find(Written(name, w1, k, w2, v), OPERATORS[k]) == Some(|name + w1|)
  {
    ValidNameChars(name);
    BlankIsPlain(w1);
    OperatorFound(name + w1, k, w2 + v);
  }

  lemma EarlierOperatorWins(name: string, w1: string, k: nat, w2: string, v: string, j: nat)
    requires j < k < 5
    requires var idx := Text.Find(Written(name, w1, k, w2, v), OPERATORS[j]);
      idx.Some? && idx.value >= |name + w1 + OPERATORS[k]|
    ensures ParseFrom(Written(name, w1, k, w2, v), j).Err?
  {
    var t := Written(name, w1, k, w2, v);
    var i := |name + w1|;
    assert t[i] == OPERATORS[k][0];
    OperatorBeforeSpoils(t, i, Text.Find(t, OPERATORS[j]).value, j);
  }

  /** A bare name is read as a dependency on any version. */
  lemma BareNameReadsBack(pre: string, name: string, post: string)
    requires IsValidName(name) && Text.IsBlank(pre) && Text.IsBlank(post)
    ensures ParseSpec(pre + name + post) == Ok(Spec(name, None))
  {
    hide IsValidName, ParseAround, Text.Trim, Text.Find;
    ValidNameChars(name);
    Text.TrimPadded(pre, name, post);
    forall j: nat | j < 5
      ensures Text.Find(name, OPERATORS[j]).None?
    {
      NoOperatorInPlain(name, j);
    }
    ParseFromSkips(name, 0, 5);
  }

  lemma NoOperatorInPlain(name: string, j: nat)
    requires j < 5 && IsPlain(name)
    ensures Text.Find(name, OPERATORS[j]).None?
  {
    var p := OPERATORS[j];
    forall i | 0 <= i <= |name| - |p|
      ensures !Text.IsAt(name, p, i)
    {
      assert name[i..i + |p|][0] == name[i];
    }
  }

  // ----- what any text is read as -----

  /** The operator occurs in the text, and first at `idx`. */
  ghost predicate OccursFirst(input: string, op: string, idx: nat) {
    Text.IsAt(input, op, idx) && forall i :: 0 <= i < idx ==> !Text.IsAt(input, op, i)
  }

  ghost predicate OccursNowhere(input: string, op: string) {
    forall i :: 0 <= i ==> !Text.IsAt(input, op, i)
  }

  /** What an operator asks of a version. */
  ghost predicate Asks(op: string, a: Version, v: Version) {
    match op
    case ">=" => !IsBefore(a, v)
    case "<=" => !IsBefore(v, a)
    case "<" => IsBefore(a, v)
    case ">" => IsBefore(v, a)
    case _ => a == v
  }

  lemma ConstraintAsks(k: nat, v: Version, a: Version)
    requires k < 5
    ensures Satisfies(a, MakeConstraint(k, v)) <==> Asks([">=", "<=", "<", ">", "="][k], a, v)
  {
    hide Less, IsBefore;
    LessIsBefore(a, v);
    LessIsBefore(v, a);
  }

  /**
   What any dependency text is read as, where `k` is the first operator, in the order in which they are looked
   for, that occurs in it, and `idx` where it first does. Each way of being malformed has its own error: nothing
   on a side, a name that is none, a version that cannot be read. What is read asks what its operator says.
   */
  lemma SpecAnswers(text: string, k: nat, idx: nat)
    requires k <= 5 && forall j :: 0 <= j < k ==> OccursNowhere(Text.Trim(text), OPERATORS[j])
    requires k < 5 ==> OccursFirst(Text.Trim(text), OPERATORS[k], idx)
    ensures var input, r := Text.Trim(text), ParseSpec(text);
      if input == "" then r == Err(EmptySpec)
      else if k == 5 then
        r == if Matches(KEBAB_CASE, input) then Ok(Spec(input, None)) else Err(InvalidName)
      else
        var op := [">=", "<=", "<", ">", "="][k];
        var name, version := Text.Trim(input[..idx]), Text.Trim(input[idx + |op|..]);
        if name == "" || version == "" then r == Err(InvalidFormat)
        else if !Matches(KEBAB_CASE, name) then r == Err(InvalidName)
        else if Parse(version).Err? then r == Err(InvalidVersion)
        else r.Ok? && r.value.name == name && r.value.constraint.Some?
             && forall a :: Satisfies(a, r.value.constraint.value) <==> Asks(op, a, Parse(version).value)
  {
    hide Matches, IsValidName, Text.Trim, Parse, Satisfies, Asks, MakeConstraint;
    var input := Text.Trim(text);
    ParseFromSkips(input, 0, k);
    if k == 5 {
      ValidNamesAreKebabCase(input);
    } else {
      var op := [">=", "<=", "<", ">", "="][k];
      assert op == OPERATORS[k];
      assert Text.Find(input, OPERATORS[k]) == Some(idx);
      var name, version := Text.Trim(input[..idx]), Text.Trim(input[idx + |op|..]);
      ValidNamesAreKebabCase(name);
      if Parse(version).Ok? {
        forall a
          ensures Satisfies(a, MakeConstraint(k, Parse(version).value)) <==> Asks(op, a, Parse(version).value)
        {
          ConstraintAsks(k, Parse(version).value, a);
        }
      }
    }
  }
}
