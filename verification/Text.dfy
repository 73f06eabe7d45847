/**
 Text the way Rust's `str` presents it: a sequence of Unicode scalar values, which is what a Dafny
 `char` is. Only the library functions that the modelled code calls are written down here.
 */
module Text {
  import opened Wrappers

  // ----- white space -----

  /** The Unicode property White_Space, which `trim` and `split_whitespace` go by. */
  predicate IsWhitespace(c: char) {
    || '\t' <= c <= '\r'
    || c == ' '
    || c == '\U{85}'
    || c == '\U{A0}'
    || c == '\U{1680}'
    || '\U{2000}' <= c <= '\U{200A}'
    || c == '\U{2028}'
    || c == '\U{2029}'
    || c == '\U{202F}'
    || c == '\U{205F}'
    || c == '\U{3000}'
  }

  predicate IsBlank(s: string) {
    forall i :: 0 <= i < |s| ==> IsWhitespace(s[i])
  }

  /** Neither end is white space, so trimming leaves the text alone. */
  predicate IsTrimmed(s: string) {
    s != "" ==> !IsWhitespace(s[0]) && !IsWhitespace(s[|s| - 1])
  }

  function TrimStart(s: string): string {
    if s == "" || !IsWhitespace(s[0]) then s else TrimStart(s[1..])
  }

  function TrimEnd(s: string): string {
    if s == "" || !IsWhitespace(s[|s| - 1]) then s else TrimEnd(s[..|s| - 1])
  }

  function Trim(s: string): string {
    TrimEnd(TrimStart(s))
  }

  /** What is cut off at the front is white space, and no more of it is left there. */
  lemma {:induction false} TrimStartSplits(s: string)
    ensures var r := TrimStart(s);
      && |r| <= |s| && r == s[|s| - |r|..] && IsBlank(s[..|s| - |r|])
      && (r != "" ==> !IsWhitespace(r[0]))
    decreases |s|
  {
    if s != "" && IsWhitespace(s[0]) {
      TrimStartSplits(s[1..]);
      var r := TrimStart(s[1..]);
      assert s[..|s| - |r|] == [s[0]] + s[1..][..|s| - 1 - |r|];
    }
  }

  lemma {:induction false} TrimEndSplits(s: string)
    ensures var r := TrimEnd(s);
      && |r| <= |s| && r == s[..|r|] && IsBlank(s[|r|..])
      && (r != "" ==> !IsWhitespace(r[|r| - 1]))
    decreases |s|
  {
    if s != "" && IsWhitespace(s[|s| - 1]) {
      var init := s[..|s| - 1];
      TrimEndSplits(init);
      var r := TrimEnd(init);
      assert s[|r|..] == init[|r|..] + [s[|s| - 1]];
    }
  }

  /** Trimming leaves a trimmed piece of the text. */
  lemma TrimIsPiece(s: string)
    ensures IsTrimmed(Trim(s)) && Trim(s) <= TrimStart(s) && |Trim(s)| <= |s|
    ensures forall c :: c in Trim(s) ==> c in s
  {
    TrimStartSplits(s);
    TrimEndSplits(TrimStart(s));
  }

  lemma {:induction false} TrimStartKeeps(s: string, i: nat)
    requires i < |s| && !IsWhitespace(s[i])
    ensures s[i] in TrimStart(s)
    decreases i
  {
    if IsWhitespace(s[0]) {
      TrimStartKeeps(s[1..], i - 1);
    }
  }

  lemma {:induction false} TrimEndKeeps(s: string, i: nat)
    requires i < |s| && !IsWhitespace(s[i])
    ensures s[i] in TrimEnd(s)
    decreases |s|
  {
    if IsWhitespace(s[|s| - 1]) {
      TrimEndKeeps(s[..|s| - 1], i);
    }
  }

  /** What is not white space is not trimmed away. */
  lemma TrimKeeps(s: string, i: nat)
    requires i < |s| && !IsWhitespace(s[i])
    ensures s[i] in Trim(s)
  {
    hide TrimStart, TrimEnd, IsWhitespace;
    TrimStartKeeps(s, i);
    var j :| 0 <= j < |TrimStart(s)| && TrimStart(s)[j] == s[i];
    TrimEndKeeps(TrimStart(s), j);
  }

  /** Trimming removes exactly the blank padding around a trimmed text. */
  lemma {:induction false} TrimPadded(a: string, s: string, b: string)
    requires IsBlank(a) && IsBlank(b) && IsTrimmed(s)
    ensures Trim(a + s + b) == s
    decreases |a|
  {
    var t := a + s + b;
    if a != "" {
      assert t[1..] == a[1..] + s + b;
      TrimPadded(a[1..], s, b);
    } else {
      assert t == s + b;
      TrimEndPadded(s, b);
      if s == "" {
        assert t == b;
        TrimBlank(b);
      }
    }
  }

  lemma {:induction false} TrimEndPadded(s: string, b: string)
    requires IsBlank(b) && (s != "" ==> !IsWhitespace(s[|s| - 1]))
    ensures TrimEnd(s + b) == s
    decreases |b|
  {
    if b == "" {
      assert s + b == s;
    } else {
      assert (s + b)[..|s + b| - 1] == s + b[..|b| - 1];
      TrimEndPadded(s, b[..|b| - 1]);
    }
  }

  lemma {:induction false} TrimBlank(b: string)
    requires IsBlank(b)
    ensures TrimStart(b) == "" && Trim(b) == ""
    decreases |b|
  {
    if b != "" {
      TrimBlank(b[1..]);
    }
  }

  lemma TrimTrimmed(s: string)
    requires IsTrimmed(s)
    ensures Trim(s) == s
  {
    TrimPadded("", s, "");
    assert "" + s + "" == s;
  }

  // ----- searching -----

  predicate IsAt(s: string, p: string, i: int) {
    0 <= i <= |s| - |p| && s[i..i + |p|] == p
  }

  /** `str::find`: where `p` first occurs at or after `from`. */
  function FindFrom(s: string, p: string, from: nat): (r: Option<nat>)
    requires from <= |s|
    ensures r.Some? ==> from <= r.value && IsAt(s, p, r.value)
    ensures r.Some? ==> forall i :: from <= i < r.value ==> !IsAt(s, p, i)
    ensures r.None? ==> forall i :: from <= i ==> !IsAt(s, p, i)
    decreases |s| - from
  {
    if IsAt(s, p, from) then Some(from)
    else if from == |s| then None
    else FindFrom(s, p, from + 1)
  }

  function Find(s: string, p: string): (r: Option<nat>) {
    FindFrom(s, p, 0)
  }

  predicate Contains(s: string, p: string) {
    Find(s, p).Some?
  }

  function StripPrefix(s: string, p: string): (r: Option<string>)
    ensures r.Some? <==> p <= s
    ensures r.Some? ==> s == p + r.value
  {
    if p <= s then Some(s[|p|..]) else None
  }

  // ----- splitting -----

  /** `str::split(c)`: the pieces between the occurrences of `c`, never an empty list. */
  function Split(s: string, c: char): (r: seq<string>)
    ensures |r| > 0
    ensures forall i :: 0 <= i < |r| ==> c !in r[i]
  {
    if s == "" then [""]
    else
      var rest := Split(s[1..], c);
      if s[0] == c then [""] + rest else [[s[0]] + rest[0]] + rest[1..]
  }

  function Join(parts: seq<string>, c: char): (r: string) {
    if parts == [] then ""
    else if |parts| == 1 then parts[0]
    else parts[0] + [c] + Join(parts[1..], c)
  }

  /** Splitting loses nothing but the separators. */
  lemma {:induction false} JoinSplit(s: string, c: char)
    ensures Join(Split(s, c), c) == s
  {
    if s != "" {
      JoinSplit(s[1..], c);
      var rest := Split(s[1..], c);
      var r := Split(s, c);
      if s[0] == c {
        assert r[1..] == rest;
        assert s == [c] + s[1..];
      } else {
        assert r[1..] == rest[1..];
        assert s == [s[0]] + s[1..];
      }
    }
  }

  lemma {:induction false} SplitCons(a: string, c: char, b: string)
    requires c !in a
    ensures Split(a + [c] + b, c) == [a] + Split(b, c)
  {
    var s := a + [c] + b;
    if a == "" {
      assert s[1..] == b;
    } else {
      assert s[1..] == a[1..] + [c] + b;
      SplitCons(a[1..], c, b);
      assert a == [a[0]] + a[1..] && a[0] != c;
    }
  }

  lemma {:induction false} SplitNone(a: string, c: char)
    requires c !in a
    ensures Split(a, c) == [a]
  {
    if a != "" {
      SplitNone(a[1..], c);
      assert a == [a[0]] + a[1..] && a[0] != c;
    }
  }

  /** Split undoes Join as long as no piece holds the separator. */
  lemma {:induction false} SplitJoin(parts: seq<string>, c: char)
    requires |parts| > 0
    requires forall i :: 0 <= i < |parts| ==> c !in parts[i]
    ensures Split(Join(parts, c), c) == parts
  {
    if |parts| == 1 {
      SplitNone(parts[0], c);
    } else {
      SplitCons(parts[0], c, Join(parts[1..], c));
      SplitJoin(parts[1..], c);
    }
  }

  /** `str::split_once(c)`: cut at the first `c`. */
  function SplitOnce(s: string, c: char): (r: Option<(string, string)>)
    ensures r.None? <==> c !in s
    ensures r.Some? ==> s == r.value.0 + [c] + r.value.1 && c !in r.value.0
  {
    if s == "" then None
    else if s[0] == c then Some(("", s[1..]))
    else match SplitOnce(s[1..], c)
      case None => None
      case Some((a, b)) => Some(([s[0]] + a, b))
  }

  /** `str::rsplitn(2, c)`: cut at the last `c`. */
  function RSplitOnce(s: string, c: char): (r: Option<(string, string)>)
    ensures r.None? <==> c !in s
    ensures r.Some? ==> s == r.value.0 + [c] + r.value.1 && c !in r.value.1
  {
    if s == "" then None
    else if s[|s| - 1] == c then Some((s[..|s| - 1], ""))
    else match RSplitOnce(s[..|s| - 1], c)
      case None => None
      case Some((a, b)) => Some((a, b + [s[|s| - 1]]))
  }

  lemma {:induction false} RSplitOnceAt(a: string, c: char, b: string)
    requires c !in b
    ensures RSplitOnce(a + [c] + b, c) == Some((a, b))
    decreases |b|
  {
    var s := a + [c] + b;
    if b == "" {
      assert s[..|s| - 1] == a;
    } else {
      assert s[..|s| - 1] == a + [c] + b[..|b| - 1];
      RSplitOnceAt(a, c, b[..|b| - 1]);
      assert b == b[..|b| - 1] + [b[|b| - 1]];
    }
  }

  // ----- lines -----

  function StripCarriageReturn(s: string): (r: string)
    ensures r <= s && |s| <= |r| + 1
  {
    if s != "" && s[|s| - 1] == '\r' then s[..|s| - 1] else s
  }

  /** `str::lines`: pieces ended by a line feed, without it and without a carriage return before it. */
  function Lines(s: string): (r: seq<string>)
    decreases |s|
  {
    if s == "" then []
    else
      match SplitOnce(s, '\n')
      case None => [s]
      case Some((a, b)) => [StripCarriageReturn(a)] + Lines(b)
  }

  /** The text that `push_str(line)`, `push('\n')` builds line by line. */
  function Unlines(lines: seq<string>): (r: string) {
    if lines == [] then "" else lines[0] + "\n" + Unlines(lines[1..])
  }

  lemma {:induction false} UnlinesAppend(a: seq<string>, b: seq<string>)
    ensures Unlines(a + b) == Unlines(a) + Unlines(b)
  {
    if a == [] {
      assert a + b == b;
    } else {
      assert (a + b)[1..] == a[1..] + b;
      UnlinesAppend(a[1..], b);
    }
  }

  lemma UnlinesSnoc(a: seq<string>, l: string)
    ensures Unlines(a + [l]) == Unlines(a) + l + "\n"
  {
    UnlinesAppend(a, [l]);
    assert Unlines([l]) == l + "\n";
  }

  lemma {:induction false} SplitOnceAt(a: string, c: char, b: string)
    requires c !in a
    ensures SplitOnce(a + [c] + b, c) == Some((a, b))
  {
    var s := a + [c] + b;
    if a == "" {
      assert s[1..] == b;
    } else {
      assert s[1..] == a[1..] + [c] + b;
      SplitOnceAt(a[1..], c, b);
      assert a == [a[0]] + a[1..];
    }
  }

  /** Reading a text back line by line finds the lines written, up to one trailing carriage return. */
  lemma {:induction false} LinesUnlines(lines: seq<string>)
    requires forall i :: 0 <= i < |lines| ==> '\n' !in lines[i]
    ensures |Lines(Unlines(lines))| == |lines|
    ensures forall i :: 0 <= i < |lines| ==> Lines(Unlines(lines))[i] == StripCarriageReturn(lines[i])
  {
    hide SplitOnce, StripCarriageReturn;
    if lines != [] {
      var l, rest := lines[0], Unlines(lines[1..]);
      assert Unlines(lines) == l + ['\n'] + rest;
      SplitOnceAt(l, '\n', rest);
      LinesUnlines(lines[1..]);
      assert Lines(Unlines(lines)) == [StripCarriageReturn(l)] + Lines(rest);
    }
  }

  // ----- numbers -----

  predicate IsDigit(c: char) {
    '0' <= c <= '9'
  }

  predicate AllDigits(s: string) {
    forall i :: 0 <= i < |s| ==> IsDigit(s[i])
  }

  function DigitChar(n: nat): (c: char)
    requires n < 10
    ensures IsDigit(c) && c as int - '0' as int == n
  {
    '0' + n as char
  }

  /** `{n}`: decimal, without leading zeros. */
  function Decimal(n: nat): (s: string)
    ensures s != "" && AllDigits(s)
  {
    if n < 10 then [DigitChar(n)] else Decimal(n / 10) + [DigitChar(n % 10)]
  }

  function DigitsValue(s: string): nat
    requires AllDigits(s)
  {
    if s == "" then 0 else DigitsValue(s[..|s| - 1]) * 10 + (s[|s| - 1] as int - '0' as int)
  }

  /** `str::parse` into an unsigned type that holds the numbers below `bound`. */
  function ParseUnsigned(s: string, bound: nat): (r: Option<nat>)
    ensures r.Some? ==> r.value < bound
  {
    var digits := if s != "" && s[0] == '+' then s[1..] else s;
    if digits == "" || !AllDigits(digits) then None
    else if DigitsValue(digits) >= bound then None
    else Some(DigitsValue(digits))
  }

  const U32_BOUND: nat := 0x1_0000_0000
  const U64_BOUND: nat := 0x1_0000_0000_0000_0000

  lemma {:induction false} DecimalValue(n: nat)
    ensures DigitsValue(Decimal(n)) == n
  {
    if n >= 10 {
      DecimalValue(n / 10);
      var s := Decimal(n);
      assert s[..|s| - 1] == Decimal(n / 10);
    } else {
      assert DigitsValue("") == 0;
    }
  }

  /** Parsing gives back a printed number. */
  lemma ParseDecimal(n: nat, bound: nat)
    requires n < bound
    ensures ParseUnsigned(Decimal(n), bound) == Some(n)
  {
    DecimalValue(n);
    assert IsDigit(Decimal(n)[0]);
  }

  lemma SmallNumbers()
    ensures Decimal(0) == "0" && Decimal(1) == "1" && Decimal(9) == "9" && Decimal(10) == "10"
  {
    assert Decimal(1) == "1" && Decimal(10) == Decimal(1) + "0";
  }

  lemma DecimalInjective(m: nat, n: nat)
    requires Decimal(m) == Decimal(n)
    ensures m == n
  {
    DecimalValue(m);
    DecimalValue(n);
  }

  // ----- order -----

  /** `<` on strings: the order of the first scalar that differs. UTF-8 keeps that order byte by byte. */
  predicate Less(a: string, b: string) {
    b != "" && (a == "" || a[0] < b[0] || (a[0] == b[0] && Less(a[1..], b[1..])))
  }

  lemma {:induction false} LessTotal(a: string, b: string)
    ensures Less(a, b) || a == b || Less(b, a)
  {
    if a != "" && b != "" && a[0] == b[0] {
      LessTotal(a[1..], b[1..]);
      assert a == [a[0]] + a[1..] && b == [b[0]] + b[1..];
    }
  }

  lemma {:induction false} LessTransitive(a: string, b: string, c: string)
    requires Less(a, b) && Less(b, c)
    ensures Less(a, c)
  {
    if a != "" && a[0] == b[0] && b[0] == c[0] {
      LessTransitive(a[1..], b[1..], c[1..]);
    }
  }

  lemma {:induction false} LessIrreflexive(a: string)
    ensures !Less(a, a)
  {
    if a != "" {
      LessIrreflexive(a[1..]);
    }
  }
}
