/** SHA-256 digests and their text forms. */
module Digest {
  import opened Wrappers
  import Text

  type Byte = b: int | 0 <= b < 256

  type Sha256Digest = d: seq<Byte> | |d| == 32 witness seq(32, _ => 0)

  // ----- printing -----

  function HexDigit(n: nat): (c: char)
    requires n < 16
  {
    if n < 10 then '0' + n as char else 'a' + (n - 10) as char
  }

  function HexByte(b: Byte): (s: string)
    ensures |s| == 2
  {
    [HexDigit(b / 16), HexDigit(b % 16)]
  }

  function HexBytes(bytes: seq<Byte>): (s: string)
    ensures |s| == 2 * |bytes|
  {
    if bytes == [] then "" else HexByte(bytes[0]) + HexBytes(bytes[1..])
  }

  /** All 64 digits. */
  function Hex(d: Sha256Digest): (s: string)
    ensures |s| == 64
  {
    HexBytes(d)
  }

  function ToPrefixed(d: Sha256Digest): (s: string) {
    PREFIX + Hex(d)
  }

  const PREFIX: string := "sha256:"

  /** The directory of an object. */
  function Shard(d: Sha256Digest): (s: string)
    ensures |s| == 2
  {
    HexByte(d[0])
  }

  /** The name of an object within its shard. */
  function FileName(d: Sha256Digest): (s: string)
    ensures |s| == 62
  {
    HexBytes(d[1..])
  }

  // ----- parsing -----

  function EncodeChar(c: char): (r: seq<Byte>)
    ensures 1 <= |r| <= 4
  {
    var n := c as int;
    if n < 0x80 then [n]
    else if n < 0x800 then [0xC0 + n / 0x40, 0x80 + n % 0x40]
    else if n < 0x1_0000 then [0xE0 + n / 0x1000, 0x80 + n / 0x40 % 0x40, 0x80 + n % 0x40]
    else [0xF0 + n / 0x4_0000, 0x80 + n / 0x1000 % 0x40, 0x80 + n / 0x40 % 0x40, 0x80 + n % 0x40]
  }

  /** The bytes of a string; `len` and slicing count these, not characters. */
  function Utf8(s: string): (r: seq<Byte>)
    ensures |r| >= |s|
  {
    if s == "" then [] else EncodeChar(s[0]) + Utf8(s[1..])
  }

  /** Slicing a string anywhere else panics. */
  predicate IsBoundary(bytes: seq<Byte>, i: nat)
    requires i <= |bytes|
  {
    i == |bytes| || !(0x80 <= bytes[i] < 0xC0)
  }

  function HexValue(b: Byte): (r: Option<nat>)
    ensures r.Some? ==> r.value < 16
  {
    if '0' as int <= b <= '9' as int then Some(b - '0' as int)
    else if 'a' as int <= b <= 'f' as int then Some(b - 'a' as int + 10)
    else if 'A' as int <= b <= 'F' as int then Some(b - 'A' as int + 10)
    else None
  }

  /** `u8::from_str_radix(pair, 16)`, which also takes a plus sign in front of a digit. */
  function PairValue(hi: Byte, lo: Byte): (r: Option<Byte>) {
    match HexValue(lo)
    case None => None
    case Some(l) =>
      if hi == '+' as int then Some(l)
      else match HexValue(hi)
        case None => None
        case Some(h) => Some(16 * h + l)
  }

  /** What `Sha256Digest::parse` comes to; `Panicked` when a slice would cut a character in two. */
  datatype Parsed = Parsed(digest: Sha256Digest) | InvalidDigest | Panicked

  function DigitsOf(s: string): string {
    match Text.StripPrefix(s, PREFIX)
    case Some(hex) => hex
    case None => s
  }

  /** The outcome of reading the pairs of `hex` from the `i`-th on, `done` being those before. */
  function ParsePairs(hex: seq<Byte>, done: seq<Byte>): (r: Parsed)
    requires |hex| == 64 && |done| <= 32
    decreases 32 - |done|
  {
    var i := |done|;
    if i == 32 then Parsed(done)
    else if !IsBoundary(hex, 2 * i) || !IsBoundary(hex, 2 * i + 2) then Panicked
    else match PairValue(hex[2 * i], hex[2 * i + 1])
      case None => InvalidDigest
      case Some(b) => ParsePairs(hex, done + [b])
  }

  function Parse(s: string): (r: Parsed) {
    var hex := Utf8(DigitsOf(s));
    if |hex| != 64 then InvalidDigest else ParsePairs(hex, [])
  }

  /** The loop of `parse`, filling the array byte by byte. */
  method ParseDigest(s: string) returns (r: Parsed)
    ensures r == Parse(s)
  {
    var hex := Utf8(DigitsOf(s));
    if |hex| != 64 {
      return InvalidDigest;
    }
    var bytes := new Byte[32](_ => 0);
    for i := 0 to 32
      invariant ParsePairs(hex, bytes[..i]) == Parse(s)
    {
      if !IsBoundary(hex, 2 * i) || !IsBoundary(hex, 2 * i + 2) {
        return Panicked;
      }
      match PairValue(hex[2 * i], hex[2 * i + 1]) {
        case None => return InvalidDigest;
        case Some(b) =>
          ghost var done := bytes[..i];
          bytes[i] := b;
          assert bytes[..i + 1] == done + [b];
      }
    }
    assert bytes[..32] == bytes[..];
    return Parsed(bytes[..]);
  }

  // ----- what printing and parsing have to do with each other -----

  predicate IsLowerHex(s: string) {
    forall i :: 0 <= i < |s| ==> Text.IsDigit(s[i]) || 'a' <= s[i] <= 'f'
  }

  lemma {:induction false} HexBytesAt(bytes: seq<Byte>, i: nat)
    requires i < |bytes|
    ensures HexBytes(bytes)[2 * i] == HexDigit(bytes[i] / 16)
    ensures HexBytes(bytes)[2 * i + 1] == HexDigit(bytes[i] % 16)
  {
    if i > 0 {
      HexBytesAt(bytes[1..], i - 1);
    }
  }

  lemma {:induction false} HexBytesLower(bytes: seq<Byte>)
    ensures IsLowerHex(HexBytes(bytes))
  {
    if bytes != [] {
      HexBytesLower(bytes[1..]);
    }
  }

  /** A digest is spread over its directory and its file name without loss. */
  lemma ShardAndFileName(d: Sha256Digest)
    ensures Shard(d) + FileName(d) == Hex(d)
  {
  }

  lemma {:induction false} Utf8Ascii(s: string)
    requires forall i :: 0 <= i < |s| ==> s[i] as int < 0x80
    ensures |Utf8(s)| == |s|
    ensures forall i :: 0 <= i < |s| ==> Utf8(s)[i] == s[i] as int
  {
    if s != "" {
      Utf8Ascii(s[1..]);
    }
  }

  lemma {:induction false} Utf8Append(s: string, t: string)
    ensures Utf8(s + t) == Utf8(s) + Utf8(t)
  {
    if s == "" {
      assert s + t == t;
    } else {
      assert (s + t)[1..] == s[1..] + t;
      Utf8Append(s[1..], t);
    }
  }

  lemma {:induction false} ParsePairsLower(s: string, d: Sha256Digest, done: seq<Byte>)
    requires |s| == 64 && |done| <= 32
    requires forall i :: 0 <= i < 64 ==> s[i] as int < 0x80
    requires done == d[..|done|]
    requires forall i :: |done| <= i < 32 ==>
               PairValue(s[2 * i] as int, s[2 * i + 1] as int) == Some(d[i])
    ensures |Utf8(s)| == 64 && ParsePairs(Utf8(s), done) == Parsed(d)
    decreases 32 - |done|
  {
    Utf8Ascii(s);
    var i := |done|;
    if i < 32 {
      assert done + [d[i]] == d[..i + 1];
      ParsePairsLower(s, d, done + [d[i]]);
    }
  }

  lemma NoPrefix(s: string)
    requires IsLowerHex(s)
    ensures DigitsOf(s) == s
  {
    if s != "" {
      assert s[0] != 's' && PREFIX[0] == 's';
    }
  }

  lemma HexPair(b: Byte)
    ensures PairValue(HexDigit(b / 16) as int, HexDigit(b % 16) as int) == Some(b)
  {
  }

  lemma PlusPair(b: Byte)
    ensures b < 16 ==> PairValue('+' as int, HexDigit(b % 16) as int) == Some(b)
  {
  }

  /** Parsing undoes printing, with the prefix and without it. */
  lemma ParseHex(d: Sha256Digest)
    ensures Parse(Hex(d)) == Parsed(d)
    ensures Parse(ToPrefixed(d)) == Parsed(d)
  {
    hide Utf8, ParsePairs, HexBytes, HexDigit, PairValue;
    var s := Hex(d);
    HexBytesLower(d);
    NoPrefix(s);
    Utf8Ascii(s);
    forall i | 0 <= i < 32
      ensures PairValue(s[2 * i] as int, s[2 * i + 1] as int) == Some(d[i])
    {
      HexBytesAt(d, i);
      HexPair(d[i]);
    }
    ParsePairsLower(s, d, []);
    assert PREFIX <= PREFIX + s && (PREFIX + s)[|PREFIX|..] == s;
  }

  lemma HexInjective(d: Sha256Digest, e: Sha256Digest)
    requires Hex(d) == Hex(e)
    ensures d == e
  {
    ParseHex(d);
    ParseHex(e);
  }

  /** Two objects share a path only if they are the same object. */
  lemma ObjectPathInjective(d: Sha256Digest, e: Sha256Digest)
    requires Shard(d) == Shard(e) && FileName(d) == FileName(e)
    ensures d == e
  {
    ShardAndFileName(d);
    ShardAndFileName(e);
    HexInjective(d, e);
  }

  lemma {:induction false} ParsePairsSome(hex: seq<Byte>, done: seq<Byte>, d: Sha256Digest)
    requires |hex| == 64 && |done| <= 32
    requires ParsePairs(hex, done) == Parsed(d)
    ensures done == d[..|done|]
    ensures forall i :: |done| <= i < 32 ==> PairValue(hex[2 * i], hex[2 * i + 1]) == Some(d[i])
    decreases 32 - |done|
  {
    var i := |done|;
    if i < 32 {
      var b := PairValue(hex[2 * i], hex[2 * i + 1]).value;
      ParsePairsSome(hex, done + [b], d);
      assert done == (done + [b])[..i] == d[..i + 1][..i];
    }
  }

  // ----- which texts are accepted -----

  predicate IsHexDigit(c: char) {
    Text.IsDigit(c) || 'a' <= c <= 'f' || 'A' <= c <= 'F'
  }

  /** 32 pairs of a hex digit and, in front of it, another or a plus sign. */
  predicate IsPairs(h: string) {
    |h| == 64 && forall i :: 0 <= i < 32 ==> (h[2 * i] == '+' || IsHexDigit(h[2 * i])) && IsHexDigit(h[2 * i + 1])
  }

  predicate IsAscii(s: string) {
    forall i :: 0 <= i < |s| ==> s[i] as int < 0x80
  }

  /** A text has as many bytes as characters exactly if they are all ASCII. */
  lemma {:induction false} AsciiByLength(s: string)
    ensures |Utf8(s)| == |s| <==> IsAscii(s)
  {
    if s != "" {
      AsciiByLength(s[1..]);
      assert Utf8(s) == EncodeChar(s[0]) + Utf8(s[1..]);
      assert |EncodeChar(s[0])| == 1 <==> s[0] as int < 0x80;
    }
  }

  /** If all bytes are ASCII, so are the characters. */
  lemma {:induction false} AsciiByBytes(s: string)
    requires forall i :: 0 <= i < |Utf8(s)| ==> Utf8(s)[i] < 0x80
    ensures IsAscii(s)
  {
    if s != "" {
      var first, rest := EncodeChar(s[0]), Utf8(s[1..]);
      assert Utf8(s) == first + rest;
      assert Utf8(s)[0] == first[0];
      assert forall i :: 0 <= i < |rest| ==> rest[i] == Utf8(s)[|first| + i];
      AsciiByBytes(s[1..]);
    }
  }

  lemma PairOfBytes(hi: Byte, lo: Byte)
    ensures PairValue(hi, lo).Some? ==> hi < 0x80 && lo < 0x80
  {
  }

  lemma PairOfChars(hi: char, lo: char)
    requires hi as int < 0x80 && lo as int < 0x80
    ensures PairValue(hi as int, lo as int).Some? <==> (hi == '+' || IsHexDigit(hi)) && IsHexDigit(lo)
  {
  }

  /** The pairs before the `n`-th are whole characters and can be read. */
  predicate ReadsUpTo(hex: seq<Byte>, n: nat)
    requires |hex| == 64 && n <= 32
  {
    forall i :: 0 <= i < n ==> !IsCut(hex, i) && PairValue(hex[2 * i], hex[2 * i + 1]).Some?
  }

  /** Slicing out the `i`-th pair would cut a character. */
  predicate IsCut(hex: seq<Byte>, i: nat)
    requires |hex| == 64 && i < 32
  {
    !IsBoundary(hex, 2 * i) || !IsBoundary(hex, 2 * i + 2)
  }

  /** The first pair that does not read decides the outcome. */
  lemma {:induction false} PairsOutcome(hex: seq<Byte>, done: seq<Byte>)
    requires |hex| == 64 && |done| <= 32 && ReadsUpTo(hex, |done|)
    ensures ParsePairs(hex, done).Parsed? <==> ReadsUpTo(hex, 32)
    ensures ParsePairs(hex, done).Panicked? <==> exists n: nat :: n < 32 && ReadsUpTo(hex, n) && IsCut(hex, n)
    decreases 32 - |done|
  {
    var n := |done|;
    if n < 32 {
      var pair := PairValue(hex[2 * n], hex[2 * n + 1]);
      if IsCut(hex, n) {
        assert ReadsUpTo(hex, n) && IsCut(hex, n);
      } else if pair.None? {
        assert forall m: nat :: n < m <= 32 ==> !ReadsUpTo(hex, m);
      } else {
        PairsOutcome(hex, done + [pair.value]);
      }
    }
  }

  lemma AsciiIsNotCut(hex: seq<Byte>)
    requires |hex| == 64 && forall i :: 0 <= i < 64 ==> hex[i] < 0x80
    ensures forall i: nat :: i < 32 ==> !IsCut(hex, i)
  {
  }

  /** Readable pairs are ASCII, which no slice cuts. */
  lemma ReadableIsAscii(h: string)
    requires |Utf8(h)| == 64 && ReadsUpTo(Utf8(h), 32)
    ensures IsAscii(h) && |h| == 64
  {
    hide IsCut, PairValue, Utf8;
    var hex := Utf8(h);
    forall j | 0 <= j < 64
      ensures hex[j] < 0x80
    {
      var i := j / 2;
      assert j == 2 * i || j == 2 * i + 1;
      PairOfBytes(hex[2 * i], hex[2 * i + 1]);
    }
    AsciiByBytes(h);
    AsciiByLength(h);
  }

  /** On 64 ASCII characters, reading all pairs is a matter of the characters alone. */
  lemma AsciiPairs(h: string)
    requires |h| == 64 && IsAscii(h)
    ensures |Utf8(h)| == 64 && (ReadsUpTo(Utf8(h), 32) <==> IsPairs(h))
  {
    hide IsCut, PairValue, IsHexDigit, Utf8;
    Utf8Ascii(h);
    var hex := Utf8(h);
    AsciiIsNotCut(hex);
    forall i | 0 <= i < 32
      ensures PairValue(hex[2 * i], hex[2 * i + 1]).Some? <==>
                (h[2 * i] == '+' || IsHexDigit(h[2 * i])) && IsHexDigit(h[2 * i + 1])
    {
      PairOfChars(h[2 * i], h[2 * i + 1]);
    }
  }

  /**
   A text is accepted exactly if, after the optional prefix, it is 32 pairs of a hex digit with another one
   or a plus sign before it.
   */
  lemma AcceptedTexts(s: string)
    ensures Parse(s).Parsed? <==> IsPairs(DigitsOf(s))
  {
    hide ReadsUpTo, ParsePairs, Utf8, DigitsOf, IsPairs;
    var h := DigitsOf(s);
    var hex := Utf8(h);
    if |hex| == 64 {
      assert ReadsUpTo(hex, 0) by { NothingRead(hex); }
      PairsOutcome(hex, []);
      if ReadsUpTo(hex, 32) {
        ReadableIsAscii(h);
      }
    }
    if IsPairs(h) {
      PairsAreAscii(h);
    }
    if |h| == 64 && IsAscii(h) {
      AsciiPairs(h);
    }
  }

  lemma NothingRead(hex: seq<Byte>)
    requires |hex| == 64
    ensures ReadsUpTo(hex, 0)
  {
  }

  lemma PairsAreAscii(h: string)
    requires IsPairs(h)
    ensures |h| == 64 && IsAscii(h)
  {
    forall j | 0 <= j < 64
      ensures h[j] as int < 0x80
    {
      var i := j / 2;
      assert j == 2 * i || j == 2 * i + 1;
    }
  }

  /** So an accepted text is the 64 hex digits that are asked for exactly if it holds no plus sign. */
  lemma AcceptedHex(s: string)
    requires Parse(s).Parsed?
    ensures |DigitsOf(s)| == 64
    ensures (forall j :: 0 <= j < 64 ==> IsHexDigit(DigitsOf(s)[j])) <==> '+' !in DigitsOf(s)
  {
    hide Parse, DigitsOf;
    AcceptedTexts(s);
    var h := DigitsOf(s);
    forall j | 0 <= j < 64
      ensures h[j] == '+' || IsHexDigit(h[j])
    {
      var i := j / 2;
      assert j == 2 * i || j == 2 * i + 1;
    }
    assert forall j :: 0 <= j < 64 ==> h[j] in h;
  }

  /**
   Parsing panics exactly if the text has 64 bytes and the first pair that does not read is one that a
   slice would cut out of the middle of a character.
   */
  lemma PanickingTexts(s: string)
    ensures Parse(s).Panicked? <==>
              var hex := Utf8(DigitsOf(s));
              |hex| == 64 && exists n: nat :: n < 32 && ReadsUpTo(hex, n) && IsCut(hex, n)
  {
    hide ParsePairs, Utf8, DigitsOf, IsCut, PairValue;
    var hex := Utf8(DigitsOf(s));
    if |hex| == 64 {
      PairsOutcome(hex, []);
    }
  }

  /** An ASCII text never makes parsing panic. */
  lemma AsciiNeverPanics(s: string)
    requires IsAscii(DigitsOf(s))
    ensures !Parse(s).Panicked?
  {
    hide ParsePairs, Utf8, DigitsOf, IsCut, PairValue, ReadsUpTo;
    PanickingTexts(s);
    Utf8Ascii(DigitsOf(s));
    if |Utf8(DigitsOf(s))| == 64 {
      AsciiIsNotCut(Utf8(DigitsOf(s)));
    }
  }

  /** Such a text: an accented letter across the end of the first pair. */
  lemma CutLetterPanics(t: string)
    requires |t| == 61 && IsAscii(t)
    ensures Parse("0\U{E9}" + t) == Panicked
  {
    var s := "0\U{E9}" + t;
    Utf8Ascii(t);
    assert s[1..][1..] == t;
    assert Utf8(s) == [0x30] + ([0xC3, 0xA9] + Utf8(t)) by {
      assert s[0] == '0' && s[1..][0] == '\U{E9}';
    }
    assert s[0] != PREFIX[0];
  }

  lemma LowerPair(hi: char, lo: char, b: Byte)
    requires hi as int < 0x80 && lo as int < 0x80
    requires IsLowerHex([hi, lo]) && PairValue(hi as int, lo as int) == Some(b)
    ensures hi == HexDigit(b / 16) && lo == HexDigit(b % 16)
  {
    assert [hi, lo][0] == hi && [hi, lo][1] == lo;
  }

  lemma LowerSpelling(s: string, d: Sha256Digest)
    requires |s| == 64 && Parse(s) == Parsed(d) && IsLowerHex(s)
    ensures s == Hex(d)
  {
    hide Utf8, ParsePairs, HexBytes, HexDigit, PairValue, DigitsOf;
    NoPrefix(s);
    Utf8Ascii(s);
    ParsePairsSome(Utf8(s), [], d);
    forall j | 0 <= j < 64
      ensures s[j] == Hex(d)[j]
    {
      var i := j / 2;
      assert j == 2 * i || j == 2 * i + 1;
      HexBytesAt(d, i);
      assert IsLowerHex([s[2 * i], s[2 * i + 1]]);
      LowerPair(s[2 * i], s[2 * i + 1], d[i]);
    }
  }

  /**
   Of all the 64-character texts that parse to `d`, the printed form is the only one made of
   lower-case hex digits: upper-case digits and plus signs are where other spellings come from.
   */
  lemma CanonicalSpelling(s: string, d: Sha256Digest)
    requires |s| == 64 && Parse(s) == Parsed(d)
    ensures s == Hex(d) <==> IsLowerHex(s)
  {
    HexBytesLower(d);
    if IsLowerHex(s) {
      LowerSpelling(s, d);
    }
  }

  /** Parsing is not injective: "+0" and "0A" are other spellings of "00" and "0a". */
  lemma OtherSpellings(d: Sha256Digest)
    requires d[0] < 16
    ensures exists s :: |s| == 64 && s != Hex(d) && s[0] == '+' && Parse(s) == Parsed(d)
  {
    hide Utf8, ParsePairs, HexBytes, HexDigit, PairValue;
    var t := Hex(d);
    var s := "+" + t[1..];
    HexBytesLower(d);
    forall i | 0 <= i < 32
      ensures PairValue(s[2 * i] as int, s[2 * i + 1] as int) == Some(d[i])
    {
      HexBytesAt(d, i);
      HexPair(d[i]);
      PlusPair(d[0]);
    }
    assert !(PREFIX <= s) by {
      assert s[0] == '+';
    }
    Utf8Ascii(s);
    ParsePairsLower(s, d, []);
    assert t[0] != '+' by { assert IsLowerHex(t); }
  }
}
