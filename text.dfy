/**
 * The parts of Rust's string handling the toolkit relies on: UTF-8
 * validation (`str::from_utf8`), `split_whitespace`, `split(char)`,
 * integer parsing and formatting, and ASCII lower-casing.
 */
module Text {
  import opened Wrappers
  import opened Bytes

  const I32_MIN: int := -0x8000_0000
  const I32_MAX: int := 0x7FFF_FFFF
  const U32_MAX: int := 0xFFFF_FFFF

  // ---------------------------------------------------------------------
  // ASCII text as bytes

  predicate IsAscii(s: string)
  {
    forall i :: 0 <= i < |s| ==> s[i] as int < 0x80
  }

  /** The bytes of an ASCII string (`str::as_bytes` on ASCII text). */
  function AsciiBytes(s: string): (b: seq<byte>)
    requires IsAscii(s)
    ensures |b| == |s|
    ensures forall i :: 0 <= i < |s| ==> b[i] == s[i] as int
  {
    if |s| == 0 then [] else [s[0] as int] + AsciiBytes(s[1..])
  }

  lemma AsciiBytesAppend(s: string, t: string)
    requires IsAscii(s) && IsAscii(t)
    ensures IsAscii(s + t)
    ensures AsciiBytes(s + t) == AsciiBytes(s) + AsciiBytes(t)
  {
    assert forall i :: 0 <= i < |s + t| ==> (s + t)[i] as int < 0x80 by {
      forall i | 0 <= i < |s + t| ensures (s + t)[i] as int < 0x80 {
        if i < |s| { assert (s + t)[i] == s[i]; } else { assert (s + t)[i] == t[i - |s|]; }
      }
    }
    assert AsciiBytes(s + t) == AsciiBytes(s) + AsciiBytes(t);
  }

  // ---------------------------------------------------------------------
  // UTF-8 (`std::str::from_utf8`)

  predicate IsContinuation(b: byte) { 0x80 <= b < 0xC0 }

  /**
   * The scalar value at the front of `b` and its encoded length, or None
   * when the front is not well-formed UTF-8 (overlong forms, surrogates and
   * values above U+10FFFF are rejected, as `from_utf8` does).
   */
  function DecodeScalar(b: seq<byte>): (r: Option<(char, nat)>)
    requires |b| > 0
    ensures r.Some? ==> 1 <= r.value.1 <= |b| && r.value.1 <= 4
    ensures r.Some? && r.value.1 == 1 <==> b[0] < 0x80
    ensures b[0] < 0x80 ==> r == Some((b[0] as char, 1))
  {
    var b0: int := b[0];
    if b0 < 0x80 then
      Some((b0 as char, 1))
    else if 0xC2 <= b0 <= 0xDF then
      if |b| >= 2 && IsContinuation(b[1]) then
        Some((((b0 - 0xC0) * 0x40 + (b[1] as int - 0x80)) as char, 2))
      else None
    else if 0xE0 <= b0 <= 0xEF then
      var lo := if b0 == 0xE0 then 0xA0 else 0x80;
      var hi := if b0 == 0xED then 0x9F else 0xBF;
      if |b| >= 3 && lo <= b[1] <= hi && IsContinuation(b[2]) then
        var cp: int := (b0 - 0xE0) * 0x1000 + (b[1] as int - 0x80) * 0x40 + (b[2] as int - 0x80);
        assert cp < 0xD800 || 0xE000 <= cp;
        Some((cp as char, 3))
      else None
    else if 0xF0 <= b0 <= 0xF4 then
      var lo := if b0 == 0xF0 then 0x90 else 0x80;
      var hi := if b0 == 0xF4 then 0x8F else 0xBF;
      if |b| >= 4 && lo <= b[1] <= hi && IsContinuation(b[2]) && IsContinuation(b[3]) then
        var cp: int := (b0 - 0xF0) * 0x4_0000 + (b[1] as int - 0x80) * 0x1000 + (b[2] as int - 0x80) * 0x40 + (b[3] as int - 0x80);
        Some((cp as char, 4))
      else None
    else
      None
  }

  /** `str::from_utf8`: the decoded text, or None for ill-formed input. */
  function Utf8Decode(b: seq<byte>): Option<string>
    decreases |b|
  {
    if |b| == 0 then Some("")
    else
      match DecodeScalar(b)
      case None => None
      case Some((c, n)) =>
        match Utf8Decode(b[n..])
        case None => None
        case Some(rest) => Some([c] + rest)
  }

  /** ASCII bytes are valid UTF-8 and decode to the same characters. */
  lemma {:induction false} Utf8DecodeAscii(s: string)
    requires IsAscii(s)
    ensures Utf8Decode(AsciiBytes(s)) == Some(s)
  {
    if |s| > 0 {
      var b := AsciiBytes(s);
      assert b[1..] == AsciiBytes(s[1..]);
      Utf8DecodeAscii(s[1..]);
      assert [s[0]] + s[1..] == s;
    }
  }

  // ---------------------------------------------------------------------
  // Whitespace splitting (`str::split_whitespace`)

  /** Rust's `char::is_whitespace`: the Unicode White_Space property. */
  predicate IsWhitespace(c: char)
  {
    ('\t' <= c <= '\r') || c == ' ' || c == '\U{0085}' || c == '\U{00A0}'
    || c == '\U{1680}' || ('\U{2000}' <= c <= '\U{200A}') || c == '\U{2028}'
    || c == '\U{2029}' || c == '\U{202F}' || c == '\U{205F}' || c == '\U{3000}'
  }

  predicate NoWhitespace(s: string)
  {
    forall i :: 0 <= i < |s| ==> !IsWhitespace(s[i])
  }

  predicate IsWord(s: string)
  {
    |s| > 0 && NoWhitespace(s)
  }

  /** The maximal runs of non-whitespace characters, in order. */
  function SplitWhitespace(s: string): (words: seq<string>)
    ensures forall k :: 0 <= k < |words| ==> IsWord(words[k])
  {
    WordsFrom(s, "")
  }

  /** Splits `s`, where `cur` is the part of a word already read. */
  function WordsFrom(s: string, cur: string): (words: seq<string>)
    requires NoWhitespace(cur)
    ensures forall k :: 0 <= k < |words| ==> IsWord(words[k])
    decreases |s|
  {
    if |s| == 0 then
      if cur == [] then [] else [cur]
    else if IsWhitespace(s[0]) then
      (if cur == [] then [] else [cur]) + WordsFrom(s[1..], [])
    else
      WordsFrom(s[1..], cur + [s[0]])
  }

  /** Words joined with single spaces: the shape of a header line. */
  function JoinWords(words: seq<string>): string
  {
    if |words| == 0 then ""
    else if |words| == 1 then words[0]
    else words[0] + " " + JoinWords(words[1..])
  }

  /** Reading a word without whitespace just extends the current word. */
  lemma {:induction false} WordsFromAppend(w: string, rest: string, cur: string)
    requires NoWhitespace(cur) && NoWhitespace(w)
    ensures NoWhitespace(cur + w)
    ensures WordsFrom(w + rest, cur) == WordsFrom(rest, cur + w)
    decreases |w|
  {
    if |w| == 0 {
      assert w + rest == rest;
      assert cur + w == cur;
    } else {
      assert (w + rest)[0] == w[0];
      assert (w + rest)[1..] == w[1..] + rest;
      WordsFromAppend(w[1..], rest, cur + [w[0]]);
      assert cur + [w[0]] + w[1..] == cur + w;
    }
  }

  /** `split_whitespace` undoes `JoinWords` on a sequence of words. */
  lemma {:induction false} SplitJoinWords(words: seq<string>)
    requires forall k :: 0 <= k < |words| ==> IsWord(words[k])
    ensures SplitWhitespace(JoinWords(words)) == words
    decreases |words|
  {
    if |words| == 0 {
    } else if |words| == 1 {
      WordsFromAppend(words[0], "", "");
      assert words[0] + "" == words[0];
      assert "" + words[0] == words[0];
    } else {
      var w := words[0];
      var rest := JoinWords(words[1..]);
      assert JoinWords(words) == w + (" " + rest);
      WordsFromAppend(w, " " + rest, "");
      assert "" + w == w;
      assert (" " + rest)[1..] == rest;
      SplitJoinWords(words[1..]);
      assert [w] + words[1..] == words;
    }
  }

  lemma WordConcat(a: string, b: string)
    requires IsWord(a) && NoWhitespace(b)
    ensures IsWord(a + b)
  {
    assert forall i :: 0 <= i < |a + b| ==> (a + b)[i] == if i < |a| then a[i] else b[i - |a|];
  }

  lemma AsciiConcat(a: string, b: string)
    requires IsAscii(a) && IsAscii(b)
    ensures IsAscii(a + b)
  {
    assert forall i :: 0 <= i < |a + b| ==> (a + b)[i] == if i < |a| then a[i] else b[i - |a|];
  }

  /** Joining ASCII words gives ASCII text with no line break. */
  lemma {:induction false} JoinWordsAscii(words: seq<string>)
    requires forall k :: 0 <= k < |words| ==> IsAscii(words[k]) && '\n' !in words[k]
    ensures IsAscii(JoinWords(words)) && '\n' !in JoinWords(words)
    decreases |words|
  {
    if |words| > 1 {
      JoinWordsAscii(words[1..]);
      AsciiConcat(words[0], " ");
      AsciiConcat(words[0] + " ", JoinWords(words[1..]));
    }
  }

  // ---------------------------------------------------------------------
  // Splitting on one character (`str::split(char)`)

  /** The pieces between occurrences of `sep`; there is always at least one. */
  function Split(s: string, sep: char): (parts: seq<string>)
    ensures |parts| >= 1
  {
    SplitFrom(s, sep, "")
  }

  function SplitFrom(s: string, sep: char, cur: string): (parts: seq<string>)
    ensures |parts| >= 1
    decreases |s|
  {
    if |s| == 0 then [cur]
    else if s[0] == sep then [cur] + SplitFrom(s[1..], sep, "")
    else SplitFrom(s[1..], sep, cur + [s[0]])
  }

  lemma {:induction false} SplitFromAppend(t: string, rest: string, sep: char, cur: string)
    requires sep !in t
    ensures SplitFrom(t + rest, sep, cur) == SplitFrom(rest, sep, cur + t)
    decreases |t|
  {
    if |t| == 0 {
      assert t + rest == rest;
      assert cur + t == cur;
    } else {
      assert (t + rest)[0] == t[0];
      assert (t + rest)[1..] == t[1..] + rest;
      SplitFromAppend(t[1..], rest, sep, cur + [t[0]]);
      assert cur + [t[0]] + t[1..] == cur + t;
    }
  }

  /** Splitting `a:b` where neither part holds the separator gives [a, b]. */
  lemma SplitPair(a: string, b: string, sep: char)
    requires sep !in a && sep !in b
    ensures Split(a + [sep] + b, sep) == [a, b]
  {
    SplitFromAppend(a, [sep] + b, sep, "");
    assert a + [sep] + b == a + ([sep] + b);
    assert "" + a == a;
    assert ([sep] + b)[1..] == b;
    SplitFromAppend(b, "", sep, "");
    assert b + "" == b;
    assert "" + b == b;
  }

  /** `strip_prefix(c)`: the rest of `s` when it starts with `c`. */
  function StripPrefix(s: string, c: char): (r: Option<string>)
    ensures r.Some? <==> |s| > 0 && s[0] == c
    ensures r.Some? ==> r.value == s[1..]
  {
    if |s| > 0 && s[0] == c then Some(s[1..]) else None
  }

  // ---------------------------------------------------------------------
  // Decimal integers (`Display` and `str::parse`)

  predicate IsDigit(c: char) { '0' <= c <= '9' }

  predicate AllDigits(s: string)
  {
    forall i :: 0 <= i < |s| ==> IsDigit(s[i])
  }

  function DigitChar(d: int): (c: char)
    requires 0 <= d < 10
    ensures IsDigit(c) && c as int - '0' as int == d
  {
    ('0' as int + d) as char
  }

  /** The value of a run of decimal digits. */
  function DigitsValue(s: string): (v: nat)
    requires AllDigits(s)
  {
    if |s| == 0 then 0
    else DigitsValue(s[..|s| - 1]) * 10 + (s[|s| - 1] as int - '0' as int)
  }

  /** `Display` of a non-negative integer. */
  function Decimal(n: nat): (s: string)
    ensures |s| >= 1 && AllDigits(s)
    ensures DigitsValue(s) == n
  {
    if n < 10 then [DigitChar(n)]
    else
      var s := Decimal(n / 10) + [DigitChar(n % 10)];
      assert s[..|s| - 1] == Decimal(n / 10);
      s
  }

  /** `Display` of a signed integer. */
  function IntToString(n: int): (s: string)
    ensures IsAscii(s) && NoWhitespace(s) && |s| >= 1
    ensures ':' !in s && '=' !in s
  {
    var s := if n < 0 then "-" + Decimal(-n) else Decimal(n);
    assert forall i :: 0 <= i < |s| ==> s[i] == '-' || IsDigit(s[i]);
    s
  }

  /**
   * An integer literal: an optional sign then at least one digit. This is
   * what `str::parse` accepts for Rust's integer types before the range check.
   */
  function ParseInteger(s: string): (r: Option<int>)
    ensures r.Some? ==> |s| >= 1
  {
    if |s| == 0 then None
    else if s[0] == '-' || s[0] == '+' then
      if |s| >= 2 && AllDigits(s[1..]) then
        var v: int := DigitsValue(s[1..]);
        Some(if s[0] == '-' then -v else v)
      else None
    else if AllDigits(s) then Some(DigitsValue(s))
    else None
  }

  /** `s.parse::<i32>().ok()`: integer literals in the i32 range. */
  function ParseI32(s: string): (r: Option<int>)
    ensures r.Some? ==> I32_MIN <= r.value <= I32_MAX && ParseInteger(s) == r
    ensures r.None? ==> ParseInteger(s).None? || !(I32_MIN <= ParseInteger(s).value <= I32_MAX)
  {
    match ParseInteger(s)
    case Some(v) => if I32_MIN <= v <= I32_MAX then Some(v) else None
    case None => None
  }

  /** Parsing reads back exactly what `Display` wrote. */
  lemma ParseIntToString(n: int)
    ensures ParseInteger(IntToString(n)) == Some(n)
    ensures I32_MIN <= n <= I32_MAX ==> ParseI32(IntToString(n)) == Some(n)
  {
    var s := IntToString(n);
    if n < 0 {
      assert s[1..] == Decimal(-n);
    } else {
      assert IsDigit(s[0]);
    }
  }

  // ---------------------------------------------------------------------
  // Lower-casing

  function AsciiLowerChar(c: char): (d: char)
    ensures ('A' <= c <= 'Z') ==> d as int == c as int + 32
    ensures !('A' <= c <= 'Z') ==> d == c
  {
    if 'A' <= c <= 'Z' then (c as int + 32) as char else c
  }

  /** `to_lowercase`, on the ASCII letters. */
  function AsciiLower(s: string): (t: string)
    ensures |t| == |s|
    ensures forall i :: 0 <= i < |s| ==> t[i] == AsciiLowerChar(s[i])
  {
    if |s| == 0 then "" else [AsciiLowerChar(s[0])] + AsciiLower(s[1..])
  }

  predicate HasNoUpper(s: string)
  {
    forall i :: 0 <= i < |s| ==> !('A' <= s[i] <= 'Z')
  }

  /** Lower-casing leaves no upper-case letter, so doing it twice changes nothing. */
  lemma AsciiLowerIdempotent(s: string)
    ensures HasNoUpper(AsciiLower(s))
    ensures AsciiLower(AsciiLower(s)) == AsciiLower(s)
  {
  }

  /** Text already free of upper-case letters is its own lower case. */
  lemma AsciiLowerOfLower(s: string)
    requires HasNoUpper(s)
    ensures AsciiLower(s) == s
  {
  }

  // ---------------------------------------------------------------------
  // Frame rates

  /**
   * A frame rate as the `f64` quotient `num / den` the Rust code computes
   * from the two parts of a Y4M `F` token or from its defaults.
   */
  datatype FrameRate = FrameRate(num: int, den: int)

  /**
   * `frame_rate as u32`: the quotient truncated toward zero and saturated to
   * the u32 range; NaN (0/0) and negative values give 0, +inf gives u32::MAX.
   */
  function FrameRateAsU32(r: FrameRate): (v: nat)
    ensures v <= U32_MAX
    ensures r.den == 0 ==> v == (if r.num > 0 then U32_MAX else 0)
    ensures r.den != 0 && r.num < 0 && r.den > 0 ==> v == 0
    ensures 0 <= r.num && 0 < r.den && r.num / r.den <= U32_MAX ==> v == r.num / r.den
  {
    if r.den == 0 then
      (if r.num > 0 then U32_MAX else 0)
    else if (r.num < 0) != (r.den < 0) then
      0
    else
      var q := Abs(r.num) / Abs(r.den);
      if q > U32_MAX then U32_MAX else q
  }

  function Abs(x: int): nat { if x < 0 then -x else x }

  // ---------------------------------------------------------------------
  // Searching bytes

  /** `iter().position(|&b| b == x)`: the first index holding `x`. */
  function IndexOf(s: seq<byte>, x: byte): (r: Option<nat>)
    ensures r.Some? ==> r.value < |s| && s[r.value] == x && x !in s[..r.value]
    ensures r.None? ==> x !in s
  {
    if |s| == 0 then None
    else if s[0] == x then Some(0)
    else
      match IndexOf(s[1..], x)
      case None => None
      case Some(i) =>
        assert s[..i + 1] == [s[0]] + s[1..][..i];
        Some(i + 1)
  }
}
