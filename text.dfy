/**
 * The string operations of the Rust standard library that the fetcher relies on:
 * `str::trim`, `usize::from_str`, integer `Display`, `str::contains` and
 * `str::replace` with a `char` pattern. Strings are sequences of Unicode scalar values.
 */
module Text {
  import opened Wrappers

  /** Rust's `char::is_whitespace`: the characters with the Unicode White_Space property. */
  predicate IsWhitespace(c: char)
  {
    c == ' ' || ('\t' <= c <= '\r') || c == '\U{85}' || c == '\U{A0}' || c == '\U{1680}'
    || ('\U{2000}' <= c <= '\U{200A}') || c == '\U{2028}' || c == '\U{2029}'
    || c == '\U{202F}' || c == '\U{205F}' || c == '\U{3000}'
  }

  /** `str::trim_start`: drops the longest all-whitespace prefix. */
  function TrimStart(s: string): (r: string)
    ensures |r| <= |s| && r == s[|s| - |r|..]
    ensures forall k :: 0 <= k < |s| - |r| ==> IsWhitespace(s[k])
    ensures r != [] ==> !IsWhitespace(r[0])
  {
    if s != [] && IsWhitespace(s[0]) then TrimStart(s[1..]) else s
  }

  /** `str::trim_end`: drops the longest all-whitespace suffix. */
  function TrimEnd(s: string): (r: string)
    ensures |r| <= |s| && r == s[..|r|]
    ensures forall k :: |r| <= k < |s| ==> IsWhitespace(s[k])
    ensures r != [] ==> !IsWhitespace(r[|r| - 1])
  {
    if s != [] && IsWhitespace(s[|s| - 1]) then TrimEnd(s[..|s| - 1]) else s
  }

  /** The number of whitespace characters `str::trim` drops from the front of `s`. */
  function LeadingBlanks(s: string): (n: nat)
    ensures n <= |s|
  {
    |s| - |TrimStart(s)|
  }

  /**
   * `str::trim`: the slice of `s` left after dropping whitespace at both ends; what is
   * dropped is whitespace and what is kept neither starts nor ends with whitespace.
   */
  function Trim(s: string): (r: string)
    ensures LeadingBlanks(s) + |r| <= |s|
    ensures r == s[LeadingBlanks(s)..LeadingBlanks(s) + |r|]
    ensures forall k :: 0 <= k < |s| && !(LeadingBlanks(s) <= k < LeadingBlanks(s) + |r|) ==> IsWhitespace(s[k])
    ensures r != [] ==> !IsWhitespace(r[0]) && !IsWhitespace(r[|r| - 1])
  {
    TrimEnd(TrimStart(s))
  }

  /** Trimming removes only whitespace: a string with no whitespace at either end is its own trim. */
  lemma TrimOfTrimmed(s: string)
    requires s != [] ==> !IsWhitespace(s[0]) && !IsWhitespace(s[|s| - 1])
    ensures Trim(s) == s
  {
  }

  lemma TrimIdempotent(s: string)
    ensures Trim(Trim(s)) == Trim(s)
  {
    TrimOfTrimmed(Trim(s));
  }

  predicate IsDigit(c: char)
  {
    '0' <= c <= '9'
  }

  predicate AllDigits(s: string)
  {
    forall i :: 0 <= i < |s| ==> IsDigit(s[i])
  }

  function DigitValue(c: char): (v: nat)
    requires IsDigit(c)
    ensures v < 10
  {
    c as int - '0' as int
  }

  function DigitChar(v: nat): (c: char)
    requires v < 10
    ensures IsDigit(c) && DigitValue(c) == v
  {
    ('0' as int + v) as char
  }

  /** The value of a string of decimal digits, most significant first. */
  function DecimalValue(s: string): nat
    requires AllDigits(s)
  {
    if s == [] then 0 else DecimalValue(s[..|s| - 1]) * 10 + DigitValue(s[|s| - 1])
  }

  /** Rust's `Display` for an unsigned integer: decimal digits without leading zeros. */
  function Decimal(n: nat): (s: string)
    ensures s != [] && AllDigits(s)
    ensures s[0] == '0' ==> n == 0 && s == "0"
  {
    if n < 10 then [DigitChar(n)] else Decimal(n / 10) + [DigitChar(n % 10)]
  }

  /** Reading back the digits `Decimal` writes gives the number again. */
  lemma {:induction false} DecimalRoundTrip(n: nat)
    ensures DecimalValue(Decimal(n)) == n
  {
    if n >= 10 {
      var s := Decimal(n);
      assert s[..|s| - 1] == Decimal(n / 10);
      DecimalRoundTrip(n / 10);
    }
  }

  /** `usize::MAX` on a 64-bit target. */
  const UsizeMax: nat := 0xFFFF_FFFF_FFFF_FFFF

  /**
   * `usize::from_str`: an optional leading '+' followed by at least one ASCII digit,
   * with a value that fits in a `usize`; anything else (a '-', a blank, a letter,
   * an empty string, an overflow) is an error.
   */
  function ParseUsize(s: string): (r: Option<nat>)
    ensures r.Some? ==> r.value <= UsizeMax
    ensures r.Some? <==> var d := if s != [] && s[0] == '+' then s[1..] else s;
                         d != [] && AllDigits(d) && DecimalValue(d) <= UsizeMax
    ensures r.Some? ==> r.value == DecimalValue(if s[0] == '+' then s[1..] else s)
  {
    if s == [] then None
    else
      var digits := if s[0] == '+' then s[1..] else s;
      if digits == [] || !AllDigits(digits) then None
      else if DecimalValue(digits) > UsizeMax then None
      else Some(DecimalValue(digits))
  }

  /** Every `usize` written in decimal parses back to itself. */
  lemma ParseDecimal(n: nat)
    requires n <= UsizeMax
    ensures ParseUsize(Decimal(n)) == Some(n)
  {
    DecimalRoundTrip(n);
  }

  /** `pattern` occurs in `s` starting at index `i`. */
  predicate OccursAt(s: string, pattern: string, i: nat)
  {
    i + |pattern| <= |s| && s[i..i + |pattern|] == pattern
  }

  /** `str::contains` with a string pattern: true exactly when the pattern occurs somewhere in `s`. */
  predicate Contains(s: string, pattern: string)
    ensures Contains(s, pattern) <==> exists i: nat :: OccursAt(s, pattern, i)
  {
    assert pattern <= s <==> OccursAt(s, pattern, 0);
    if s == [] then
      assert forall i: nat :: OccursAt(s, pattern, i) ==> i == 0;
      pattern <= s
    else
      assert forall i: nat :: OccursAt(s, pattern, i + 1) <==> OccursAt(s[1..], pattern, i) by {
        forall i: nat
          ensures OccursAt(s, pattern, i + 1) <==> OccursAt(s[1..], pattern, i)
        {
          OccursShift(s, pattern, i);
        }
      }
      assert forall i: nat :: OccursAt(s, pattern, i) && i > 0 ==> OccursAt(s[1..], pattern, i - 1);
      pattern <= s || Contains(s[1..], pattern)
  }

  /** An occurrence at i + 1 in `s` is an occurrence at i in its tail. */
  lemma OccursShift(s: string, pattern: string, i: nat)
    requires s != []
    ensures OccursAt(s, pattern, i + 1) <==> OccursAt(s[1..], pattern, i)
  {
    if i + 1 + |pattern| <= |s| {
      assert s[1..][i..i + |pattern|] == s[i + 1..i + 1 + |pattern|];
    }
  }

  /**
   * `str::replace` with a `char` pattern: every occurrence of `c` becomes `to`. Text
   * without `c` is left as it is; with a one-character `to` the length is kept and `to`
   * stands exactly where `c` was.
   */
  function Replace(s: string, c: char, to: string): (r: string)
    ensures (forall i :: 0 <= i < |s| ==> s[i] != c) ==> r == s
    ensures |to| == 1 ==> |r| == |s|
    ensures |to| == 1 ==> forall i :: 0 <= i < |s| ==> r[i] == if s[i] == c then to[0] else s[i]
  {
    if s == [] then []
    else
      assert forall i :: 1 <= i < |s| ==> s[1..][i - 1] == s[i];
      (if s[0] == c then to else [s[0]]) + Replace(s[1..], c, to)
  }

  /** Replacing characters distributes over concatenation. */
  lemma {:induction false} ReplaceAppend(s: string, t: string, c: char, to: string)
    ensures Replace(s + t, c, to) == Replace(s, c, to) + Replace(t, c, to)
  {
    if s == [] {
      assert s + t == t;
    } else {
      assert (s + t)[0] == s[0] && (s + t)[1..] == s[1..] + t;
      ReplaceAppend(s[1..], t, c, to);
    }
  }

  /** The pieces of `s` between occurrences of `c`, as `str::split` with a `char` gives them. */
  function SplitOn(s: string, c: char): (parts: seq<string>)
    ensures |parts| >= 1
  {
    if s == [] then [""]
    else
      var rest := SplitOn(s[1..], c);
      if s[0] == c then [""] + rest else [[s[0]] + rest[0]] + rest[1..]
  }

  /** Text without `c` is a single piece. */
  lemma {:induction false} SplitOnAbsent(x: string, c: char)
    requires forall i :: 0 <= i < |x| ==> x[i] != c
    ensures SplitOn(x, c) == [x]
  {
    if x != [] {
      assert forall i :: 0 <= i < |x[1..]| ==> x[1..][i] != c;
      SplitOnAbsent(x[1..], c);
      assert [x[0]] + x[1..] == x;
    }
  }

  /** Splitting at the first `c` gives the text before it, then the pieces of the rest. */
  lemma {:induction false} SplitOnFirst(x: string, c: char, y: string)
    requires forall i :: 0 <= i < |x| ==> x[i] != c
    ensures SplitOn(x + [c] + y, c) == [x] + SplitOn(y, c)
  {
    if x == [] {
      assert (x + [c] + y)[1..] == y;
    } else {
      assert (x + [c] + y)[0] == x[0] && (x + [c] + y)[1..] == x[1..] + [c] + y;
      assert forall i :: 0 <= i < |x[1..]| ==> x[1..][i] != c;
      SplitOnFirst(x[1..], c, y);
      assert [x[0]] + x[1..] == x;
    }
  }
}
