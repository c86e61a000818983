/**
 * The string operations the pages rely on (`trim`, `split`, `slice`,
 * `toUpperCase`, `toLowerCase`, `includes`, number-to-string) and the
 * character classes of their regular expressions, written out over
 * `seq<char>`. Case mapping is ASCII only.
 */
module Text {

  /** The characters JavaScript's `\s` matches and `String.prototype.trim` removes. */
  const SpaceChars: set<char> := {
    '\t', '\n', '\U{000B}', '\U{000C}', '\r', ' ', '\U{00A0}', '\U{1680}',
    '\U{2000}', '\U{2001}', '\U{2002}', '\U{2003}', '\U{2004}', '\U{2005}',
    '\U{2006}', '\U{2007}', '\U{2008}', '\U{2009}', '\U{200A}',
    '\U{2028}', '\U{2029}', '\U{202F}', '\U{205F}', '\U{3000}', '\U{FEFF}'}

  predicate IsSpace(c: char)
  {
    c in SpaceChars
  }

  /** `\d` */
  predicate IsDigit(c: char) { '0' <= c <= '9' }
  /** `[a-z]` */
  predicate IsLower(c: char) { 'a' <= c <= 'z' }
  /** `[A-Z]` */
  predicate IsUpper(c: char) { 'A' <= c <= 'Z' }
  /** `[a-zA-Z]` */
  predicate IsLetter(c: char) { IsLower(c) || IsUpper(c) }

  predicate AllSpace(s: string)
  {
    forall i :: 0 <= i < |s| ==> IsSpace(s[i])
  }

  /** Whitespace at every position from `lo` up to, not including, `hi`. */
  predicate SpaceBetween(s: string, lo: nat, hi: nat)
  {
    forall j :: lo <= j < hi && j < |s| ==> IsSpace(s[j])
  }

  /** The first position at or after `i` that is not whitespace, or `|s|`. */
  function SkipSpace(s: string, i: nat): (k: nat)
    requires i <= |s|
    ensures i <= k <= |s| && SpaceBetween(s, i, k)
    ensures k < |s| ==> !IsSpace(s[k])
    decreases |s| - i
  {
    if i == |s| || !IsSpace(s[i]) then i else SkipSpace(s, i + 1)
  }

  /** Moving down from `k` to no lower than `lo`, the end of the last non-whitespace character. */
  function BackSpace(s: string, lo: nat, k: nat): (e: nat)
    requires lo <= k <= |s|
    ensures lo <= e <= k && SpaceBetween(s, e, k)
    ensures e > lo ==> !IsSpace(s[e - 1])
    decreases k
  {
    if k == lo || !IsSpace(s[k - 1]) then k else BackSpace(s, lo, k - 1)
  }

  /** Where the text `trim` keeps starts. */
  function TrimFrom(s: string): nat
  {
    SkipSpace(s, 0)
  }

  /** Where the text `trim` keeps ends. */
  function TrimTo(s: string): (e: nat)
    ensures TrimFrom(s) <= e <= |s|
  {
    BackSpace(s, TrimFrom(s), |s|)
  }

  /**
   * `String.prototype.trim`: the text between a whitespace prefix and a
   * whitespace suffix, neither starting nor ending with whitespace.
   */
  function Trim(s: string): (r: string)
    ensures |r| <= |s|
    ensures r == [] || (!IsSpace(r[0]) && !IsSpace(r[|r| - 1]))
  {
    s[TrimFrom(s)..TrimTo(s)]
  }

  /** Trim leaves nothing exactly when the string is all whitespace. */
  lemma TrimEmpty(s: string)
    ensures Trim(s) == [] <==> AllSpace(s)
  {
    var a, b := TrimFrom(s), TrimTo(s);
    if Trim(s) == [] {
      assert a == b;
      forall j | 0 <= j < |s| ensures IsSpace(s[j]) {
        assert j < a || b <= j;
      }
    }
  }

  /** A string with some non-whitespace character does not trim to "". */
  lemma TrimNonEmpty(s: string, k: nat)
    requires k < |s| && !IsSpace(s[k])
    ensures Trim(s) != []
  {
    TrimEmpty(s);
  }

  /** A string that neither starts nor ends with whitespace is its own trim. */
  lemma TrimUnpadded(s: string)
    requires s != [] && !IsSpace(s[0]) && !IsSpace(s[|s| - 1])
    ensures Trim(s) == s
  {
    assert TrimFrom(s) == 0;
    assert TrimTo(s) == |s|;
  }

  /** `String.prototype.slice(0, n)` */
  function Take(s: string, n: nat): (r: string)
    ensures |r| == if |s| <= n then |s| else n
    ensures r == s[..|r|]
  {
    if |s| <= n then s else s[..n]
  }

  /** A character's length in UTF-16 code units: two above U+FFFF, else one. */
  function CodeUnits(c: char): (n: nat)
    ensures n == 1 <==> c as int < 0x10000
    ensures 1 <= n <= 2
  {
    if c as int < 0x10000 then 1 else 2
  }

  /** `s.length`: JavaScript counts UTF-16 code units, not characters. */
  function Utf16Length(s: string): (n: nat)
    ensures |s| <= n <= 2 * |s|
    ensures n == |s| <==> forall i :: 0 <= i < |s| ==> s[i] as int < 0x10000
  {
    if s == [] then 0
    else
      var n := CodeUnits(s[0]) + Utf16Length(s[1..]);
      assert forall i :: 1 <= i < |s| ==> s[1..][i - 1] == s[i];
      n
  }

  function UpperChar(c: char): (u: char)
    ensures !IsLower(u)
    ensures IsLower(c) ==> IsUpper(u)
    ensures !IsLower(c) ==> u == c
  {
    if IsLower(c) then (c as int - 32) as char else c
  }

  function LowerChar(c: char): (l: char)
    ensures !IsUpper(l)
    ensures IsUpper(c) ==> IsLower(l)
    ensures !IsUpper(c) ==> l == c
  {
    if IsUpper(c) then (c as int + 32) as char else c
  }

  /** `String.prototype.toUpperCase`, ASCII letters only. */
  function Upper(s: string): (u: string)
    ensures |u| == |s|
    ensures forall i :: 0 <= i < |s| ==> u[i] == UpperChar(s[i])
  {
    seq(|s|, i requires 0 <= i < |s| => UpperChar(s[i]))
  }

  /** `String.prototype.toLowerCase`, ASCII letters only. */
  function Lower(s: string): (l: string)
    ensures |l| == |s|
    ensures forall i :: 0 <= i < |s| ==> l[i] == LowerChar(s[i])
  {
    seq(|s|, i requires 0 <= i < |s| => LowerChar(s[i]))
  }

  /** `s.startsWith(prefix)` */
  predicate StartsWith(s: string, prefix: string): (b: bool)
    ensures b <==> |prefix| <= |s| && forall i :: 0 <= i < |prefix| ==> s[i] == prefix[i]
  {
    |prefix| <= |s| && s[..|prefix|] == prefix
  }

  /** `s.includes(sub)` */
  predicate Includes(s: string, sub: string): (b: bool)
    ensures b ==> |sub| <= |s|
    ensures sub == [] ==> b
    ensures StartsWith(s, sub) ==> b
  {
    assert s[0..] == s;
    exists i :: 0 <= i <= |s| && StartsWith(s[i..], sub)
  }

  /** `parts.join(sep)` for a one-character separator. */
  function Join(parts: seq<string>, sep: char): string
    requires |parts| >= 1
  {
    if |parts| == 1 then parts[0] else parts[0] + [sep] + Join(parts[1..], sep)
  }

  /** Splitting at the first separator: the piece before it, then the split of the rest. */
  lemma {:induction false} SplitAt(a: string, b: string, sep: char)
    requires sep !in a
    ensures Split(a + [sep] + b, sep) == [a] + Split(b, sep)
  {
    var s := a + [sep] + b;
    if a == [] {
      assert s == [sep] + b;
      assert s[1..] == b;
    } else {
      assert s[0] == a[0] && s[1..] == a[1..] + [sep] + b;
      SplitAt(a[1..], b, sep);
      var rest := Split(s[1..], sep);
      assert rest[0] == a[1..] && rest[1..] == Split(b, sep);
      assert [s[0]] + rest[0] == a;
    }
  }

  /** `parts.join("")` */
  function Concat(parts: seq<string>): string
  {
    if parts == [] then "" else parts[0] + Concat(parts[1..])
  }

  /**
   * `s.split(sep)` for a one-character separator: the pieces between
   * separators, empty pieces included; joining them back gives `s`.
   */
  function Split(s: string, sep: char): (parts: seq<string>)
    ensures |parts| >= 1
    ensures forall i :: 0 <= i < |parts| ==> sep !in parts[i]
    ensures Join(parts, sep) == s
  {
    if |s| == 0 then [""]
    else
      var rest := Split(s[1..], sep);
      assert s == [s[0]] + s[1..];
      if s[0] == sep then
        [""] + rest
      else
        var parts := [[s[0]] + rest[0]] + rest[1..];
        assert parts[1..] == rest[1..];
        if |rest| == 1 then parts
        else
          assert Join(rest, sep) == rest[0] + [sep] + Join(rest[1..], sep);
          assert Join(parts, sep) == [s[0]] + rest[0] + [sep] + Join(rest[1..], sep);
          parts
  }

  function DigitChar(d: nat): (c: char)
    requires d < 10
    ensures IsDigit(c)
  {
    ('0' as int + d) as char
  }

  function DigitValue(c: char): (d: nat)
    requires IsDigit(c)
    ensures d < 10 && DigitChar(d) == c
  {
    c as int - '0' as int
  }

  /** The value of a string of decimal digits. */
  function DecimalValue(s: string): nat
    requires forall i :: 0 <= i < |s| ==> IsDigit(s[i])
  {
    if s == [] then 0 else DecimalValue(s[..|s| - 1]) * 10 + DigitValue(s[|s| - 1])
  }

  /** Template-literal rendering `${n}` of a non-negative integer. */
  function DecimalString(n: nat): (s: string)
    ensures |s| >= 1
    ensures forall i :: 0 <= i < |s| ==> IsDigit(s[i])
    ensures |s| > 1 ==> s[0] != '0'
  {
    if n < 10 then [DigitChar(n)] else DecimalString(n / 10) + [DigitChar(n % 10)]
  }

  /** Rendering then reading the digits gives the number back. */
  lemma {:induction false} DecimalRoundTrip(n: nat)
    ensures DecimalValue(DecimalString(n)) == n
  {
    var s := DecimalString(n);
    if n >= 10 {
      DecimalRoundTrip(n / 10);
      assert s[..|s| - 1] == DecimalString(n / 10);
    }
  }
}
