/**
 * The handful of Python string operations the core relies on: whitespace
 * stripping, lower-casing, splitting, joining, substring replacement and
 * decimal numerals. Character classes are restricted to ASCII.
 */
module Text {

  /** Python's `str.isspace()` restricted to ASCII: space, \t \n \v \f \r and \x1c..\x1f. */
  predicate IsSpace(c: char) {
    c == ' ' || '\t' <= c <= '\r' || '\U{1C}' <= c <= '\U{1F}'
  }

  /** The regular-expression class `\d`, restricted to ASCII digits. */
  predicate IsDigit(c: char) {
    '0' <= c <= '9'
  }

  predicate AllDigits(s: string) {
    forall i | 0 <= i < |s| :: IsDigit(s[i])
  }

  function DigitValue(c: char): nat
    requires IsDigit(c)
  {
    c as int - '0' as int
  }

  function DigitChar(d: nat): (c: char)
    requires d < 10
    ensures IsDigit(c) && DigitValue(c) == d
  {
    ('0' as int + d) as char
  }

  /** `str.lower()` on one character, ASCII letters only. */
  function LowerChar(c: char): (l: char)
    ensures 'A' <= c <= 'Z' ==> l as int == c as int + 32
    ensures !('A' <= c <= 'Z') ==> l == c
  {
    if 'A' <= c <= 'Z' then (c as int + 32) as char else c
  }

  function Lower(s: string): (r: string)
    ensures |r| == |s|
    ensures forall i | 0 <= i < |s| :: r[i] == LowerChar(s[i])
  {
    seq(|s|, i requires 0 <= i < |s| => LowerChar(s[i]))
  }

  /** `str.rstrip()`: the longest prefix that does not end in whitespace. */
  function RStrip(s: string): (r: string)
    ensures |r| <= |s|
    ensures r == [] || !IsSpace(r[|r| - 1])
    decreases |s|
  {
    if s != [] && IsSpace(s[|s| - 1]) then RStrip(s[..|s| - 1]) else s
  }

  /** What `rstrip` keeps is a prefix of its input. */
  lemma {:induction false} RStripIsPrefix(s: string)
    ensures RStrip(s) <= s
    decreases |s|
  {
    if s != [] && IsSpace(s[|s| - 1]) {
      RStripIsPrefix(s[..|s| - 1]);
    }
  }

  /** What `rstrip` removes is whitespace. */
  lemma {:induction false} RStripRemovesSpace(s: string)
    ensures forall i | |RStrip(s)| <= i < |s| :: IsSpace(s[i])
    decreases |s|
  {
    if s != [] && IsSpace(s[|s| - 1]) {
      RStripRemovesSpace(s[..|s| - 1]);
    }
  }

  /** `str.lstrip()`: the longest suffix that does not start with whitespace. */
  function LStrip(s: string): (r: string)
    ensures |r| <= |s|
    ensures r == [] || !IsSpace(r[0])
    decreases |s|
  {
    if s != [] && IsSpace(s[0]) then LStrip(s[1..]) else s
  }

  /** What `lstrip` keeps is a suffix of its input. */
  lemma {:induction false} LStripIsSuffix(s: string)
    ensures LStrip(s) == s[|s| - |LStrip(s)|..]
    decreases |s|
  {
    if s != [] && IsSpace(s[0]) {
      LStripIsSuffix(s[1..]);
      assert s[1..][|s| - 1 - |LStrip(s)|..] == s[|s| - |LStrip(s)|..];
    }
  }

  /** What `lstrip` removes is whitespace. */
  lemma {:induction false} LStripRemovesSpace(s: string)
    ensures forall i | 0 <= i < |s| - |LStrip(s)| :: IsSpace(s[i])
    decreases |s|
  {
    if s != [] && IsSpace(s[0]) {
      LStripRemovesSpace(s[1..]);
      forall i | 1 <= i < |s| - |LStrip(s)| ensures IsSpace(s[i]) {
        assert s[i] == s[1..][i - 1];
      }
    }
  }

  /** `str.strip()`. */
  function Strip(s: string): string {
    LStrip(RStrip(s))
  }

  function IndexOf(s: string, c: char): (i: nat)
    requires c in s
    ensures i < |s| && s[i] == c && c !in s[..i]
  {
    if s[0] == c then 0 else 1 + IndexOf(s[1..], c)
  }

  /** `str.rfind(c)`: the last position holding `c`, or -1. */
  function LastIndexOf(s: string, c: char): (i: int)
    ensures -1 <= i < |s|
    ensures i >= 0 ==> s[i] == c
    ensures forall k | i < k < |s| :: s[k] != c
    decreases |s|
  {
    if s == [] then -1
    else if s[|s| - 1] == c then |s| - 1
    else LastIndexOf(s[..|s| - 1], c)
  }

  predicate HasSuffix(s: string, suffix: string) {
    |suffix| <= |s| && s[|s| - |suffix|..] == suffix
  }

  /** Python's `sub in s`. */
  predicate Contains(s: string, sub: string)
    decreases |s|
  {
    sub <= s || (s != [] && Contains(s[1..], sub))
  }

  /** `sep.join(parts)`. */
  function Join(parts: seq<string>, sep: string): string
    decreases |parts|
  {
    if |parts| == 0 then []
    else if |parts| == 1 then parts[0]
    else parts[0] + sep + Join(parts[1..], sep)
  }

  /** `s.split(sep)` for a one-character separator: at least one part, none holding the separator. */
  function SplitOn(s: string, sep: char): (parts: seq<string>)
    ensures |parts| >= 1
    ensures forall i | 0 <= i < |parts| :: sep !in parts[i]
    decreases |s|
  {
    if sep !in s then [s]
    else
      var i := IndexOf(s, sep);
      [s[..i]] + SplitOn(s[i + 1..], sep)
  }

  /** Joining the parts of a split with the separator gives the string back. */
  lemma {:induction false} SplitJoin(s: string, sep: char)
    ensures Join(SplitOn(s, sep), [sep]) == s
    decreases |s|
  {
    if sep in s {
      var i := IndexOf(s, sep);
      var rest := SplitOn(s[i + 1..], sep);
      var parts := [s[..i]] + rest;
      assert SplitOn(s, sep) == parts;
      assert parts[1..] == rest;
      SplitJoin(s[i + 1..], sep);
      assert s == s[..i] + [sep] + s[i + 1..];
    }
  }

  /** `s.replace(pattern, replacement)`: every occurrence, left to right, without overlap. */
  function ReplaceAll(s: string, pattern: string, replacement: string): string
    requires pattern != []
    decreases |s|
  {
    if s == [] then []
    else if pattern <= s then replacement + ReplaceAll(s[|pattern|..], pattern, replacement)
    else [s[0]] + ReplaceAll(s[1..], pattern, replacement)
  }

  /** A string that does not contain the pattern comes out of `ReplaceAll` unchanged. */
  lemma {:induction false} ReplaceAbsent(s: string, pattern: string, replacement: string)
    requires pattern != [] && !Contains(s, pattern)
    ensures ReplaceAll(s, pattern, replacement) == s
    decreases |s|
  {
    if s != [] {
      ReplaceAbsent(s[1..], pattern, replacement);
      assert [s[0]] + s[1..] == s;
    }
  }

  /** A pattern whose first character does not occur in `s` is not contained in it. */
  lemma {:induction false} AbsentFirstChar(s: string, pattern: string)
    requires pattern != [] && pattern[0] !in s
    ensures !Contains(s, pattern)
    decreases |s|
  {
    if s != [] {
      assert s[0] in s;
      forall c | c in s[1..] ensures c in s {
        var k :| 0 <= k < |s[1..]| && s[1..][k] == c;
        assert s[k + 1] == c;
      }
      AbsentFirstChar(s[1..], pattern);
    }
  }

  /** Replacing a one-character pattern leaves a prefix without it in place. */
  lemma {:induction false} ReplaceAllKeepsPrefix(x: string, y: string, c: char, replacement: string)
    requires c !in x
    ensures ReplaceAll(x + y, [c], replacement) == x + ReplaceAll(y, [c], replacement)
    decreases |x|
  {
    if x == [] {
      assert x + y == y;
    } else {
      assert (x + y)[1..] == x[1..] + y;
      assert !([c] <= x + y) by { assert (x + y)[0] == x[0] && x[0] in x; }
      assert c !in x[1..] by {
        forall k | 0 <= k < |x[1..]| ensures x[1..][k] != c { assert x[1..][k] == x[k + 1]; }
      }
      ReplaceAllKeepsPrefix(x[1..], y, c, replacement);
      assert ReplaceAll(x + y, [c], replacement) == [x[0]] + ReplaceAll(x[1..] + y, [c], replacement);
      assert [x[0]] + x[1..] == x;
    }
  }

  /** Deleting every occurrence of a character introduces no character. */
  lemma {:induction false} DeleteAllIntroducesNothing(s: string, c: char)
    ensures forall k | 0 <= k < |ReplaceAll(s, [c], "")| :: ReplaceAll(s, [c], "")[k] in s
    decreases |s|
  {
    if s != [] {
      DeleteAllIntroducesNothing(s[1..], c);
      var rest := ReplaceAll(s[1..], [c], "");
      forall k | 0 <= k < |rest| ensures rest[k] in s {
        var m :| 0 <= m < |s[1..]| && s[1..][m] == rest[k];
        assert s[m + 1] == rest[k];
      }
      if !([c] <= s) {
        assert ReplaceAll(s, [c], "") == [s[0]] + rest;
      }
    }
  }

  /** Stripping introduces no character. */
  lemma StripIntroducesNothing(s: string)
    ensures forall k | 0 <= k < |Strip(s)| :: Strip(s)[k] in s
  {
    var r := RStrip(s);
    var l := LStrip(r);
    RStripIsPrefix(s);
    LStripIsSuffix(r);
    forall k | 0 <= k < |l| ensures l[k] in s {
      assert l[k] == r[|r| - |l| + k] == s[|r| - |l| + k];
    }
  }

  /** Stripping `x + y` keeps `x` at the front when `x` neither starts nor ends with whitespace. */
  lemma StripKeepsPrefix(x: string, y: string)
    requires x != [] && !IsSpace(x[0]) && !IsSpace(x[|x| - 1])
    ensures x <= Strip(x + y)
  {
    var r := RStrip(x + y);
    assert !IsSpace((x + y)[|x| - 1]) by { assert (x + y)[|x| - 1] == x[|x| - 1]; }
    RStripRemovesSpace(x + y);
    RStripIsPrefix(x + y);
    assert |r| >= |x|;
    assert x <= r by {
      forall k | 0 <= k < |x| ensures r[k] == x[k] {
        assert r[k] == (x + y)[k];
      }
    }
    assert r[0] == x[0];
  }

  predicate AllSpace(s: string) {
    forall i | 0 <= i < |s| :: IsSpace(s[i])
  }

  /** Trailing whitespace after a string that does not end in whitespace is exactly what `rstrip` removes. */
  lemma {:induction false} RStripPadded(x: string, post: string)
    requires AllSpace(post) && (x == [] || !IsSpace(x[|x| - 1]))
    ensures RStrip(x + post) == x
    decreases |post|
  {
    if post == [] {
      assert x + post == x;
    } else {
      var t := x + post;
      assert t[..|t| - 1] == x + post[..|post| - 1];
      assert t[|t| - 1] == post[|post| - 1];
      RStripPadded(x, post[..|post| - 1]);
    }
  }

  /** Leading whitespace before a string that does not start with whitespace is exactly what `lstrip` removes. */
  lemma {:induction false} LStripPadded(pre: string, x: string)
    requires AllSpace(pre) && (x == [] || !IsSpace(x[0]))
    ensures LStrip(pre + x) == x
    decreases |pre|
  {
    if pre == [] {
      assert pre + x == x;
    } else {
      var t := pre + x;
      assert t[1..] == pre[1..] + x;
      assert t[0] == pre[0];
      LStripPadded(pre[1..], x);
    }
  }

  /** `strip` gives back a word surrounded by whitespace. */
  lemma StripPadded(pre: string, w: string, post: string)
    requires AllSpace(pre) && AllSpace(post)
    requires w != [] && !IsSpace(w[0]) && !IsSpace(w[|w| - 1])
    ensures Strip(pre + w + post) == w
  {
    assert (pre + w)[|pre + w| - 1] == w[|w| - 1];
    RStripPadded(pre + w, post);
    LStripPadded(pre, w);
  }

  /** A string of whitespace strips to nothing. */
  lemma StripBlank(s: string)
    requires AllSpace(s)
    ensures Strip(s) == []
  {
    RStripPadded([], s);
    assert [] + s == s;
  }

  /** `pathlib`'s `dir / name` on strings. */
  function PathJoin(dir: string, name: string): string {
    dir + "/" + name
  }

  /** The character classes the code's regular expressions use: `\d`, `\s` and `[\d.]`. */
  datatype CharClass = Digits | Spaces | NumberChars

  predicate InClass(c: char, kind: CharClass) {
    match kind
    case Digits => IsDigit(c)
    case Spaces => IsSpace(c)
    case NumberChars => IsDigit(c) || c == '.'
  }

  /** The end of the maximal run of characters of `kind` that starts at `i`. */
  function RunEnd(s: string, i: nat, kind: CharClass): (j: nat)
    requires i <= |s|
    ensures i <= j <= |s|
    ensures forall k | i <= k < j :: InClass(s[k], kind)
    ensures j == |s| || !InClass(s[j], kind)
    decreases |s| - i
  {
    if i < |s| && InClass(s[i], kind) then RunEnd(s, i + 1, kind) else i
  }

  /** A run of `kind` from `i` to `j` that stops at `j` ends at `j`. */
  lemma {:induction false} RunEndAt(s: string, i: nat, j: nat, kind: CharClass)
    requires i <= j <= |s|
    requires forall k | i <= k < j :: InClass(s[k], kind)
    requires j == |s| || !InClass(s[j], kind)
    ensures RunEnd(s, i, kind) == j
    decreases j - i
  {
    if i < j {
      RunEndAt(s, i + 1, j, kind);
    }
  }

  /** The value of a decimal numeral, most significant digit first (Python's `int(s)`). */
  function DigitsValue(s: string): nat
    requires AllDigits(s)
    decreases |s|
  {
    if s == [] then 0 else DigitsValue(s[..|s| - 1]) * 10 + DigitValue(s[|s| - 1])
  }

  /** `str(n)` for a natural number; reading it back gives `n`. */
  function Decimal(n: nat): (s: string)
    ensures |s| >= 1 && AllDigits(s)
    ensures DigitsValue(s) == n
    decreases n
  {
    if n < 10 then [DigitChar(n)]
    else
      var s := Decimal(n / 10) + [DigitChar(n % 10)];
      assert s[..|s| - 1] == Decimal(n / 10);
      s
  }

  /** A leading zero does not change the value of a numeral. */
  lemma {:induction false} LeadingZeroValue(s: string)
    requires AllDigits(s)
    ensures AllDigits(['0'] + s) && DigitsValue(['0'] + s) == DigitsValue(s)
    decreases |s|
  {
    var t := ['0'] + s;
    if s != [] {
      assert t[..|t| - 1] == ['0'] + s[..|s| - 1];
      LeadingZeroValue(s[..|s| - 1]);
    } else {
      assert t[..|t| - 1] == [];
    }
  }

  /** Left-pads a numeral with zeros up to `width` characters, as `{:0<width>d}` does. */
  function ZeroPad(s: string, width: nat): (r: string)
    requires AllDigits(s)
    ensures AllDigits(r) && DigitsValue(r) == DigitsValue(s)
    ensures |r| == if |s| >= width then |s| else width
    decreases width - |s|
  {
    if |s| >= width then s
    else
      LeadingZeroValue(s);
      ZeroPad(['0'] + s, width)
  }
}
