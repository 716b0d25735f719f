/**
 The string pipeline behind safe note filenames: Python's `splitlines`
 first line, the safe-character filter, slice truncation and `strip`.
 Every function here works on `string` (`seq<char>`), one `char` per
 Python code point.
 */
module Text {

  /** The characters `string.ascii_letters + string.digits + " -_."` */
  predicate IsSafe(c: char) {
    || ('a' <= c <= 'z')
    || ('A' <= c <= 'Z')
    || ('0' <= c <= '9')
    || c == ' ' || c == '-' || c == '_' || c == '.'
  }

  /** The line boundaries `str.splitlines` splits on (`\r\n` starts with `\r`). */
  predicate IsLineBreak(c: char) {
    || c == '\n' || c == '\r' || c == '\U{000B}' || c == '\U{000C}'
    || ('\U{001C}' <= c <= '\U{001E}')
    || c == '\U{0085}' || c == '\U{2028}' || c == '\U{2029}'
  }

  /** The characters `str.isspace` accepts, which `str.strip()` removes. */
  predicate IsWhitespace(c: char) {
    || ('\U{0009}' <= c <= '\U{000D}')
    || ('\U{001C}' <= c <= '\U{001F}')
    || c == ' ' || c == '\U{0085}' || c == '\U{00A0}' || c == '\U{1680}'
    || ('\U{2000}' <= c <= '\U{200A}')
    || c == '\U{2028}' || c == '\U{2029}' || c == '\U{202F}' || c == '\U{205F}'
    || c == '\U{3000}'
  }

  predicate AllSafe(s: string) {
    forall i :: 0 <= i < |s| ==> IsSafe(s[i])
  }

  predicate NoLineBreak(s: string) {
    forall i :: 0 <= i < |s| ==> !IsLineBreak(s[i])
  }

  /** No whitespace at either end. */
  predicate Trimmed(s: string) {
    |s| > 0 ==> !IsWhitespace(s[0]) && !IsWhitespace(s[|s| - 1])
  }

  function Min(a: int, b: int): int { if a <= b then a else b }

  function Max(a: int, b: int): int { if a >= b then a else b }

  /** Space is the only character that is both safe and whitespace. */
  lemma SafeWhitespaceIsSpace(c: char)
    requires IsSafe(c)
    ensures IsWhitespace(c) <==> c == ' '
  {
  }

  /** No safe character is a line break. */
  lemma SafeIsNotLineBreak(c: char)
    requires IsSafe(c)
    ensures !IsLineBreak(c)
  {
  }

  // ---------------------------------------------------------------- first line

  /** Index of the first line break in `s`, or `|s|` when there is none. */
  function LineEnd(s: string): (k: nat)
    ensures k <= |s|
    ensures NoLineBreak(s[..k])
    ensures k < |s| ==> IsLineBreak(s[k])
  {
    if |s| == 0 || IsLineBreak(s[0]) then 0
    else
      var k := 1 + LineEnd(s[1..]);
      assert s[..k] == [s[0]] + s[1..][..k - 1];
      k
  }

  /** `s.splitlines()[0]` for non-empty `s`: the text before the first line break. */
  function FirstLine(s: string): (r: string)
    requires |s| > 0
    ensures r <= s
    ensures NoLineBreak(r)
    ensures |r| == |s| || IsLineBreak(s[|r|])
  {
    s[..LineEnd(s)]
  }

  /** A line followed by a line break and anything at all has that line as its first line. */
  lemma {:induction false} FirstLineOfLines(line: string, brk: char, rest: string)
    requires NoLineBreak(line)
    requires IsLineBreak(brk)
    ensures FirstLine(line + [brk] + rest) == line
  {
    var s := line + [brk] + rest;
    var k := LineEnd(s);
    assert forall i :: 0 <= i < k ==> s[..k][i] == s[i];
    assert forall i :: 0 <= i < |line| ==> s[i] == line[i];
    assert s[|line|] == brk;
    assert s[..k] == line;
  }

  /** A content that is a single line is its own first line. */
  lemma {:induction false} FirstLineOfOneLine(s: string)
    requires |s| > 0
    requires NoLineBreak(s)
    ensures FirstLine(s) == s
  {
    var k := LineEnd(s);
    assert s[..|s|] == s;
    assert s[..k] == s;
  }

  // ---------------------------------------------------------------- safe filter

  /** `''.join(c for c in s if c in safechars)`: the safe characters of `s`, in order. */
  function Filter(s: string): (r: string)
    ensures |r| <= |s|
    ensures AllSafe(r)
    ensures forall c :: c in r <==> c in s && IsSafe(c)
  {
    if |s| == 0 then []
    else
      var rest := Filter(s[1..]);
      assert forall c :: c in s <==> c == s[0] || c in s[1..];
      if IsSafe(s[0]) then [s[0]] + rest else rest
  }

  /** Filtering distributes over concatenation. */
  lemma {:induction false} FilterAppend(a: string, b: string)
    ensures Filter(a + b) == Filter(a) + Filter(b)
  {
    if |a| == 0 {
      assert a + b == b;
    } else {
      assert (a + b)[1..] == a[1..] + b;
      FilterAppend(a[1..], b);
    }
  }

  /** A string made only of safe characters passes the filter unchanged. */
  lemma {:induction false} FilterKeepsSafe(s: string)
    requires AllSafe(s)
    ensures Filter(s) == s
  {
    if |s| > 0 {
      assert AllSafe(s[1..]) by {
        forall i | 0 <= i < |s| - 1 ensures IsSafe(s[1..][i]) {
          assert s[1..][i] == s[i + 1];
        }
      }
      FilterKeepsSafe(s[1..]);
      calc {
        Filter(s);
        [s[0]] + Filter(s[1..]);
        [s[0]] + s[1..];
        s;
      }
    }
  }

  /** A string without a single safe character filters to nothing. */
  lemma {:induction false} FilterDropsUnsafe(s: string)
    requires forall i :: 0 <= i < |s| ==> !IsSafe(s[i])
    ensures Filter(s) == []
  {
    if |s| > 0 {
      assert forall i :: 0 <= i < |s| - 1 ==> s[1..][i] == s[i + 1];
      FilterDropsUnsafe(s[1..]);
    }
  }

  /** Filtering twice filters nothing more. */
  lemma FilterIdempotent(s: string)
    ensures Filter(Filter(s)) == Filter(s)
  {
    FilterKeepsSafe(Filter(s));
  }

  /** The filter written as the character loop of the generator expression. */
  method SafeChars(line: string) returns (safe: string)
    ensures safe == Filter(line)
  {
    safe := "";
    var i := 0;
    while i < |line|
      invariant 0 <= i <= |line|
      invariant safe == Filter(line[..i])
    {
      assert line[..i + 1] == line[..i] + [line[i]];
      FilterAppend(line[..i], [line[i]]);
      assert [line[i]][1..] == [];
      if IsSafe(line[i]) {
        safe := safe + [line[i]];
      }
      i := i + 1;
    }
    assert line[..i] == line;
  }

  // ---------------------------------------------------------------- truncation

  /** Python's `s[:n]`: a negative `n` counts from the end. */
  function SlicePrefix(s: string, n: int): string {
    if n >= 0 then s[..Min(n, |s|)] else s[..Max(0, |s| + n)]
  }

  /** `if len(s) >= n: s = s[:n]`. */
  function Truncate(s: string, n: int): (r: string)
    ensures r <= s
    ensures n >= 0 ==> |r| == Min(n, |s|)
    ensures n < 0 ==> |r| == Max(0, |s| + n)
  {
    if |s| >= n then SlicePrefix(s, n) else s
  }

  /** A prefix of an all-safe string is all safe. */
  lemma PrefixAllSafe(s: string, r: string)
    requires AllSafe(s)
    requires r <= s
    ensures AllSafe(r)
  {
    assert forall i :: 0 <= i < |r| ==> r[i] == s[i];
  }

  // ---------------------------------------------------------------- strip

  /**
   Index of the first non-whitespace character at or after `j`, or `|s|`;
   everything before `j` is already known to be whitespace.
   */
  function SkipLeading(s: string, j: nat): (k: nat)
    requires j <= |s|
    requires forall i :: 0 <= i < j ==> IsWhitespace(s[i])
    ensures j <= k <= |s|
    ensures forall i :: 0 <= i < k ==> IsWhitespace(s[i])
    ensures k < |s| ==> !IsWhitespace(s[k])
    decreases |s| - j
  {
    if j == |s| || !IsWhitespace(s[j]) then j else SkipLeading(s, j + 1)
  }

  /**
   End of `s[..j]` without its trailing whitespace; everything from `j` on is
   already known to be whitespace.
   */
  function SkipTrailing(s: string, j: nat): (k: nat)
    requires j <= |s|
    requires forall i :: j <= i < |s| ==> IsWhitespace(s[i])
    ensures k <= j
    ensures forall i :: k <= i < |s| ==> IsWhitespace(s[i])
    ensures 0 < k ==> !IsWhitespace(s[k - 1])
  {
    if j == 0 || !IsWhitespace(s[j - 1]) then j else SkipTrailing(s, j - 1)
  }

  /** `s.strip()`: `s` without whitespace at either end. */
  function Strip(s: string): (r: string)
    ensures |r| <= |s|
    ensures Trimmed(r)
    ensures var i := SkipLeading(s, 0);
            && i + |r| <= |s| && r == s[i..i + |r|]
            && (forall m :: 0 <= m < i ==> IsWhitespace(s[m]))
            && (forall m :: i + |r| <= m < |s| ==> IsWhitespace(s[m]))
  {
    var i, j := SkipLeading(s, 0), SkipTrailing(s, |s|);
    if i == |s| then [] else s[i..j]
  }

  /** A string with no whitespace at either end is its own strip. */
  lemma StripTrimmed(s: string)
    requires Trimmed(s)
    ensures Strip(s) == s
  {
    if |s| > 0 {
      assert s[0..|s|] == s;
    }
  }

  /** Stripping a string of safe characters leaves safe characters. */
  lemma StripKeepsSafe(s: string)
    requires AllSafe(s)
    ensures AllSafe(Strip(s))
  {
    var r := Strip(s);
    var i := SkipLeading(s, 0);
    assert forall m :: 0 <= m < |r| ==> r[m] == s[i + m];
  }

  /** Stripping twice strips nothing more. */
  lemma StripIdempotent(s: string)
    ensures Strip(Strip(s)) == Strip(s)
  {
    StripTrimmed(Strip(s));
  }
}
