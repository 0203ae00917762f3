/** Strings as the Kotlin standard library sees them: whitespace, trimming,
    prefix and suffix tests, searching and counting. Every operation here is
    the model of one library call that the processor and the lexer rely on. */
module Text {

  datatype Option<T> = None | Some(value: T)

  /** The code points Kotlin's `Char.isWhitespace()` accepts, as inclusive
      ranges: Java whitespace (tab to carriage return, the four separators
      0x1C-0x1F, space) and the Unicode space separators. */
  const WHITESPACE: seq<(int, int)> := [
    (0x09, 0x0D), (0x1C, 0x20), (0xA0, 0xA0), (0x1680, 0x1680), (0x2000, 0x200A),
    (0x2028, 0x2029), (0x202F, 0x202F), (0x205F, 0x205F), (0x3000, 0x3000)]

  predicate InRanges(n: int, ranges: seq<(int, int)>) {
    ranges != [] && (ranges[0].0 <= n <= ranges[0].1 || InRanges(n, ranges[1..]))
  }

  /** Kotlin's `Char.isWhitespace()`. */
  predicate IsWhitespace(c: char) {
    InRanges(c as int, WHITESPACE)
  }

  lemma {:induction false} OutsideRanges(n: int, ranges: seq<(int, int)>)
    requires forall k | 0 <= k < |ranges| :: !(ranges[k].0 <= n <= ranges[k].1)
    ensures !InRanges(n, ranges)
  {
    if ranges != [] {
      assert forall k | 0 <= k < |ranges[1..]| :: ranges[1..][k] == ranges[k + 1];
      OutsideRanges(n, ranges[1..]);
    }
  }

  /** No character between the space and the no-break space (the visible
      ASCII characters, delete and the C1 controls) is whitespace. */
  lemma VisibleNotWhitespace(c: char)
    requires 0x20 < c as int < 0xA0
    ensures !IsWhitespace(c)
  {
    OutsideRanges(c as int, WHITESPACE);
  }

  /** The class `\s` of a Java regular expression: `[ \t\n\x0B\f\r]`. */
  predicate IsRegexSpace(c: char) {
    c == ' ' || 0x09 <= c as int <= 0x0D
  }

  /** A character matched by the alternation `\r\n|\r|\n`. */
  predicate IsLineBreak(c: char) {
    c == '\n' || c == '\r'
  }

  /** `CharSequence.isBlank()`. */
  predicate IsBlank(s: string) {
    forall i {:trigger IsWhitespace(s[i])} | 0 <= i < |s| :: IsWhitespace(s[i])
  }

  /** The first position from `i` on that does not hold whitespace, or `|s|`. */
  function SkipSpaces(s: string, i: nat): (k: nat)
    requires i <= |s|
    ensures i <= k <= |s|
    ensures forall p {:trigger IsWhitespace(s[p])} | i <= p < k :: IsWhitespace(s[p])
    ensures k < |s| ==> !IsWhitespace(s[k])
    decreases |s| - i
  {
    if i == |s| || !IsWhitespace(s[i]) then i else SkipSpaces(s, i + 1)
  }

  /** The position just after the last character before `j` that does not
      hold whitespace, or 0. */
  function SkipSpacesBack(s: string, j: nat): (k: nat)
    requires j <= |s|
    ensures k <= j
    ensures forall p {:trigger IsWhitespace(s[p])} | k <= p < j :: IsWhitespace(s[p])
    ensures 0 < k ==> !IsWhitespace(s[k - 1])
  {
    if j == 0 || !IsWhitespace(s[j - 1]) then j else SkipSpacesBack(s, j - 1)
  }

  /** Number of whitespace characters at the front of `s`. */
  function LeadingSpaces(s: string): (n: nat)
    ensures n <= |s|
    ensures forall i {:trigger IsWhitespace(s[i])} | 0 <= i < n :: IsWhitespace(s[i])
    ensures n < |s| ==> !IsWhitespace(s[n])
  {
    SkipSpaces(s, 0)
  }

  /** Number of whitespace characters at the back of `s`. */
  function TrailingSpaces(s: string): (n: nat)
    ensures n <= |s|
    ensures forall i {:trigger IsWhitespace(s[i])} | |s| - n <= i < |s| :: IsWhitespace(s[i])
    ensures n < |s| ==> !IsWhitespace(s[|s| - 1 - n])
  {
    |s| - SkipSpacesBack(s, |s|)
  }

  /** In a string that is not blank, the leading and trailing whitespace runs
      leave a non-empty middle. */
  lemma SpacesLeaveMiddle(s: string)
    requires !IsBlank(s)
    ensures LeadingSpaces(s) < |s| - TrailingSpaces(s)
  {
    var j :| 0 <= j < |s| && !IsWhitespace(s[j]);
    assert LeadingSpaces(s) <= j;
    assert j < |s| - TrailingSpaces(s);
  }

  /** `String.trim()`: the text without whitespace at either end. */
  function Trim(s: string): (r: string)
    ensures |r| <= |s|
    ensures IsBlank(s) <==> r == []
    ensures r != [] ==> !IsWhitespace(r[0]) && !IsWhitespace(r[|r| - 1])
    ensures r != [] ==> r == s[LeadingSpaces(s)..|s| - TrailingSpaces(s)]
  {
    if IsBlank(s) then []
    else
      SpacesLeaveMiddle(s);
      s[LeadingSpaces(s)..|s| - TrailingSpaces(s)]
  }

  /** `String.trimStart()`. */
  function TrimStart(s: string): (r: string)
    ensures |r| <= |s| && (r == [] || !IsWhitespace(r[0]))
    ensures s == s[..|s| - |r|] + r && IsBlank(s[..|s| - |r|])
  {
    s[LeadingSpaces(s)..]
  }

  /** `String.drop(n)`: everything after the first `n` characters. */
  function Drop(s: string, n: nat): string {
    if n <= |s| then s[n..] else []
  }

  predicate StartsWith(s: string, prefix: string) {
    |prefix| <= |s| && s[..|prefix|] == prefix
  }

  predicate EndsWith(s: string, suffix: string) {
    |suffix| <= |s| && s[|s| - |suffix|..] == suffix
  }

  /** `sub` occurs in `s` starting at position `i`. */
  predicate OccursAt(s: string, sub: string, i: nat) {
    i + |sub| <= |s| && s[i..i + |sub|] == sub
  }

  /** `CharSequence.contains(other)`: `other` occurs somewhere in `s`. */
  predicate Contains(s: string, sub: string) {
    exists i | 0 <= i <= |s| - |sub| :: OccursAt(s, sub, i)
  }

  /** Lower-case of an ASCII letter; other characters are left alone. */
  function LowerAscii(c: char): char {
    if 'A' <= c <= 'Z' then (c as int + 32) as char else c
  }

  predicate SameIgnoringCase(a: string, b: string)
    requires |a| == |b|
  {
    forall i | 0 <= i < |a| :: LowerAscii(a[i]) == LowerAscii(b[i])
  }

  /** `startsWith(prefix, ignoreCase = true)`. */
  predicate StartsWithIgnoreCase(s: string, prefix: string) {
    |prefix| <= |s| && SameIgnoringCase(s[..|prefix|], prefix)
  }

  /** `equals(other, ignoreCase = true)`. */
  predicate EqualsIgnoreCase(s: string, other: string) {
    |s| == |other| && SameIgnoringCase(s, other)
  }

  /** `removePrefix(prefix)`. */
  function RemovePrefix(s: string, prefix: string): (r: string)
    ensures StartsWith(s, prefix) ==> s == prefix + r
    ensures !StartsWith(s, prefix) ==> r == s
  {
    if StartsWith(s, prefix) then s[|prefix|..] else s
  }

  /** `removeSuffix(suffix)`. */
  function RemoveSuffix(s: string, suffix: string): (r: string)
    ensures EndsWith(s, suffix) ==> s == r + suffix
    ensures !EndsWith(s, suffix) ==> r == s
  {
    if EndsWith(s, suffix) then s[..|s| - |suffix|] else s
  }

  /** `s.count { it == c }`. */
  function CountChar(s: string, c: char): nat {
    if s == [] then 0 else (if s[0] == c then 1 else 0) + CountChar(s[1..], c)
  }

  lemma {:induction false} CountAppend(a: string, b: string, c: char)
    ensures CountChar(a + b, c) == CountChar(a, c) + CountChar(b, c)
  {
    if a == [] {
      assert a + b == b;
    } else {
      assert (a + b)[1..] == a[1..] + b;
      CountAppend(a[1..], b, c);
    }
  }

  /** A string that does not contain `c` counts zero of it. */
  lemma {:induction false} CountAbsent(s: string, c: char)
    requires forall i | 0 <= i < |s| :: s[i] != c
    ensures CountChar(s, c) == 0
  {
    if s != [] {
      CountAbsent(s[1..], c);
    }
  }

  /** Counting over a prefix never exceeds counting over the whole. */
  lemma CountPrefix(s: string, p: nat, c: char)
    requires p <= |s|
    ensures CountChar(s[..p], c) <= CountChar(s, c)
  {
    assert s == s[..p] + s[p..];
    CountAppend(s[..p], s[p..], c);
  }

  /** `StringBuilder.lastIndexOf(sub)`: the largest position at which `sub`
      occurs in `s`, and `None` (Kotlin's -1) when it does not occur. */
  function LastIndexOf(s: string, sub: string): (r: Option<nat>)
    ensures r.Some? ==> OccursAt(s, sub, r.value)
    ensures forall j: nat | r.None? || r.value < j :: !OccursAt(s, sub, j)
  {
    LastIndexAtOrBefore(s, sub, |s| - |sub|)
  }

  function LastIndexAtOrBefore(s: string, sub: string, i: int): (r: Option<nat>)
    requires i <= |s| - |sub|
    ensures r.Some? ==> r.value <= i && OccursAt(s, sub, r.value)
    ensures forall j: nat | j <= i && (r.None? || r.value < j) :: !OccursAt(s, sub, j)
    decreases i + 1
  {
    if i < 0 then None
    else if s[i..i + |sub|] == sub then Some(i)
    else LastIndexAtOrBefore(s, sub, i - 1)
  }
}
