/** Character classes and scanning primitives shared by the three text
    rewrites of the update tool. Python's default (Unicode) `re` classes
    are restricted to ASCII characters: `\s` is white space as Python's
    `str.isspace` has it, `\d` the ten decimal digits and `\w` letters,
    digits and the underscore. */
module Scan {

  /** Python's `\s` on ASCII: tab, line feed, vertical tab, form feed,
      carriage return (9-13), the separators 0x1C-0x1F, and space. */
  predicate IsSpace(c: char) {
    var n := c as int;
    n == 32 || 9 <= n <= 13 || 28 <= n <= 31
  }

  /** Python's `\d` on ASCII. */
  predicate IsDigit(c: char) {
    '0' <= c <= '9'
  }

  /** Python's `\w` on ASCII, used by the word boundary `\b`. */
  predicate IsWordChar(c: char) {
    'a' <= c <= 'z' || 'A' <= c <= 'Z' || IsDigit(c) || c == '_'
  }

  predicate AllDigits(s: string) {
    forall k :: 0 <= k < |s| ==> IsDigit(s[k])
  }

  /** The literal `lit` occurs in `s` at position `i`. */
  predicate LitAt(s: string, i: nat, lit: string) {
    i + |lit| <= |s| && s[i..i + |lit|] == lit
  }

  /** The end of the longest run of `\s` characters starting at `i`:
      what a greedy `\s*` consumes. */
  function SkipSpaces(s: string, i: nat): (j: nat)
    requires i <= |s|
    ensures i <= j <= |s|
    ensures forall k :: i <= k < j ==> IsSpace(s[k])
    ensures j == |s| || !IsSpace(s[j])
    decreases |s| - i
  {
    if i == |s| || !IsSpace(s[i]) then i else SkipSpaces(s, i + 1)
  }

  /** The end of the longest run of decimal digits starting at `i`. */
  function SkipDigits(s: string, i: nat): (j: nat)
    requires i <= |s|
    ensures i <= j <= |s|
    ensures forall k :: i <= k < j ==> IsDigit(s[k])
    ensures j == |s| || !IsDigit(s[j])
    decreases |s| - i
  {
    if i == |s| || !IsDigit(s[i]) then i else SkipDigits(s, i + 1)
  }

  /** The position of the first line feed at or after `i`, or `|s|`:
      how far `.` (which does not match a line feed) can reach. */
  function LineEnd(s: string, i: nat): (j: nat)
    requires i <= |s|
    ensures i <= j <= |s|
    ensures forall k :: i <= k < j ==> s[k] != '\n'
    ensures j == |s| || s[j] == '\n'
    decreases |s| - i
  {
    if i == |s| || s[i] == '\n' then i else LineEnd(s, i + 1)
  }

  /** The three postconditions of SkipSpaces determine its result. */
  lemma SkipSpacesUnique(s: string, i: nat, j: nat)
    requires i <= j <= |s|
    requires forall k :: i <= k < j ==> IsSpace(s[k])
    requires j == |s| || !IsSpace(s[j])
    ensures SkipSpaces(s, i) == j
  {
  }

  lemma SkipDigitsUnique(s: string, i: nat, j: nat)
    requires i <= j <= |s|
    requires forall k :: i <= k < j ==> IsDigit(s[k])
    requires j == |s| || !IsDigit(s[j])
    ensures SkipDigits(s, i) == j
  {
  }

  lemma LineEndUnique(s: string, i: nat, j: nat)
    requires i <= j <= |s|
    requires forall k :: i <= k < j ==> s[k] != '\n'
    requires j == |s| || s[j] == '\n'
    ensures LineEnd(s, i) == j
  {
  }

  /** The line end comes no later than any line feed. */
  lemma LineEndAtMost(s: string, i: nat, p: nat)
    requires i <= p < |s| && s[p] == '\n'
    ensures LineEnd(s, i) <= p
  {
  }

  /** A greedy `\s*` that stops inside a common prefix of two texts
      stops at the same place in both. */
  lemma SkipSpacesPrefix(x: string, y: string, i: nat, n: nat)
    requires i <= n <= |x| && n <= |y| && x[..n] == y[..n]
    requires SkipSpaces(x, i) < n
    ensures SkipSpaces(y, i) == SkipSpaces(x, i)
  {
    var j := SkipSpaces(x, i);
    forall k | 0 <= k < n ensures x[k] == y[k] {
      assert x[..n][k] == x[k] && y[..n][k] == y[k];
    }
    SkipSpacesUnique(y, i, j);
  }

  /** The same for the reach of `.`. */
  lemma LineEndPrefix(x: string, y: string, i: nat, n: nat)
    requires i <= n <= |x| && n <= |y| && x[..n] == y[..n]
    requires LineEnd(x, i) < n
    ensures LineEnd(y, i) == LineEnd(x, i)
  {
    var j := LineEnd(x, i);
    forall k | 0 <= k < n ensures x[k] == y[k] {
      assert x[..n][k] == x[k] && y[..n][k] == y[k];
    }
    LineEndUnique(y, i, j);
  }

  datatype Option<T> = None | Some(value: T)

  /** The result of one `re.subn` call: the new text and the number of
      substitutions made. */
  datatype Substituted = Substituted(text: string, count: nat)
}
