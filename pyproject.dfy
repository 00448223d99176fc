/** The substitution in `update_pyproject_version`: every line of
    pyproject.toml of the form `version = "..."` gets the new version
    between its opening quote and the last quote on the line.

    The regular expression is `^(version\s*=\s*").*(")` under MULTILINE,
    replaced by `\g<1>` + version + `\g<2>`. `\s*` may run over line
    feeds; `.*` may not, and, being greedy, stops at the last quote of
    the line. */
module PyprojectVersion {
  import opened Scan

  const Key := "version"

  /** A successful match at position 0: the value runs from `valueStart`
      (just after the opening quote) up to the closing quote at `close`. */
  datatype VersionLine = VersionLine(valueStart: nat, close: nat)

  /** The last quote in `[q, l)`, which is where a greedy `.*"` ends. */
  function LastQuote(t: string, q: nat, l: nat): (r: Option<nat>)
    requires q <= l <= |t|
    ensures r.Some? ==> q <= r.value < l && t[r.value] == '"'
    ensures r.Some? ==> forall k :: r.value < k < l ==> t[k] != '"'
    ensures r.None? ==> forall k :: q <= k < l ==> t[k] != '"'
    decreases l - q
  {
    if l == q then None
    else if t[l - 1] == '"' then Some(l - 1)
    else LastQuote(t, q, l - 1)
  }

  lemma {:induction false} LastQuoteUnique(t: string, q: nat, c: nat, l: nat)
    requires q <= c < l <= |t| && t[c] == '"'
    requires forall k :: c < k < l ==> t[k] != '"'
    ensures LastQuote(t, q, l) == Some(c)
    decreases l - q
  {
    if t[l - 1] != '"' {
      LastQuoteUnique(t, q, c, l - 1);
    }
  }

  /** The regular expression tried at the start of `t`; `ls` says whether
      that position is the start of a line, which `^` demands. */
  function VersionLineAt(t: string, ls: bool): (r: Option<VersionLine>)
    ensures r.Some? ==> ls && LitAt(t, 0, Key)
    ensures r.Some? ==> |Key| + 2 <= r.value.valueStart <= r.value.close < |t|
    ensures r.Some? ==> t[r.value.valueStart - 1] == '"' && t[r.value.close] == '"'
  {
    if !ls || !LitAt(t, 0, Key) then None else AfterKey(t)
  }

  /** `\s*=` after the key, then the rest. */
  function AfterKey(t: string): (r: Option<VersionLine>)
    requires |Key| <= |t|
    ensures r.Some? ==> |Key| + 2 <= r.value.valueStart <= r.value.close < |t|
    ensures r.Some? ==> t[r.value.valueStart - 1] == '"' && t[r.value.close] == '"'
  {
    var e := SkipSpaces(t, |Key|);
    if e == |t| || t[e] != '=' then None else AfterEquals(t, e + 1)
  }

  /** `\s*"` after the equals sign, then the value. */
  function AfterEquals(t: string, i: nat): (r: Option<VersionLine>)
    requires i <= |t|
    ensures r.Some? ==> i + 1 <= r.value.valueStart <= r.value.close < |t|
    ensures r.Some? ==> t[r.value.valueStart - 1] == '"' && t[r.value.close] == '"'
  {
    var w := SkipSpaces(t, i);
    if w == |t| || t[w] != '"' then None else ValueFrom(t, w + 1)
  }

  /** `.*"`: the value ends at the last quote of the line. */
  function ValueFrom(t: string, q: nat): (r: Option<VersionLine>)
    requires q <= |t|
    ensures r.Some? ==> r.value.valueStart == q <= r.value.close < |t| && t[r.value.close] == '"'
  {
    match LastQuote(t, q, LineEnd(t, q))
    case None => None
    case Some(c) => Some(VersionLine(q, c))
  }

  /** The same match described in terms of the line end alone:
      `version`, white space, `=`, white space and a quote; then a value
      with no line feed in it, then a quote after which the line holds
      no other. */
  ghost predicate IsVersionLine(t: string, ls: bool, q: nat, c: nat) {
    ls && LitAt(t, 0, Key) && |Key| + 2 <= q <= c < |t| &&
    (exists e: nat :: EqualsAt(t, e, q)) &&
    t[q - 1] == '"' &&
    (forall k :: q <= k < c ==> t[k] != '\n') &&
    t[c] == '"' &&
    (forall k :: c < k < LineEnd(t, c) ==> t[k] != '"')
  }

  /** `\s*=\s*` runs from the end of the key to `q - 1`, with the `=`
      at `e`. */
  predicate EqualsAt(t: string, e: nat, q: nat) {
    |Key| <= e < q - 1 && q <= |t| &&
    (forall k :: |Key| <= k < e ==> IsSpace(t[k])) && t[e] == '=' &&
    (forall k :: e < k < q - 1 ==> IsSpace(t[k]))
  }

  /** The scanner finds exactly the matches the regular expression
      describes. */
  lemma VersionLineAtIff(t: string, ls: bool, q: nat, c: nat)
    ensures VersionLineAt(t, ls) == Some(VersionLine(q, c)) <==> IsVersionLine(t, ls, q, c)
  {
    if VersionLineAt(t, ls) == Some(VersionLine(q, c)) {
      VersionLineAtSound(t, ls, q, c);
    }
    if IsVersionLine(t, ls, q, c) {
      VersionLineAtComplete(t, ls, q, c);
    }
  }

  lemma VersionLineAtSound(t: string, ls: bool, q: nat, c: nat)
    requires VersionLineAt(t, ls) == Some(VersionLine(q, c))
    ensures IsVersionLine(t, ls, q, c)
  {
    var e := SkipSpaces(t, |Key|);
    assert EqualsAt(t, e, q);
    var l := LineEnd(t, q);
    LineEndUnique(t, c, l);
  }

  lemma VersionLineAtComplete(t: string, ls: bool, q: nat, c: nat)
    requires IsVersionLine(t, ls, q, c)
    ensures VersionLineAt(t, ls) == Some(VersionLine(q, c))
  {
    var e: nat :| EqualsAt(t, e, q);
    SkipSpacesUnique(t, |Key|, e);
    SkipSpacesUnique(t, e + 1, q - 1);
    var l := LineEnd(t, c);
    LineEndUnique(t, q, l);
    LastQuoteUnique(t, q, c, l);
    ValueFromIs(t, q, c, l);
  }

  /** One `re.subn` pass over `t`, `ls` telling whether `t` starts a
      line. After a match the scan resumes behind the closing quote,
      which is never a line start. */
  function Subn(t: string, ls: bool, v: string): Substituted
    decreases |t|
  {
    if t == [] then Substituted([], 0)
    else
      match VersionLineAt(t, ls)
      case Some(m) =>
        var rest := Subn(t[m.close + 1..], false, v);
        Substituted(t[..m.valueStart] + v + "\"" + rest.text, rest.count + 1)
      case None =>
        var rest := Subn(t[1..], t[0] == '\n', v);
        Substituted([t[0]] + rest.text, rest.count)
  }

  /** The substitution over a whole file: one substitution per version
      line, and the file unchanged when there is none. */
  function Rewrite(content: string, v: string): (r: Substituted)
    ensures r.count == LineCount(content, true)
    ensures r.count == 0 ==> r.text == content
  {
    SubnCountsVersionLines(content, true, v);
    if Subn(content, true, v).count == 0 then
      NoMatchUnchanged(content, true, v);
      Subn(content, true, v)
    else
      Subn(content, true, v)
  }

  /** What `update_pyproject_version` writes: nothing when pyproject.toml
      is missing or holds no version line, else the rewritten text. */
  function UpdatePyproject(file: Option<string>, v: string): (r: Option<string>)
    ensures r.Some? <==> file.Some? && Rewrite(file.value, v).count > 0
    ensures r.Some? ==> r.value == Rewrite(file.value, v).text
  {
    match file
    case None => None
    case Some(content) =>
      var s := Rewrite(content, v);
      if s.count == 0 then None else Some(s.text)
  }

  /** The number of positions of `t` where the regular expression
      matches, counted independently of the scan. */
  function LineCount(t: string, ls: bool): nat
    decreases |t|
  {
    if t == [] then 0
    else (if VersionLineAt(t, ls).Some? then 1 else 0) + LineCount(t[1..], t[0] == '\n')
  }

  /** No match can start inside another: a line start within a match is
      followed by white space, `=` or a quote, never by `v`. */
  lemma NoVersionLineInside(t: string, ls: bool, k: nat)
    requires VersionLineAt(t, ls).Some?
    requires 1 <= k <= VersionLineAt(t, ls).value.close
    ensures VersionLineAt(t[k..], t[k - 1] == '\n').None?
  {
    var c := VersionLineAt(t, ls).value.close;
    if t[k - 1] == '\n' {
      var e := SkipSpaces(t, |Key|);
      var w := SkipSpaces(t, e + 1);
      assert t[..|Key|] == Key;
      assert IsSpace(t[k]) || t[k] == '=' || t[k] == '"';
      assert Key[0] == 'v';
    }
  }

  lemma {:induction false} LineCountSkip(t: string, ls: bool, k: nat)
    requires VersionLineAt(t, ls).Some?
    requires 1 <= k <= VersionLineAt(t, ls).value.close + 1
    ensures LineCount(t[k..], t[k - 1] == '\n') == LineCount(t[VersionLineAt(t, ls).value.close + 1..], false)
    decreases VersionLineAt(t, ls).value.close + 1 - k
  {
    var c := VersionLineAt(t, ls).value.close;
    if k <= c {
      NoVersionLineInside(t, ls, k);
      assert t[k..][1..] == t[k + 1..];
      LineCountSkip(t, ls, k + 1);
    }
  }

  /** The substitution count is the number of version lines. */
  lemma {:induction false} SubnCountsVersionLines(t: string, ls: bool, v: string)
    ensures Subn(t, ls, v).count == LineCount(t, ls)
    decreases |t|
  {
    if t != [] {
      match VersionLineAt(t, ls)
      case Some(m) =>
        SubnCountsVersionLines(t[m.close + 1..], false, v);
        LineCountSkip(t, ls, 1);
      case None =>
        SubnCountsVersionLines(t[1..], t[0] == '\n', v);
    }
  }

  /** `out` copies `u` up to and including position `i`, a line start
      (at the start of `u` exactly when `f`) holding `v`. */
  predicate CopiedUpTo(out: string, u: string, f: bool, i: nat) {
    i < |u| && i < |out| && out[..i + 1] == u[..i + 1] && u[i] == 'v' &&
    (if i == 0 then f else u[i - 1] == '\n')
  }

  /** Up to the start of its first substitution the output of a pass is
      a copy of its input; without one it is the input itself. */
  lemma {:induction false} SubnHead(u: string, f: bool, v: string)
    ensures Subn(u, f, v).text == u || exists i: nat :: CopiedUpTo(Subn(u, f, v).text, u, f, i)
    decreases |u|
  {
    if u != [] {
      if VersionLineAt(u, f).Some? {
        HeadAtMatch(u, f, v);
      } else {
        var g := u[0] == '\n';
        var r := Subn(u[1..], g, v).text;
        SubnMiss(u, f, v);
        SubnHead(u[1..], g, v);
        if r != u[1..] {
          var i: nat :| CopiedUpTo(r, u[1..], g, i);
          CopiedShift(Subn(u, f, v).text, r, u, f, i);
        } else {
          assert [u[0]] + u[1..] == u;
        }
      }
    }
  }

  lemma HeadAtMatch(u: string, f: bool, v: string)
    requires VersionLineAt(u, f).Some?
    ensures CopiedUpTo(Subn(u, f, v).text, u, f, 0)
  {
    var m := VersionLineAt(u, f).value;
    var out := Subn(u, f, v).text;
    SubnMatch(u, f, v);
    assert u[0] == u[..|Key|][0] == Key[0] == 'v';
    assert out[0] == u[..m.valueStart][0];
    assert out[..1] == u[..1];
  }

  /** One step of a pass at a match. */
  lemma SubnMatch(t: string, ls: bool, v: string)
    requires VersionLineAt(t, ls).Some?
    ensures Subn(t, ls, v).text == t[..VersionLineAt(t, ls).value.valueStart] + v + "\"" +
      Subn(t[VersionLineAt(t, ls).value.close + 1..], false, v).text
  {
  }

  lemma SubnMatchCount(t: string, ls: bool, v: string)
    requires VersionLineAt(t, ls).Some?
    ensures Subn(t, ls, v).count == Subn(t[VersionLineAt(t, ls).value.close + 1..], false, v).count + 1
  {
  }

  /** One step of a pass where the attempt fails. */
  lemma SubnMiss(t: string, ls: bool, v: string)
    requires t != [] && VersionLineAt(t, ls).None?
    ensures Subn(t, ls, v) ==
      var rest := Subn(t[1..], t[0] == '\n', v);
      Substituted([t[0]] + rest.text, rest.count)
  {
  }

  lemma CopiedShift(out: string, r: string, u: string, f: bool, i: nat)
    requires u != [] && out == [u[0]] + r && CopiedUpTo(r, u[1..], u[0] == '\n', i)
    ensures CopiedUpTo(out, u, f, i + 1)
  {
    assert out[..i + 2] == [u[0]] + r[..i + 1];
    assert u[..i + 2] == [u[0]] + u[1..][..i + 1];
  }

  /** A failed attempt at the start of `x` reads no further than the next
      line start `i` holding `v`, so it fails in any `y` that agrees with
      `x` up to there. */
  lemma AttemptLocal(x: string, y: string, ls: bool, i: nat)
    requires 1 <= i < |x| && i < |y| && x[..i + 1] == y[..i + 1]
    requires x[i - 1] == '\n' && x[i] == 'v'
    ensures VersionLineAt(x, ls) == VersionLineAt(y, ls)
  {
    forall k | 0 <= k <= i ensures x[k] == y[k] {
      assert x[..i + 1][k] == x[k] && y[..i + 1][k] == y[k];
    }
    if !ls {
    } else if i < |Key| {
      assert Key[i - 1] != '\n';
      assert !LitAt(x, 0, Key);
      assert !LitAt(y, 0, Key);
    } else {
      assert x[..|Key|] == y[..|Key|];
      if LitAt(x, 0, Key) {
        AfterKeyLocal(x, y, i);
      }
    }
  }

  lemma AfterKeyLocal(x: string, y: string, i: nat)
    requires |Key| <= i < |x| && i < |y| && forall k :: 0 <= k <= i ==> x[k] == y[k]
    requires x[..i + 1] == y[..i + 1] && x[i - 1] == '\n' && x[i] == 'v'
    ensures AfterKey(x) == AfterKey(y)
  {
    var e := SkipSpaces(x, |Key|);
    SkipSpacesPrefix(x, y, |Key|, i + 1);
    if e < i && x[e] == '=' {
      AfterEqualsLocal(x, y, e + 1, i);
    }
  }

  lemma AfterEqualsLocal(x: string, y: string, j: nat, i: nat)
    requires 1 <= j <= i < |x| && i < |y|
    requires x[..i + 1] == y[..i + 1] && x[i - 1] == '\n' && x[i] == 'v'
    ensures AfterEquals(x, j) == AfterEquals(y, j)
  {
    var w := SkipSpaces(x, j);
    SkipSpacesPrefix(x, y, j, i + 1);
    assert x[w] == x[..i + 1][w] == y[..i + 1][w] == y[w];
    if w < i && x[w] == '"' {
      LineEndAtMost(x, w + 1, i - 1);
      ValueFromLocal(x, y, w + 1, i + 1);
    }
  }

  lemma ValueFromLocal(x: string, y: string, q: nat, n: nat)
    requires q <= n <= |x| && n <= |y| && x[..n] == y[..n] && LineEnd(x, q) < n
    ensures ValueFrom(x, q) == ValueFrom(y, q)
  {
    LineEndPrefix(x, y, q, n);
    forall k | q <= k < LineEnd(x, q) ensures x[k] == y[k] {
      assert x[..n][k] == x[k] && y[..n][k] == y[k];
    }
    LastQuoteSame(x, y, q, LineEnd(x, q));
  }

  lemma {:induction false} LastQuoteSame(x: string, y: string, q: nat, l: nat)
    requires q <= l <= |x| && l <= |y| && forall k :: q <= k < l ==> x[k] == y[k]
    ensures LastQuote(x, q, l) == LastQuote(y, q, l)
    decreases l - q
  {
    if l > q {
      LastQuoteSame(x, y, q, l - 1);
    }
  }

  /** A position where the attempt fails still fails after the pass. */
  lemma UnmatchedStaysUnmatched(t: string, ls: bool, v: string)
    requires t != [] && VersionLineAt(t, ls).None?
    ensures VersionLineAt(Subn(t, ls, v).text, ls).None?
  {
    var out := Subn(t, ls, v).text;
    var r := Subn(t[1..], t[0] == '\n', v).text;
    assert out == [t[0]] + r;
    SubnHead(t[1..], t[0] == '\n', v);
    if r != t[1..] {
      var i: nat :| CopiedUpTo(r, t[1..], t[0] == '\n', i);
      CopiedShift(out, r, t, ls, i);
      AttemptLocal(t, out, ls, i + 1);
    } else {
      assert out == t;
    }
  }

  /** The part of the first line that a pass over `u` (not at a line
      start) leaves alone: all of it. */
  lemma LineTailKept(u: string, v: string)
    ensures LineEnd(Subn(u, false, v).text, 0) == LineEnd(u, 0)
    ensures Subn(u, false, v).text[..LineEnd(u, 0)] == u[..LineEnd(u, 0)]
  {
    var r := Subn(u, false, v).text;
    var l := LineEnd(u, 0);
    SubnHead(u, false, v);
    if r != u {
      var i: nat :| CopiedUpTo(r, u, false, i);
      LineEndPrefix(u, r, 0, i + 1);
      assert r[..l] == r[..i + 1][..l];
      assert u[..l] == u[..i + 1][..l];
    }
  }

  /** The line end seen from a position, in terms of the suffix after it. */
  lemma LineEndShift(t: string, c: nat)
    requires c < |t| && t[c] != '\n'
    ensures LineEnd(t, c) == c + 1 + LineEnd(t[c + 1..], 0)
  {
    var u := t[c + 1..];
    var l := LineEnd(u, 0);
    forall k | c < k < c + 1 + l ensures t[k] != '\n' {
      assert t[k] == u[k - c - 1];
    }
    if c + 1 + l < |t| {
      assert t[c + 1 + l] == u[l];
    }
    LineEndUnique(t, c, c + 1 + l);
  }

  /** A rewritten line is again a version line, now holding `v`, as long
      as `v` does not break the line. */
  lemma RewrittenLineReads(t: string, ls: bool, v: string)
    requires VersionLineAt(t, ls).Some? && '\n' !in v
    ensures VersionLineAt(Subn(t, ls, v).text, ls) ==
      Some(VersionLine(VersionLineAt(t, ls).value.valueStart, VersionLineAt(t, ls).value.valueStart + |v|))
  {
    SubnMatch(t, ls, v);
    RewrittenLine(t, ls, v, VersionLineAt(t, ls).value.valueStart, VersionLineAt(t, ls).value.close,
      Subn(t[VersionLineAt(t, ls).value.close + 1..], false, v).text, Subn(t, ls, v).text);
  }

  lemma RewrittenLine(t: string, ls: bool, v: string, q: nat, c: nat, r: string, out: string)
    requires VersionLineAt(t, ls).Some? && '\n' !in v
    requires q == VersionLineAt(t, ls).value.valueStart && c == VersionLineAt(t, ls).value.close
    requires r == Subn(t[c + 1..], false, v).text && out == t[..q] + v + "\"" + r
    ensures VersionLineAt(out, ls) == Some(VersionLine(q, q + |v|))
  {
    var u := t[c + 1..];
    LineTailKept(u, v);
    VersionLineAtSound(t, ls, q, c);
    LineEndShift(t, c);
    RewrittenValueReads(t, q, c, v, r, out);
    KeyPartKept(t, ls, out);
  }

  /** The part of a match before its value decides nothing else, so a
      text that keeps it and has a value there matches there too. */
  lemma KeyPartKept(t: string, ls: bool, out: string)
    requires VersionLineAt(t, ls).Some?
    requires VersionLineAt(t, ls).value.valueStart <= |out|
    requires out[..VersionLineAt(t, ls).value.valueStart] == t[..VersionLineAt(t, ls).value.valueStart]
    ensures VersionLineAt(out, ls) == ValueFrom(out, VersionLineAt(t, ls).value.valueStart)
  {
    var q := VersionLineAt(t, ls).value.valueStart;
    var e := SkipSpaces(t, |Key|);
    var w := SkipSpaces(t, e + 1);
    KeyKept(t, out, q);
    ScanKept(t, out, |Key|, q);
    ScanKept(t, out, e + 1, q);
    assert AfterEquals(out, e + 1) == ValueFrom(out, q);
  }

  /** A `\s*` that stops before `q` stops at the same character in a
      text that agrees up to `q`. */
  lemma ScanKept(t: string, out: string, i: nat, q: nat)
    requires i <= q <= |t| && q <= |out| && out[..q] == t[..q] && SkipSpaces(t, i) < q
    ensures SkipSpaces(out, i) == SkipSpaces(t, i) && out[SkipSpaces(t, i)] == t[SkipSpaces(t, i)]
  {
    SkipSpacesPrefix(t, out, i, q);
    var j := SkipSpaces(t, i);
    assert out[j] == out[..q][j] && t[j] == t[..q][j];
  }

  lemma KeyKept(t: string, out: string, q: nat)
    requires LitAt(t, 0, Key) && |Key| <= q <= |t| && q <= |out| && out[..q] == t[..q]
    ensures LitAt(out, 0, Key)
  {
    assert out[..|Key|] == out[..q][..|Key|];
    assert t[..|Key|] == t[..q][..|Key|];
  }

  lemma RewrittenValueReads(t: string, q: nat, c: nat, v: string, r: string, out: string)
    requires q <= c < |t| && t[c] == '"' && '\n' !in v
    requires forall k :: c < k < LineEnd(t, c) ==> t[k] != '"'
    requires LineEnd(t, c) == c + 1 + LineEnd(t[c + 1..], 0)
    requires LineEnd(r, 0) == LineEnd(t[c + 1..], 0)
    requires r[..LineEnd(t[c + 1..], 0)] == t[c + 1..][..LineEnd(t[c + 1..], 0)]
    requires out == t[..q] + v + "\"" + r
    ensures out[..q] == t[..q]
    ensures ValueFrom(out, q) == Some(VersionLine(q, q + |v|))
  {
    var l := LineEnd(r, 0);
    forall k | 0 <= k < l ensures r[k] != '"' {
      assert r[k] == r[..l][k] == t[c + 1..][..l][k] == t[c + 1 + k];
    }
    var m := q + |v|;
    forall k | q <= k < m ensures out[k] != '\n' {
      assert out[k] == v[k - q];
    }
    assert out[m] == '"';
    assert out[m + 1..] == r;
    ClosedValue(out, q, m, r);
  }

  /** A value with no line feed, a quote, and then a line remainder with
      no quote: the value ends at that quote. */
  lemma ClosedValue(out: string, q: nat, m: nat, r: string)
    requires q <= m < |out| && out[m] == '"' && out[m + 1..] == r
    requires forall k :: q <= k < m ==> out[k] != '\n'
    requires forall k :: 0 <= k < LineEnd(r, 0) ==> r[k] != '"'
    ensures ValueFrom(out, q) == Some(VersionLine(q, m))
  {
    var l := LineEnd(r, 0);
    forall k | m < k < m + 1 + l ensures out[k] != '\n' && out[k] != '"' {
      assert out[k] == r[k - m - 1];
    }
    if m + 1 + l < |out| {
      assert out[m + 1 + l] == r[l];
    }
    LineEndUnique(out, q, m + 1 + l);
    LastQuoteUnique(out, q, m, m + 1 + l);
    ValueFromIs(out, q, m, m + 1 + l);
  }

  lemma ValueFromIs(t: string, q: nat, c: nat, l: nat)
    requires q <= c < l <= |t| && LineEnd(t, q) == l && LastQuote(t, q, l) == Some(c)
    ensures ValueFrom(t, q) == Some(VersionLine(q, c))
  {
  }

  /** A pass that makes no substitution returns its input. */
  lemma {:induction false} NoMatchUnchanged(t: string, ls: bool, v: string)
    requires Subn(t, ls, v).count == 0
    ensures Subn(t, ls, v).text == t
    decreases |t|
  {
    if t != [] {
      if VersionLineAt(t, ls).Some? {
        SubnMatchCount(t, ls, v);
      } else {
        SubnMiss(t, ls, v);
        NoMatchUnchanged(t[1..], t[0] == '\n', v);
        assert [t[0]] + t[1..] == t;
      }
    }
  }

  /** A second pass with the same version changes nothing and finds the
      same lines. */
  lemma {:induction false} SubnIdempotent(t: string, ls: bool, v: string)
    requires '\n' !in v
    ensures Subn(Subn(t, ls, v).text, ls, v) == Subn(t, ls, v)
    decreases |t|
  {
    if t != [] {
      var out := Subn(t, ls, v).text;
      match VersionLineAt(t, ls)
      case Some(m) =>
        var rest := Subn(t[m.close + 1..], false, v);
        RewrittenLineReads(t, ls, v);
        SubnIdempotent(t[m.close + 1..], false, v);
        assert out[m.valueStart + |v| + 1..] == rest.text;
        assert out[..m.valueStart] == t[..m.valueStart];
      case None =>
        UnmatchedStaysUnmatched(t, ls, v);
        SubnIdempotent(t[1..], t[0] == '\n', v);
        assert out[1..] == Subn(t[1..], t[0] == '\n', v).text;
    }
  }

  /** The values a reader finds, line by line, scanning as `re.finditer`
      would. */
  function Values(t: string, ls: bool): seq<string>
    decreases |t|
  {
    if t == [] then []
    else
      match VersionLineAt(t, ls)
      case Some(m) => [t[m.valueStart..m.close]] + Values(t[m.close + 1..], false)
      case None => Values(t[1..], t[0] == '\n')
  }

  lemma ValuesAfterMatch(t: string, ls: bool, v: string)
    requires VersionLineAt(t, ls).Some? && '\n' !in v
    ensures Values(Subn(t, ls, v).text, ls) ==
      [v] + Values(Subn(t[VersionLineAt(t, ls).value.close + 1..], false, v).text, false)
  {
    var out := Subn(t, ls, v).text;
    var r := Subn(t[VersionLineAt(t, ls).value.close + 1..], false, v).text;
    MatchPieces(t, ls, v);
    RewrittenLineReads(t, ls, v);
    ValuesOfLine(out, ls);
    assert out[VersionLineAt(out, ls).value.valueStart..VersionLineAt(out, ls).value.close] == v;
    assert out[VersionLineAt(out, ls).value.close + 1..] == r;
  }

  /** The pieces of the output of a pass that starts with a match. */
  lemma MatchPieces(t: string, ls: bool, v: string)
    requires VersionLineAt(t, ls).Some?
    ensures |Subn(t, ls, v).text| == VersionLineAt(t, ls).value.valueStart + |v| + 1 +
      |Subn(t[VersionLineAt(t, ls).value.close + 1..], false, v).text|
    ensures Subn(t, ls, v).text[..VersionLineAt(t, ls).value.valueStart] == t[..VersionLineAt(t, ls).value.valueStart]
    ensures Subn(t, ls, v).text[VersionLineAt(t, ls).value.valueStart..VersionLineAt(t, ls).value.valueStart + |v|] == v
    ensures Subn(t, ls, v).text[VersionLineAt(t, ls).value.valueStart + |v|] == '"'
    ensures Subn(t, ls, v).text[VersionLineAt(t, ls).value.valueStart + |v| + 1..] ==
      Subn(t[VersionLineAt(t, ls).value.close + 1..], false, v).text
  {
    SubnMatch(t, ls, v);
    Spliced(t, VersionLineAt(t, ls).value.valueStart, v, Subn(t[VersionLineAt(t, ls).value.close + 1..], false, v).text,
      Subn(t, ls, v).text);
  }

  /** The pieces of a rewritten line. */
  lemma Spliced(t: string, q: nat, v: string, r: string, out: string)
    requires q <= |t| && out == t[..q] + v + "\"" + r
    ensures |out| == q + |v| + 1 + |r|
    ensures out[..q] == t[..q] && out[q..q + |v|] == v && out[q + |v|] == '"' && out[q + |v| + 1..] == r
  {
  }

  lemma ValuesOfLine(t: string, ls: bool)
    requires VersionLineAt(t, ls).Some?
    ensures Values(t, ls) == [t[VersionLineAt(t, ls).value.valueStart..VersionLineAt(t, ls).value.close]] +
      Values(t[VersionLineAt(t, ls).value.close + 1..], false)
  {
  }

  lemma ValuesAfterMiss(t: string, ls: bool, v: string)
    requires t != [] && VersionLineAt(t, ls).None?
    ensures Values(Subn(t, ls, v).text, ls) == Values(Subn(t[1..], t[0] == '\n', v).text, t[0] == '\n')
  {
    var out := Subn(t, ls, v).text;
    assert out == [t[0]] + Subn(t[1..], t[0] == '\n', v).text;
    UnmatchedStaysUnmatched(t, ls, v);
    assert out[1..] == Subn(t[1..], t[0] == '\n', v).text;
  }

  /** After the pass every version line holds `v`, and there are as many
      as substitutions were made. */
  lemma {:induction false} EveryLineHoldsVersion(t: string, ls: bool, v: string)
    requires '\n' !in v
    ensures Values(Subn(t, ls, v).text, ls) == seq(Subn(t, ls, v).count, _ => v)
    decreases |t|
  {
    if t != [] {
      match VersionLineAt(t, ls)
      case Some(m) =>
        var rest := Subn(t[m.close + 1..], false, v);
        ValuesAfterMatch(t, ls, v);
        EveryLineHoldsVersion(t[m.close + 1..], false, v);
        assert seq(rest.count + 1, _ => v) == [v] + seq(rest.count, _ => v);
      case None =>
        ValuesAfterMiss(t, ls, v);
        EveryLineHoldsVersion(t[1..], t[0] == '\n', v);
    }
  }

  /** The text with the value of every version line cut out: what a
      reader sees when ignoring the values. */
  function Skeleton(t: string, ls: bool): string
    decreases |t|
  {
    if t == [] then []
    else
      match VersionLineAt(t, ls)
      case Some(m) => t[..m.valueStart] + [t[m.close]] + Skeleton(t[m.close + 1..], false)
      case None => [t[0]] + Skeleton(t[1..], t[0] == '\n')
  }

  lemma SkeletonOfLine(t: string, ls: bool)
    requires VersionLineAt(t, ls).Some?
    ensures Skeleton(t, ls) == t[..VersionLineAt(t, ls).value.valueStart] + [t[VersionLineAt(t, ls).value.close]] +
      Skeleton(t[VersionLineAt(t, ls).value.close + 1..], false)
  {
  }

  lemma SkeletonOfMiss(t: string, ls: bool)
    requires t != [] && VersionLineAt(t, ls).None?
    ensures Skeleton(t, ls) == [t[0]] + Skeleton(t[1..], t[0] == '\n')
  {
  }

  lemma SkeletonAfterMiss(t: string, ls: bool, out: string, r: string)
    requires t != [] && out == [t[0]] + r && VersionLineAt(out, ls).None?
    ensures Skeleton(out, ls) == [t[0]] + Skeleton(r, t[0] == '\n')
  {
    assert out[1..] == r;
    SkeletonOfMiss(out, ls);
  }

  lemma SkeletonMatchCase(t: string, ls: bool, v: string)
    requires VersionLineAt(t, ls).Some? && '\n' !in v
    requires Skeleton(Subn(t[VersionLineAt(t, ls).value.close + 1..], false, v).text, false) ==
             Skeleton(t[VersionLineAt(t, ls).value.close + 1..], false)
    ensures Skeleton(Subn(t, ls, v).text, ls) == Skeleton(t, ls)
  {
    MatchPieces(t, ls, v);
    RewrittenLineReads(t, ls, v);
    SkeletonOfLine(Subn(t, ls, v).text, ls);
    SkeletonOfLine(t, ls);
  }

  lemma SkeletonMissCase(t: string, ls: bool, v: string)
    requires t != [] && VersionLineAt(t, ls).None?
    requires Skeleton(Subn(t[1..], t[0] == '\n', v).text, t[0] == '\n') == Skeleton(t[1..], t[0] == '\n')
    ensures Skeleton(Subn(t, ls, v).text, ls) == Skeleton(t, ls)
  {
    var out := Subn(t, ls, v).text;
    var r := Subn(t[1..], t[0] == '\n', v).text;
    assert out == [t[0]] + r;
    UnmatchedStaysUnmatched(t, ls, v);
    SkeletonAfterMiss(t, ls, out, r);
    SkeletonOfMiss(t, ls);
  }

  /** Nothing but the values changes: cutting them out of the input and
      out of the output leaves the same text. */
  lemma {:induction false} OnlyValuesChange(t: string, ls: bool, v: string)
    requires '\n' !in v
    ensures Skeleton(Subn(t, ls, v).text, ls) == Skeleton(t, ls)
    decreases |t|
  {
    if t != [] {
      match VersionLineAt(t, ls)
      case Some(m) =>
        OnlyValuesChange(t[m.close + 1..], false, v);
        SkeletonMatchCase(t, ls, v);
      case None =>
        OnlyValuesChange(t[1..], t[0] == '\n', v);
        SkeletonMissCase(t, ls, v);
    }
  }
}
