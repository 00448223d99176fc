/** The fragment of Python regular expressions that the header-version
    patterns use: literals, a greedy `\s*`, and a capturing `(\d+)`.
    `Matches` gives a pattern's meaning as a language; `MatchAt` is the
    greedy scanner that Python's backtracking matcher amounts to on these
    patterns; `Search` is `re.search`, the leftmost match. */
module Pattern {
  import opened Scan

  datatype Token =
    | Lit(text: string)  // a literal piece of text
    | Spaces             // \s*
    | Digits             // (\d+), a capturing group

  type Pat = seq<Token>

  /** A successful match: the captured groups in order, and where it ends. */
  datatype Hit = Hit(groups: seq<string>, end: nat)

  /** The result of a search: where the match starts, and the match. */
  datatype Found = Found(start: nat, hit: Hit)

  function GroupCount(p: Pat): nat {
    if p == [] then 0 else (if p[0].Digits? then 1 else 0) + GroupCount(p[1..])
  }

  lemma {:induction false} GroupCountAppend(a: Pat, b: Pat)
    ensures GroupCount(a + b) == GroupCount(a) + GroupCount(b)
  {
    if a != [] {
      assert (a + b)[0] == a[0] && (a + b)[1..] == a[1..] + b;
      GroupCountAppend(a[1..], b);
    } else {
      assert a + b == b;
    }
  }

  /** The language of `p`: `p` matches `s[i..end]`, capturing `groups`. */
  ghost predicate Matches(p: Pat, s: string, i: nat, groups: seq<string>, end: nat)
    decreases |p|
  {
    i <= end <= |s| &&
    if p == [] then groups == [] && end == i
    else match p[0]
      case Lit(l) =>
        LitAt(s, i, l) && Matches(p[1..], s, i + |l|, groups, end)
      case Spaces =>
        exists k: nat :: i <= k <= end && (forall m :: i <= m < k ==> IsSpace(s[m]))
                         && Matches(p[1..], s, k, groups, end)
      case Digits =>
        |groups| > 0 &&
        exists k: nat :: i < k <= end && groups[0] == s[i..k] && AllDigits(s[i..k])
                         && Matches(p[1..], s, k, groups[1..], end)
  }

  /** The greedy scanner: `\s*` and `\d+` take the longest run. */
  function MatchAt(p: Pat, s: string, i: nat): (r: Option<Hit>)
    requires i <= |s|
    ensures r.Some? ==> i <= r.value.end <= |s| && |r.value.groups| == GroupCount(p)
    decreases |p|
  {
    if p == [] then Some(Hit([], i))
    else match p[0]
      case Lit(l) =>
        if LitAt(s, i, l) then MatchAt(p[1..], s, i + |l|) else None
      case Spaces =>
        MatchAt(p[1..], s, SkipSpaces(s, i))
      case Digits =>
        var k := SkipDigits(s, i);
        if k == i then None
        else match MatchAt(p[1..], s, k)
          case None => None
          case Some(h) => Some(Hit([s[i..k]] + h.groups, h.end))
  }

  /** `re.search` from position `i`: the first position at which the
      scanner succeeds (Python tries every position up to `|s|`). */
  function SearchFrom(p: Pat, s: string, i: nat): (r: Option<Found>)
    requires i <= |s|
    ensures r.Some? ==> i <= r.value.start <= |s| && MatchAt(p, s, r.value.start) == Some(r.value.hit)
    ensures forall j :: i <= j <= |s| && (r.None? || j < r.value.start) ==> MatchAt(p, s, j).None?
    decreases |s| - i
  {
    match MatchAt(p, s, i)
    case Some(h) => Some(Found(i, h))
    case None => if i == |s| then None else SearchFrom(p, s, i + 1)
  }

  function Search(p: Pat, s: string): (r: Option<Found>)
    ensures r.Some? ==> r.value.start <= |s| && MatchAt(p, s, r.value.start) == Some(r.value.hit)
    ensures forall j :: 0 <= j <= |s| && (r.None? || j < r.value.start) ==> MatchAt(p, s, j).None?
  {
    SearchFrom(p, s, 0)
  }

  /** The scanner past a leading literal. */
  lemma LitStep(p: Pat, s: string, i: nat)
    requires i <= |s| && p != [] && p[0].Lit? && MatchAt(p, s, i).Some?
    ensures LitAt(s, i, p[0].text) && MatchAt(p, s, i) == MatchAt(p[1..], s, i + |p[0].text|)
  {
  }

  /** The scanner over `lit \s* lit \s* (`: the `(` it reaches, and the
      rest of the scan from just behind it. */
  predicate OpensWithParen(p: Pat) {
    |p| > 5 && p[0].Lit? && p[1] == Spaces && p[2].Lit? && p[3] == Spaces && p[4] == Lit("(")
  }

  lemma OpenParen(p: Pat, s: string, i: nat) returns (k: nat)
    requires i <= |s| && OpensWithParen(p) && MatchAt(p, s, i).Some?
    ensures i + |p[0].text| <= k && k + 1 <= |s| && s[k] == '('
    ensures MatchAt(p, s, i) == MatchAt(p[5..], s, k + 1)
  {
    var b := LitSpacesStep(p, s, i);
    assert p[2..][0] == p[2] && p[2..][1] == p[3] && p[2..][2..] == p[4..];
    k := LitSpacesStep(p[2..], s, b);
    ParenStep(p[4..], s, k);
    assert p[4..][1..] == p[5..];
  }

  /** The scanner past a leading literal and `\s*`. */
  lemma LitSpacesStep(p: Pat, s: string, i: nat) returns (k: nat)
    requires i <= |s| && |p| > 2 && p[0].Lit? && p[1] == Spaces && MatchAt(p, s, i).Some?
    ensures i + |p[0].text| <= k <= |s| && k == SkipSpaces(s, i + |p[0].text|)
    ensures MatchAt(p, s, i) == MatchAt(p[2..], s, k)
  {
    LitStep(p, s, i);
    SpacesStep(p[1..], s, i + |p[0].text|);
    assert p[1..][1..] == p[2..];
    k := SkipSpaces(s, i + |p[0].text|);
  }

  lemma ParenStep(p: Pat, s: string, k: nat)
    requires k <= |s| && p != [] && p[0] == Lit("(") && MatchAt(p, s, k).Some?
    ensures k + 1 <= |s| && s[k] == '(' && MatchAt(p, s, k) == MatchAt(p[1..], s, k + 1)
  {
    LitStep(p, s, k);
    assert s[k] == s[k..k + 1][0];
  }

  /** The scanner past a leading `\s*`. */
  lemma SpacesStep(p: Pat, s: string, i: nat)
    requires i <= |s| && p != [] && p[0] == Spaces
    ensures MatchAt(p, s, i) == MatchAt(p[1..], s, SkipSpaces(s, i))
  {
  }

  /** `i` is the leftmost position at which `p` matches, with that match. */
  ghost predicate IsLeftmost(p: Pat, s: string, i: nat, groups: seq<string>, end: nat) {
    Matches(p, s, i, groups, end) &&
    forall j: nat, g: seq<string>, e: nat :: j < i ==> !Matches(p, s, j, g, e)
  }

  /** Greedy matching is exact when every `\s*` is followed by something
      that cannot begin with white space and every `\d+` by a literal that
      does not begin with a digit: then no backtracking can succeed where
      the longest run failed. */
  predicate Deterministic(p: Pat)
    decreases |p|
  {
    p == [] ||
    ((match p[0]
      case Lit(_) => true
      case Spaces =>
        |p| > 1 && (p[1].Digits? || (p[1].Lit? && |p[1].text| > 0 && !IsSpace(p[1].text[0])))
      case Digits =>
        |p| > 1 && p[1].Lit? && |p[1].text| > 0 && !IsDigit(p[1].text[0]))
     && Deterministic(p[1..]))
  }

  /** What `Deterministic` asks of a token `t` placed before `rest`. */
  predicate FollowOk(t: Token, rest: Pat) {
    match t
    case Lit(_) => true
    case Spaces => |rest| > 0 && (rest[0].Digits? || (rest[0].Lit? && |rest[0].text| > 0 && !IsSpace(rest[0].text[0])))
    case Digits => |rest| > 0 && rest[0].Lit? && |rest[0].text| > 0 && !IsDigit(rest[0].text[0])
  }

  lemma DeterministicCons(t: Token, rest: Pat)
    requires FollowOk(t, rest) && Deterministic(rest)
    ensures Deterministic([t] + rest)
  {
    assert ([t] + rest)[1..] == rest;
  }

  lemma LitsSafeCons(t: Token, rest: Pat, c0: char, c1: char)
    requires (t.Lit? ==> SafeLit(t.text, c0, c1)) && LitsSafe(rest, c0, c1)
    ensures LitsSafe([t] + rest, c0, c1)
  {
    assert ([t] + rest)[1..] == rest;
  }

  lemma LitHead(q: Pat, s: string, k: nat, g: seq<string>, e: nat)
    requires q != [] && q[0].Lit? && |q[0].text| > 0 && Matches(q, s, k, g, e)
    ensures k < e && s[k] == q[0].text[0]
  {
    var l := q[0].text;
    assert s[k..k + |l|][0] == s[k];
  }

  lemma DigitsHead(q: Pat, s: string, k: nat, g: seq<string>, e: nat)
    requires q != [] && q[0] == Digits && Matches(q, s, k, g, e)
    ensures k < e && IsDigit(s[k])
  {
    var k' :| k < k' <= e && AllDigits(s[k..k']) && Matches(q[1..], s, k', g[1..], e);
    assert s[k..k'][0] == s[k];
  }

  /** Whatever the scanner finds is a match of the language. */
  lemma {:induction false} MatchSound(p: Pat, s: string, i: nat)
    requires i <= |s| && MatchAt(p, s, i).Some?
    ensures Matches(p, s, i, MatchAt(p, s, i).value.groups, MatchAt(p, s, i).value.end)
    decreases |p|, 1
  {
    if p != [] {
      match p[0]
      case Lit(l) =>
        MatchSound(p[1..], s, i + |l|);
      case Spaces =>
        MatchSound(p[1..], s, SkipSpaces(s, i));
      case Digits =>
        DigitsSound(p, s, i);
    }
  }

  lemma {:induction false} DigitsSound(p: Pat, s: string, i: nat)
    requires p != [] && p[0] == Digits && i <= |s| && MatchAt(p, s, i).Some?
    ensures Matches(p, s, i, MatchAt(p, s, i).value.groups, MatchAt(p, s, i).value.end)
    decreases |p|, 0
  {
    var k := SkipDigits(s, i);
    MatchSound(p[1..], s, k);
    var h := MatchAt(p[1..], s, k).value;
    assert ([s[i..k]] + h.groups)[1..] == h.groups;
    assert AllDigits(s[i..k]) by {
      forall m | 0 <= m < k - i ensures IsDigit(s[i..k][m]) {
        assert s[i..k][m] == s[i + m];
      }
    }
  }

  /** On a deterministic pattern, every match of the language is the one
      the scanner finds. */
  lemma {:induction false} MatchComplete(p: Pat, s: string, i: nat, g: seq<string>, e: nat)
    requires Deterministic(p) && Matches(p, s, i, g, e)
    ensures MatchAt(p, s, i) == Some(Hit(g, e))
    decreases |p|, 1
  {
    if p != [] {
      match p[0]
      case Lit(l) =>
        MatchComplete(p[1..], s, i + |l|, g, e);
      case Spaces =>
        SpacesComplete(p, s, i, g, e);
      case Digits =>
        DigitsComplete(p, s, i, g, e);
    }
  }

  lemma {:induction false} SpacesComplete(p: Pat, s: string, i: nat, g: seq<string>, e: nat)
    requires p != [] && p[0] == Spaces && Deterministic(p) && Matches(p, s, i, g, e)
    ensures MatchAt(p, s, i) == Some(Hit(g, e))
    decreases |p|, 0
  {
    var k: nat :| i <= k <= e && (forall m :: i <= m < k ==> IsSpace(s[m]))
                   && Matches(p[1..], s, k, g, e);
    if p[1].Digits? {
      DigitsHead(p[1..], s, k, g, e);
    } else {
      LitHead(p[1..], s, k, g, e);
    }
    SkipSpacesUnique(s, i, k);
    MatchComplete(p[1..], s, k, g, e);
  }

  lemma {:induction false} DigitsComplete(p: Pat, s: string, i: nat, g: seq<string>, e: nat)
    requires p != [] && p[0] == Digits && Deterministic(p) && Matches(p, s, i, g, e)
    ensures MatchAt(p, s, i) == Some(Hit(g, e))
    decreases |p|, 0
  {
    var k: nat :| i < k <= e && g[0] == s[i..k] && AllDigits(s[i..k])
                   && Matches(p[1..], s, k, g[1..], e);
    LitHead(p[1..], s, k, g[1..], e);
    forall m | i <= m < k ensures IsDigit(s[m]) {
      assert s[i..k][m - i] == s[m];
    }
    SkipDigitsUnique(s, i, k);
    MatchComplete(p[1..], s, k, g[1..], e);
    assert [g[0]] + g[1..] == g;
  }

  /** `Search` is the leftmost match of the language, and nothing else. */
  lemma SearchFindsLeftmost(p: Pat, s: string, i: nat, g: seq<string>, e: nat)
    requires Deterministic(p)
    ensures Search(p, s) == Some(Found(i, Hit(g, e))) <==> IsLeftmost(p, s, i, g, e)
  {
    if Search(p, s) == Some(Found(i, Hit(g, e))) {
      MatchSound(p, s, i);
      forall j: nat, g': seq<string>, e': nat | j < i ensures !Matches(p, s, j, g', e') {
        if Matches(p, s, j, g', e') {
          MatchComplete(p, s, j, g', e');
        }
      }
    }
    if IsLeftmost(p, s, i, g, e) {
      MatchComplete(p, s, i, g, e);
      var r := Search(p, s);
      if r.Some? && r.value.start < i {
        MatchSound(p, s, r.value.start);
      }
    }
  }

  /** `Search` fails exactly when the language has no match anywhere. */
  lemma SearchFailsIffNoMatch(p: Pat, s: string)
    requires Deterministic(p)
    ensures Search(p, s).None? <==> forall i: nat, g: seq<string>, e: nat :: !Matches(p, s, i, g, e)
  {
    if Search(p, s).None? {
      forall i: nat, g: seq<string>, e: nat ensures !Matches(p, s, i, g, e) {
        if Matches(p, s, i, g, e) {
          MatchComplete(p, s, i, g, e);
        }
      }
    } else {
      var Found(i, h) := Search(p, s).value;
      MatchSound(p, s, i);
      assert Matches(p, s, i, h.groups, h.end);
    }
  }

  /** A match depends only on the text it covers. */
  lemma {:induction false} MatchLocal(p: Pat, s: string, t: string, i: nat, g: seq<string>, e: nat)
    requires Matches(p, s, i, g, e) && e <= |t| && s[..e] == t[..e]
    ensures Matches(p, t, i, g, e)
    decreases |p|, 1
  {
    if p != [] {
      match p[0]
      case Lit(l) =>
        LitLocal(p, s, t, i, g, e);
      case Spaces =>
        SpacesLocal(p, s, t, i, g, e);
      case Digits =>
        DigitsLocal(p, s, t, i, g, e);
    }
  }

  lemma {:induction false} LitLocal(p: Pat, s: string, t: string, i: nat, g: seq<string>, e: nat)
    requires p != [] && p[0].Lit? && Matches(p, s, i, g, e) && e <= |t| && s[..e] == t[..e]
    ensures Matches(p, t, i, g, e)
    decreases |p|, 0
  {
    var l := p[0].text;
    assert s[..e][i..i + |l|] == s[i..i + |l|] && t[..e][i..i + |l|] == t[i..i + |l|];
    MatchLocal(p[1..], s, t, i + |l|, g, e);
  }

  lemma {:induction false} SpacesLocal(p: Pat, s: string, t: string, i: nat, g: seq<string>, e: nat)
    requires p != [] && p[0] == Spaces && Matches(p, s, i, g, e) && e <= |t| && s[..e] == t[..e]
    ensures Matches(p, t, i, g, e)
    decreases |p|, 0
  {
    var k: nat :| i <= k <= e && (forall m :: i <= m < k ==> IsSpace(s[m]))
                   && Matches(p[1..], s, k, g, e);
    MatchLocal(p[1..], s, t, k, g, e);
    forall m | i <= m < k ensures IsSpace(t[m]) {
      assert s[..e][m] == s[m] && t[..e][m] == t[m];
    }
  }

  lemma {:induction false} DigitsLocal(p: Pat, s: string, t: string, i: nat, g: seq<string>, e: nat)
    requires p != [] && p[0] == Digits && Matches(p, s, i, g, e) && e <= |t| && s[..e] == t[..e]
    ensures Matches(p, t, i, g, e)
    decreases |p|, 0
  {
    var k: nat :| i < k <= e && g[0] == s[i..k] && AllDigits(s[i..k])
                   && Matches(p[1..], s, k, g[1..], e);
    assert s[..e][i..k] == s[i..k] && t[..e][i..k] == t[i..k];
    MatchLocal(p[1..], s, t, k, g[1..], e);
  }

  /** Every group a match captures is a non-empty run of decimal digits. */
  lemma {:induction false} GroupsAreNumbers(p: Pat, s: string, i: nat, g: seq<string>, e: nat)
    requires Matches(p, s, i, g, e)
    ensures |g| == GroupCount(p)
    ensures forall x :: 0 <= x < |g| ==> |g[x]| > 0 && AllDigits(g[x])
    decreases |p|
  {
    if p != [] {
      match p[0]
      case Lit(l) =>
        GroupsAreNumbers(p[1..], s, i + |l|, g, e);
      case Spaces =>
        var k: nat :| i <= k <= e && (forall m :: i <= m < k ==> IsSpace(s[m]))
                       && Matches(p[1..], s, k, g, e);
        GroupsAreNumbers(p[1..], s, k, g, e);
      case Digits =>
        var k: nat :| i < k <= e && g[0] == s[i..k] && AllDigits(s[i..k])
                       && Matches(p[1..], s, k, g[1..], e);
        GroupsAreNumbers(p[1..], s, k, g[1..], e);
        forall x | 1 <= x < |g| ensures |g[x]| > 0 && AllDigits(g[x]) {
          assert g[x] == g[1..][x - 1];
        }
    }
  }

  /** Every occurrence of `c0` in `l` is followed, inside `l`, by a
      character other than `c1`. */
  predicate SafeLit(l: string, c0: char, c1: char) {
    forall y :: 0 <= y < |l| && l[y] == c0 ==> y + 1 < |l| && l[y + 1] != c1
  }

  predicate LitsSafe(p: Pat, c0: char, c1: char)
    decreases |p|
  {
    p == [] || ((p[0].Lit? ==> SafeLit(p[0].text, c0, c1)) && LitsSafe(p[1..], c0, c1))
  }

  lemma SafeWithout(l: string, c0: char, c1: char)
    requires c0 !in l
    ensures SafeLit(l, c0, c1)
  {
  }

  lemma SafeConcat(a: string, b: string, c0: char, c1: char)
    requires SafeLit(a, c0, c1) && SafeLit(b, c0, c1)
    ensures SafeLit(a + b, c0, c1)
  {
    forall y | 0 <= y < |a + b| && (a + b)[y] == c0 ensures y + 1 < |a + b| && (a + b)[y + 1] != c1 {
      if y < |a| { assert a[y] == c0; } else { assert b[y - |a|] == c0; }
    }
  }

  lemma SafeOpen(b: string, c0: char, c1: char)
    requires c0 !in b && |b| > 0 && b[0] != c1
    ensures SafeLit([c0] + b, c0, c1)
  {
    forall y | 0 < y < |[c0] + b| ensures ([c0] + b)[y] != c0 {
      assert ([c0] + b)[y] == b[y - 1];
    }
  }

  /** The two characters that open `p` occur together nowhere else in a
      match of `p`, so a match can never begin inside another one. */
  predicate Anchored(p: Pat) {
    |p| > 0 && p[0].Lit? && |p[0].text| >= 2 &&
    var c0, c1 := p[0].text[0], p[0].text[1];
    !IsSpace(c0) && !IsDigit(c0) && SafeLit(p[0].text[1..], c0, c1) && LitsSafe(p[1..], c0, c1)
  }

  lemma {:induction false} InnerSafe(q: Pat, s: string, a: nat, g: seq<string>, e: nat, c0: char, c1: char)
    requires Matches(q, s, a, g, e) && LitsSafe(q, c0, c1) && !IsSpace(c0) && !IsDigit(c0)
    ensures forall k :: a <= k < e && s[k] == c0 ==> k + 1 < e && s[k + 1] != c1
    decreases |q|
  {
    if q != [] {
      match q[0]
      case Lit(l) =>
        InnerSafe(q[1..], s, a + |l|, g, e, c0, c1);
        forall k | a <= k < a + |l| && s[k] == c0 ensures k + 1 < e && s[k + 1] != c1 {
          assert s[a..a + |l|][k - a] == s[k];
          assert s[a..a + |l|][k - a + 1] == s[k + 1];
        }
      case Spaces =>
        var k': nat :| a <= k' <= e && (forall m :: a <= m < k' ==> IsSpace(s[m]))
                        && Matches(q[1..], s, k', g, e);
        InnerSafe(q[1..], s, k', g, e, c0, c1);
      case Digits =>
        var k': nat :| a < k' <= e && g[0] == s[a..k'] && AllDigits(s[a..k'])
                        && Matches(q[1..], s, k', g[1..], e);
        InnerSafe(q[1..], s, k', g[1..], e, c0, c1);
        forall k | a <= k < k' ensures IsDigit(s[k]) {
          assert s[a..k'][k - a] == s[k];
        }
    }
  }

  /** Inside a match of an anchored pattern, the opening pair of
      characters occurs only at the start. */
  lemma AnchorOnlyAtStart(p: Pat, s: string, i: nat, g: seq<string>, e: nat)
    requires Anchored(p) && Matches(p, s, i, g, e)
    ensures forall k :: i < k < e && s[k] == p[0].text[0] ==> k + 1 < e && s[k + 1] != p[0].text[1]
  {
    var l := p[0].text;
    var c0, c1 := l[0], l[1];
    InnerSafe(p[1..], s, i + |l|, g, e, c0, c1);
    forall k | i < k < i + |l| && s[k] == c0 ensures k + 1 < e && s[k + 1] != c1 {
      assert s[i..i + |l|][k - i] == s[k] == l[1..][k - i - 1];
      assert s[i..i + |l|][k - i + 1] == s[k + 1];
    }
  }

  /** The text after the leftmost match never changes what `Search`
      finds: a later occurrence cannot win, and no match can start
      earlier and reach across it. */
  lemma SearchStable(p: Pat, s: string, t: string)
    requires Deterministic(p) && Anchored(p) && Search(p, s).Some?
    requires Search(p, s).value.hit.end <= |t|
    requires s[..Search(p, s).value.hit.end] == t[..Search(p, s).value.hit.end]
    ensures Search(p, t) == Search(p, s)
  {
    var Found(i, h) := Search(p, s).value;
    var l := p[0].text;
    SearchFindsLeftmost(p, s, i, h.groups, h.end);
    MatchLocal(p, s, t, i, h.groups, h.end);
    assert s[i..i + |l|][0] == s[i] && s[i..i + |l|][1] == s[i + 1];
    assert t[i] == s[i] && t[i + 1] == s[i + 1] by {
      assert s[..h.end][i] == s[i] && t[..h.end][i] == t[i];
      assert s[..h.end][i + 1] == s[i + 1] && t[..h.end][i + 1] == t[i + 1];
    }
    forall j: nat, g': seq<string>, e': nat | j < i ensures !Matches(p, t, j, g', e') {
      if Matches(p, t, j, g', e') {
        if e' <= h.end {
          assert t[..e'] == s[..e'] by {
            assert t[..e'] == t[..h.end][..e'] && s[..e'] == s[..h.end][..e'];
          }
          MatchLocal(p, t, s, j, g', e');
        } else {
          AnchorOnlyAtStart(p, t, j, g', e');
        }
      }
    }
    SearchFindsLeftmost(p, t, i, h.groups, h.end);
  }

  /** Appending text after the first match leaves the search result alone. */
  lemma AppendStable(p: Pat, a: string, b: string)
    requires Deterministic(p) && Anchored(p) && Search(p, a).Some?
    ensures Search(p, a + b) == Search(p, a)
  {
    var e := Search(p, a).value.hit.end;
    assert (a + b)[..e] == a[..e];
    SearchStable(p, a, a + b);
  }

  /** What a successful search reports is the leftmost match, and its
      groups are non-empty digit strings. */
  lemma SearchReportsLeftmost(p: Pat, s: string)
    requires Deterministic(p) && Search(p, s).Some?
    ensures IsLeftmost(p, s, Search(p, s).value.start, Search(p, s).value.hit.groups, Search(p, s).value.hit.end)
    ensures |Search(p, s).value.hit.groups| == GroupCount(p)
    ensures forall x :: 0 <= x < |Search(p, s).value.hit.groups| ==>
      |Search(p, s).value.hit.groups[x]| > 0 && AllDigits(Search(p, s).value.hit.groups[x])
  {
    var Found(i, h) := Search(p, s).value;
    SearchFindsLeftmost(p, s, i, h.groups, h.end);
    GroupsAreNumbers(p, s, i, h.groups, h.end);
  }

  /** `groups` are the groups of the leftmost match of `p` in `s`. */
  ghost predicate LeftmostGroups(p: Pat, s: string, groups: seq<string>) {
    exists i: nat, e: nat :: IsLeftmost(p, s, i, groups, e)
  }

  /** The groups a successful search reports, named. */
  lemma SearchGroups(p: Pat, s: string) returns (groups: seq<string>)
    requires Deterministic(p) && Search(p, s).Some?
    ensures groups == Search(p, s).value.hit.groups && LeftmostGroups(p, s, groups)
    ensures |groups| == GroupCount(p)
    ensures forall x :: 0 <= x < |groups| ==> |groups[x]| > 0 && AllDigits(groups[x])
  {
    SearchReportsLeftmost(p, s);
    groups := Search(p, s).value.hit.groups;
  }

  /** The same for a pattern with two groups. */
  lemma SearchTwoGroups(p: Pat, s: string) returns (a: string, b: string)
    requires Deterministic(p) && GroupCount(p) == 2 && Search(p, s).Some?
    ensures Search(p, s).value.hit.groups == [a, b] && LeftmostGroups(p, s, [a, b])
    ensures |a| > 0 && AllDigits(a) && |b| > 0 && AllDigits(b)
  {
    var g := SearchGroups(p, s);
    a, b := g[0], g[1];
    assert g == [a, b];
  }
}
