/** The pattern and substitution in `fix_relative_imports`: in every
    line of the form `\s*from\s+<module>` where `<module>` is one of the
    package's own modules followed by a word boundary, a `.` is inserted
    before the module name.

    The regular expression is `^(\s*from\s+)(<m1>|<m2>|...)\b` under
    MULTILINE, replaced by `\g<1>.\g<2>`. */
module RelativeImports {
  import opened Scan

  /** The modules of the package, in the order of the alternation. */
  const KnownModules: seq<string> :=
    ["apiconventions", "base_generator", "cgenerator", "generator", "reg",
     "stripAPI", "vkconventions", "vulkan_object", "parse_dependency", "spec_tools"]

  const From := "from"

  /** `\b` at position `e`: exactly one of the characters around it is a
      word character (the ends of the text count as non-word). */
  predicate Boundary(t: string, e: nat)
    requires e <= |t|
  {
    (e > 0 && IsWordChar(t[e - 1])) != (e < |t| && IsWordChar(t[e]))
  }

  /** The first alternative of `mods` that matches at `j`, followed by a
      word boundary; Python's alternation tries them in order and moves on
      when `\b` fails. */
  function ModuleAt(t: string, j: nat, mods: seq<string>): (r: Option<string>)
    ensures r.Some? ==> r.value in mods && LitAt(t, j, r.value) && Boundary(t, j + |r.value|)
    ensures r.None? ==> forall m :: m in mods && LitAt(t, j, m) ==> !Boundary(t, j + |m|)
  {
    if mods == [] then None
    else if LitAt(t, j, mods[0]) && Boundary(t, j + |mods[0]|) then Some(mods[0])
    else ModuleAt(t, j, mods[1..])
  }

  /** A successful match at position 0: the module name occupies
      `[moduleStart, end)`; the dot goes in at `moduleStart`. */
  datatype ImportSite = ImportSite(moduleStart: nat, end: nat)

  /** The regular expression tried at the start of `t`; `ls` says whether
      that position starts a line. */
  function ImportAt(t: string, ls: bool, mods: seq<string>): (r: Option<ImportSite>)
    ensures r.Some? ==> ls && |From| + 1 <= r.value.moduleStart <= r.value.end <= |t|
    ensures r.Some? ==> IsSpace(t[r.value.moduleStart - 1])
  {
    if !ls then None else FromAt(t, SkipSpaces(t, 0), mods)
  }

  /** `from\s+` and a module, after the leading white space. */
  function FromAt(t: string, i: nat, mods: seq<string>): (r: Option<ImportSite>)
    requires i <= |t|
    ensures r.Some? ==> i + |From| + 1 <= r.value.moduleStart <= r.value.end <= |t|
    ensures r.Some? ==> IsSpace(t[r.value.moduleStart - 1])
    ensures r.Some? ==> LitAt(t, i, From) && forall k :: i + |From| <= k < r.value.moduleStart ==> IsSpace(t[k])
    ensures r.Some? ==> ModuleAt(t, r.value.moduleStart, mods) == Some(t[r.value.moduleStart..r.value.end])
  {
    if !LitAt(t, i, From) then None
    else
      var j := SkipSpaces(t, i + |From|);
      if j == i + |From| then None
      else
        match ModuleAt(t, j, mods)
        case None => None
        case Some(m) => Some(ImportSite(j, j + |m|))
  }

  /** One `re.subn` pass over `t`, `ls` telling whether `t` starts a
      line. After a match the scan resumes behind the module name, as
      not at a line start: this is `re.subn` for module names without a
      line feed (ModuleNames), which is all the package's. */
  function Fix(t: string, ls: bool, mods: seq<string>): (r: Substituted)
    ensures |r.text| == |t| + r.count
    ensures r.count == 0 ==> r.text == t
    decreases |t|
  {
    if t == [] then Substituted([], 0)
    else
      match ImportAt(t, ls, mods)
      case Some(s) =>
        var rest := Fix(t[s.end..], false, mods);
        Substituted(t[..s.moduleStart] + "." + t[s.moduleStart..s.end] + rest.text, rest.count + 1)
      case None =>
        var rest := Fix(t[1..], t[0] == '\n', mods);
        Substituted([t[0]] + rest.text, rest.count)
  }

  /** The substitution over a whole file with the package's modules:
      the file with one dot inserted at each of its import sites. */
  function FixAll(content: string): (r: Substituted)
    ensures r.text == InsertDots(content, DotSites(content, true, KnownModules))
    ensures r.count == |DotSites(content, true, KnownModules)|
  {
    FixInsertsDots(content, true, KnownModules);
    Fix(content, true, KnownModules)
  }

  /** A module name: non-empty, made of word characters, and not
      starting with `f` (so it can never be read as the start of `from`). */
  predicate ModuleName(m: string) {
    |m| > 0 && m[0] != 'f' && forall k :: 0 <= k < |m| ==> IsWordChar(m[k])
  }

  predicate ModuleNames(mods: seq<string>) {
    forall m :: m in mods ==> ModuleName(m)
  }

  lemma KnownModulesAreNames()
    ensures ModuleNames(KnownModules)
  {
    FirstNames();
    LastNames();
  }

  lemma FirstNames()
    ensures ModuleName("apiconventions") && ModuleName("base_generator") && ModuleName("cgenerator")
    ensures ModuleName("generator") && ModuleName("reg")
  {
    assert ModuleName("apiconventions") && ModuleName("base_generator");
    assert ModuleName("cgenerator") && ModuleName("generator");
  }

  lemma LastNames()
    ensures ModuleName("stripAPI") && ModuleName("vkconventions") && ModuleName("vulkan_object")
    ensures ModuleName("parse_dependency") && ModuleName("spec_tools")
  {
    assert ModuleName("stripAPI") && ModuleName("vkconventions");
    assert ModuleName("vulkan_object") && ModuleName("parse_dependency");
  }

  /** Two module names that both match at `j` followed by a word boundary
      are the same: a shorter one would end inside the longer one, where
      there is no boundary. */
  lemma BoundedMatchUnique(t: string, j: nat, m1: string, m2: string)
    requires ModuleName(m1) && ModuleName(m2)
    requires LitAt(t, j, m1) && Boundary(t, j + |m1|)
    requires LitAt(t, j, m2) && Boundary(t, j + |m2|)
    ensures m1 == m2
  {
    if |m1| < |m2| {
      ShorterHasNoBoundary(t, j, m1, m2);
    } else if |m2| < |m1| {
      ShorterHasNoBoundary(t, j, m2, m1);
    }
  }

  lemma ShorterHasNoBoundary(t: string, j: nat, a: string, b: string)
    requires ModuleName(a) && ModuleName(b) && |a| < |b|
    requires LitAt(t, j, a) && LitAt(t, j, b)
    ensures !Boundary(t, j + |a|)
  {
    assert t[j + |a|] == t[j..j + |b|][|a|] == b[|a|];
    assert t[j + |a| - 1] == t[j..j + |a|][|a| - 1] == a[|a| - 1];
  }

  /** The alternation picks a module exactly when that module, followed
      by a word boundary, is at `j`; so the order of the alternatives does
      not matter. */
  lemma {:induction false} ModuleAtIff(t: string, j: nat, mods: seq<string>, m: string)
    requires ModuleNames(mods)
    ensures ModuleAt(t, j, mods) == Some(m) <==> m in mods && LitAt(t, j, m) && Boundary(t, j + |m|)
  {
    if m in mods && LitAt(t, j, m) && Boundary(t, j + |m|) {
      if LitAt(t, j, mods[0]) && Boundary(t, j + |mods[0]|) {
        BoundedMatchUnique(t, j, m, mods[0]);
      } else {
        assert m in mods[1..];
        ModuleAtIff(t, j, mods[1..], m);
      }
    }
  }

  /** The same match described without any scanning: white space from
      the line start, `from`, at least one white space character, then a
      module of `mods` at `j` ending at `e` on a word boundary. */
  ghost predicate IsImportSite(t: string, ls: bool, mods: seq<string>, j: nat, e: nat) {
    ls && j <= e <= |t| &&
    (exists i: nat :: LeadInAt(t, i, j)) &&
    (exists m :: m in mods && ModuleEndsAt(t, j, m, e))
  }

  /** `\s*from\s+` covers `t[..j]`, with `from` at `i`. */
  predicate LeadInAt(t: string, i: nat, j: nat) {
    i + |From| < j <= |t| &&
    (forall k :: 0 <= k < i ==> IsSpace(t[k])) && LitAt(t, i, From) &&
    (forall k :: i + |From| <= k < j ==> IsSpace(t[k]))
  }

  /** The module `m` is at `j`, ends at `e`, and a word boundary follows. */
  predicate ModuleEndsAt(t: string, j: nat, m: string, e: nat) {
    LitAt(t, j, m) && e == j + |m| && Boundary(t, e)
  }

  /** The scanner finds exactly the matches the regular expression
      describes. */
  lemma ImportAtIff(t: string, ls: bool, mods: seq<string>, j: nat, e: nat)
    requires ModuleNames(mods)
    ensures ImportAt(t, ls, mods) == Some(ImportSite(j, e)) <==> IsImportSite(t, ls, mods, j, e)
  {
    if ImportAt(t, ls, mods) == Some(ImportSite(j, e)) {
      ImportAtSound(t, ls, mods, j, e);
    }
    if IsImportSite(t, ls, mods, j, e) {
      ImportAtComplete(t, ls, mods, j, e);
    }
  }

  lemma ImportAtSound(t: string, ls: bool, mods: seq<string>, j: nat, e: nat)
    requires ImportAt(t, ls, mods) == Some(ImportSite(j, e))
    ensures IsImportSite(t, ls, mods, j, e)
  {
    var i := SkipSpaces(t, 0);
    assert j == SkipSpaces(t, i + |From|);
    assert LeadInAt(t, i, j);
    var m := ModuleAt(t, j, mods).value;
    assert m in mods && ModuleEndsAt(t, j, m, e);
  }

  lemma ImportAtComplete(t: string, ls: bool, mods: seq<string>, j: nat, e: nat)
    requires ModuleNames(mods) && IsImportSite(t, ls, mods, j, e)
    ensures ImportAt(t, ls, mods) == Some(ImportSite(j, e))
  {
    var i: nat :| LeadInAt(t, i, j);
    var m :| m in mods && ModuleEndsAt(t, j, m, e);
    assert ModuleName(m);
    ModuleAtIff(t, j, mods, m);
    LeadInFrom(t, i, j, mods, m);
  }

  lemma LeadInFrom(t: string, i: nat, j: nat, mods: seq<string>, m: string)
    requires LeadInAt(t, i, j) && ModuleName(m) && LitAt(t, j, m) && ModuleAt(t, j, mods) == Some(m)
    ensures ImportAt(t, true, mods) == Some(ImportSite(j, j + |m|))
  {
    LeadIn(t, i, j, m);
    FromAtIs(t, i, mods, j, m);
  }

  /** The white space runs before and after `from` end where the
      declarative match says. */
  lemma LeadIn(t: string, i: nat, j: nat, m: string)
    requires i + |From| < j && LitAt(t, i, From) && LitAt(t, j, m) && ModuleName(m)
    requires forall k :: 0 <= k < i ==> IsSpace(t[k])
    requires forall k :: i + |From| <= k < j ==> IsSpace(t[k])
    ensures SkipSpaces(t, 0) == i && SkipSpaces(t, i + |From|) == j
  {
    assert t[i] == t[i..i + |From|][0] == 'f';
    SkipSpacesUnique(t, 0, i);
    assert t[j] == t[j..j + |m|][0] == m[0];
    SkipSpacesUnique(t, i + |From|, j);
  }

  lemma FromAtIs(t: string, i: nat, mods: seq<string>, j: nat, m: string)
    requires i <= |t| && LitAt(t, i, From) && i + |From| < j && SkipSpaces(t, i + |From|) == j
    requires ModuleAt(t, j, mods) == Some(m)
    ensures FromAt(t, i, mods) == Some(ImportSite(j, j + |m|))
  {
  }

  /** Whether position `k` of `u` starts a line, `f` telling it for 0. */
  function Flag(u: string, f: bool, k: nat): bool
    requires k <= |u|
  {
    if k == 0 then f else u[k - 1] == '\n'
  }

  /** `out` copies `u` before position `d`, where `u` has white space just
      before and `out` has an inserted dot. */
  predicate DotAfterCopy(out: string, u: string, d: nat) {
    1 <= d <= |u| && d < |out| && out[..d] == u[..d] && IsSpace(u[d - 1]) && out[d] == '.'
  }

  /** Up to its first inserted dot the output of a pass is a copy of its
      input; without one it is the input itself. */
  lemma {:induction false} FixHead(u: string, f: bool, mods: seq<string>)
    ensures Fix(u, f, mods).text == u || exists d: nat :: DotAfterCopy(Fix(u, f, mods).text, u, d)
    decreases |u|
  {
    if u != [] {
      var out := Fix(u, f, mods).text;
      match ImportAt(u, f, mods)
      case Some(s) =>
        var r := Fix(u[s.end..], false, mods).text;
        assert out == u[..s.moduleStart] + "." + u[s.moduleStart..s.end] + r;
        assert out[..s.moduleStart] == u[..s.moduleStart];
        assert DotAfterCopy(out, u, s.moduleStart);
      case None =>
        var r := Fix(u[1..], u[0] == '\n', mods).text;
        assert out == [u[0]] + r;
        FixHead(u[1..], u[0] == '\n', mods);
        if r != u[1..] {
          var d: nat :| DotAfterCopy(r, u[1..], d);
          DotShift(out, r, u, d);
        }
    }
  }

  lemma DotShift(out: string, r: string, u: string, d: nat)
    requires u != [] && out == [u[0]] + r && DotAfterCopy(r, u[1..], d)
    ensures DotAfterCopy(out, u, d + 1)
  {
    assert out[..d + 1] == [u[0]] + r[..d];
    assert u[..d + 1] == [u[0]] + u[1..][..d];
  }

  /** A module name cannot match where a white space character lies
      within its reach, so the alternation behaves the same on two texts
      that agree up to that character. */
  lemma ModuleAtLocal(x: string, y: string, j: nat, mods: seq<string>, n: nat)
    requires ModuleNames(mods)
    requires j < n <= |x| && n <= |y| && x[..n] == y[..n] && IsSpace(x[n - 1])
    ensures ModuleAt(x, j, mods) == ModuleAt(y, j, mods)
  {
    forall m | m in mods
      ensures (LitAt(x, j, m) && Boundary(x, j + |m|)) == (LitAt(y, j, m) && Boundary(y, j + |m|))
    {
      AlternativeLocal(x, y, j, m, n);
    }
    ModuleAtSame(x, y, j, mods);
  }

  /** The alternation only depends on which alternatives match. */
  lemma {:induction false} ModuleAtSame(x: string, y: string, j: nat, mods: seq<string>)
    requires forall m :: m in mods ==>
      (LitAt(x, j, m) && Boundary(x, j + |m|)) == (LitAt(y, j, m) && Boundary(y, j + |m|))
    ensures ModuleAt(x, j, mods) == ModuleAt(y, j, mods)
  {
    if mods != [] {
      assert mods[0] in mods;
      ModuleAtSame(x, y, j, mods[1..]);
    }
  }

  lemma AlternativeLocal(x: string, y: string, j: nat, m: string, n: nat)
    requires ModuleName(m)
    requires j < n <= |x| && n <= |y| && x[..n] == y[..n] && IsSpace(x[n - 1])
    ensures (LitAt(x, j, m) && Boundary(x, j + |m|)) == (LitAt(y, j, m) && Boundary(y, j + |m|))
  {
    assert x[n - 1] == x[..n][n - 1] == y[n - 1];
    if j + |m| < n {
      assert x[..n][j..j + |m|] == x[j..j + |m|];
      assert y[..n][j..j + |m|] == y[j..j + |m|];
      var e := j + |m|;
      assert x[..n][e] == x[e] && y[..n][e] == y[e];
      if e > 0 { assert x[..n][e - 1] == x[e - 1] && y[..n][e - 1] == y[e - 1]; }
    }
  }

  /** A text with no module at a dot. */
  lemma NoModuleAtDot(t: string, j: nat, mods: seq<string>)
    requires ModuleNames(mods) && j < |t| && t[j] == '.'
    ensures ModuleAt(t, j, mods).None?
  {
  }

  /** A failed attempt at the start of `x` still fails in a text `y`
      that agrees with `x` up to a dot inserted after white space. */
  lemma ImportAtLocal(x: string, y: string, ls: bool, mods: seq<string>, d: nat)
    requires ModuleNames(mods) && ImportAt(x, ls, mods).None?
    requires 1 <= d <= |x| && d < |y| && x[..d] == y[..d] && IsSpace(x[d - 1]) && y[d] == '.'
    ensures ImportAt(y, ls, mods).None?
  {
    forall k | 0 <= k < d ensures x[k] == y[k] {
      assert x[..d][k] == x[k] && y[..d][k] == y[k];
    }
    if ls {
      var i := SkipSpaces(y, 0);
      if i < d {
        SkipSpacesPrefix(y, x, 0, d);
        FromAtLocal(x, y, i, mods, d);
      } else {
        assert !LitAt(y, i, From);
      }
    }
  }

  lemma FromAtLocal(x: string, y: string, i: nat, mods: seq<string>, d: nat)
    requires ModuleNames(mods) && i < d <= |x| && FromAt(x, i, mods).None?
    requires 1 <= d <= |x| && d < |y| && x[..d] == y[..d] && IsSpace(x[d - 1]) && y[d] == '.'
    requires forall k :: 0 <= k < d ==> x[k] == y[k]
    ensures FromAt(y, i, mods).None?
  {
    if LitAt(y, i, From) {
      FromEndsBeforeDot(x, y, i, d);
      FromAfterLocal(x, y, i, mods, d);
    }
  }

  /** The `from` in the prefix cannot run into the dot. */
  lemma FromEndsBeforeDot(x: string, y: string, i: nat, d: nat)
    requires LitAt(y, i, From) && i < d <= |x| && d < |y| && IsSpace(x[d - 1]) && y[d] == '.'
    requires forall k :: 0 <= k < d ==> x[k] == y[k]
    ensures i + |From| < d
  {
    var f := y[i..i + |From|];
    assert f == From;
    if i + |From| >= d {
      assert false;
    }
  }

  lemma FromAfterLocal(x: string, y: string, i: nat, mods: seq<string>, d: nat)
    requires ModuleNames(mods) && i + |From| < d <= |x| && FromAt(x, i, mods).None? && LitAt(y, i, From)
    requires d < |y| && x[..d] == y[..d] && IsSpace(x[d - 1]) && y[d] == '.'
    requires forall k :: 0 <= k < d ==> x[k] == y[k]
    ensures FromAt(y, i, mods).None?
  {
    assert x[i..i + |From|] == y[i..i + |From|];
    var j := SkipSpaces(y, i + |From|);
    if j < d {
      SkipSpacesPrefix(y, x, i + |From|, d);
      if j > i + |From| {
        ModuleAtLocal(x, y, j, mods, d);
      }
    } else {
      NoModuleAtDot(y, j, mods);
    }
  }

  /** No match is attempted successfully at any position before `n`. */
  predicate NoImportBefore(u: string, f: bool, mods: seq<string>, n: nat)
    requires n <= |u|
  {
    forall k :: 0 <= k < n ==> AttemptFails(u, f, mods, k)
  }

  /** The attempt at position `k` of `u` fails. */
  predicate AttemptFails(u: string, f: bool, mods: seq<string>, k: nat)
    requires k <= |u|
  {
    ImportAt(u[k..], Flag(u, f, k), mods).None?
  }

  /** Where no match starts before `n`, the pass copies `u[..n]` and
      carries on from `n`. */
  lemma {:induction false} FixSkip(u: string, f: bool, mods: seq<string>, n: nat)
    requires n <= |u| && NoImportBefore(u, f, mods, n)
    ensures Fix(u, f, mods).text == u[..n] + Fix(u[n..], Flag(u, f, n), mods).text
    ensures Fix(u, f, mods).count == Fix(u[n..], Flag(u, f, n), mods).count
  {
    if n > 0 {
      NoImportAtStart(u, f, mods, n);
      FixMiss(u, f, mods);
      NoImportShift(u, f, mods, n);
      FixSkip(u[1..], u[0] == '\n', mods, n - 1);
      SkipIndices(u, f, n);
    }
  }

  lemma NoImportAtStart(u: string, f: bool, mods: seq<string>, n: nat)
    requires 0 < n <= |u| && NoImportBefore(u, f, mods, n)
    ensures ImportAt(u, f, mods).None?
  {
    assert AttemptFails(u, f, mods, 0);
    assert u[0..] == u;
  }

  lemma SkipIndices(u: string, f: bool, n: nat)
    requires 0 < n <= |u|
    ensures u[1..][n - 1..] == u[n..] && u[..n] == [u[0]] + u[1..][..n - 1]
    ensures Flag(u[1..], u[0] == '\n', n - 1) == Flag(u, f, n)
  {
  }

  lemma NoImportShift(u: string, f: bool, mods: seq<string>, n: nat)
    requires 0 < n <= |u| && NoImportBefore(u, f, mods, n)
    ensures NoImportBefore(u[1..], u[0] == '\n', mods, n - 1)
  {
    var v := u[1..];
    var g := u[0] == '\n';
    forall k | 0 <= k < n - 1
      ensures AttemptFails(v, g, mods, k)
    {
      assert AttemptFails(u, f, mods, k + 1);
      assert v[k..] == u[k + 1..];
    }
  }

  /** A pass over a text that does not start with a match copies its
      first character. */
  lemma FixMiss(u: string, f: bool, mods: seq<string>)
    requires u != [] && ImportAt(u, f, mods).None?
    ensures Fix(u, f, mods).text == [u[0]] + Fix(u[1..], u[0] == '\n', mods).text
    ensures Fix(u, f, mods).count == Fix(u[1..], u[0] == '\n', mods).count
  {
  }

  /** A text made of white space, `from`, white space and a dot is not an
      import of a module. */
  lemma StopsAtDot(w: string, mods: seq<string>, i: nat, d: nat)
    requires ModuleNames(mods) && i + |From| <= d < |w|
    requires forall q :: 0 <= q < i ==> IsSpace(w[q])
    requires LitAt(w, i, From) && w[d] == '.'
    requires forall q :: i + |From| <= q < d ==> IsSpace(w[q])
    ensures ImportAt(w, true, mods).None?
  {
    assert w[i] == w[i..i + |From|][0];
    SkipSpacesUnique(w, 0, i);
    SkipSpacesUnique(w, i + |From|, d);
    NoModuleAtDot(w, d, mods);
  }

  /** Nor is a text made of white space and a dot. */
  lemma DotAfterSpaces(w: string, mods: seq<string>, d: nat)
    requires d < |w| && w[d] == '.'
    requires forall q :: 0 <= q < d ==> IsSpace(w[q])
    ensures ImportAt(w, true, mods).None?
  {
    SkipSpacesUnique(w, 0, d);
    FromStartsWithF(w, d);
  }

  lemma FromStartsWithF(w: string, d: nat)
    ensures LitAt(w, d, From) ==> w[d] == 'f'
  {
    if LitAt(w, d, From) {
      assert w[d..d + |From|][0] == w[d];
    }
  }

  lemma FromHasNoLineFeed(t: string, i: nat)
    requires LitAt(t, i, From)
    ensures forall x :: i <= x < i + |From| ==> t[x] != '\n'
  {
    forall x | i <= x < i + |From| ensures t[x] != '\n' {
      assert t[x] == t[i..i + |From|][x - i];
    }
  }

  /** In a rewritten line `\s*from\s+.<module>` no match starts anywhere
      up to the end of the module: every line start inside it is followed
      by white space and then either `from` and a dot, or a dot. */
  lemma SiteNotRematched(out: string, ls: bool, mods: seq<string>, i: nat, d: nat, e: nat)
    requires ModuleNames(mods) && i + |From| < d < e <= |out|
    requires forall k :: 0 <= k < i ==> IsSpace(out[k])
    requires LitAt(out, i, From) && out[d] == '.'
    requires forall k :: i + |From| <= k < d ==> IsSpace(out[k])
    requires forall k :: d < k < e ==> IsWordChar(out[k])
    ensures NoImportBefore(out, ls, mods, e)
  {
    FromHasNoLineFeed(out, i);
    forall k | 0 <= k < e ensures AttemptFails(out, ls, mods, k) {
      var w := out[k..];
      if Flag(out, ls, k) {
        if k <= i {
          StopsAtDot(w, mods, i - k, d - k);
        } else {
          assert out[k - 1] == '\n';
          DotAfterSpaces(w, mods, d - k);
        }
      }
    }
  }

  /** The shape of a rewritten import: behind it the scan resumes after
      a module character, and no match starts anywhere inside it. */
  lemma RewrittenSite(t: string, ls: bool, mods: seq<string>, j: nat, e: nat, r: string, out: string)
    requires ModuleNames(mods) && ImportAt(t, ls, mods) == Some(ImportSite(j, e))
    requires out == t[..j] + "." + t[j..e] + r
    ensures e + 1 <= |out| && out[e + 1..] == r && out[e] != '\n'
    ensures NoImportBefore(out, ls, mods, e + 1)
  {
    var i := SkipSpaces(t, 0);
    assert FromAt(t, i, mods) == Some(ImportSite(j, e));
    var m := ModuleAt(t, j, mods).value;
    assert ModuleName(m) && e == j + |m| && LitAt(t, j, m);
    assert |out| == e + 1 + |r|;
    forall k | 0 <= k < j ensures out[k] == t[k] {
      assert out[k] == t[..j][k];
    }
    forall k | j < k < e + 1 ensures IsWordChar(out[k]) {
      assert out[k] == t[j..e][k - 1 - j] == m[k - 1 - j];
    }
    assert out[j] == '.';
    assert out[i..i + |From|] == t[i..i + |From|];
    SiteNotRematched(out, ls, mods, i, j, e + 1);
    assert out[e + 1..] == r;
  }

  /** A second pass finds nothing to rewrite: `fix_relative_imports` can
      be run again on its own output without changing it. */
  lemma {:induction false} FixIdempotent(t: string, ls: bool, mods: seq<string>)
    requires ModuleNames(mods)
    ensures Fix(Fix(t, ls, mods).text, ls, mods).count == 0
    decreases |t|
  {
    if t != [] {
      var out := Fix(t, ls, mods).text;
      match ImportAt(t, ls, mods)
      case Some(s) =>
        var r := Fix(t[s.end..], false, mods).text;
        assert out == t[..s.moduleStart] + "." + t[s.moduleStart..s.end] + r;
        RewrittenSite(t, ls, mods, s.moduleStart, s.end, r, out);
        FixSkip(out, ls, mods, s.end + 1);
        FixIdempotent(t[s.end..], false, mods);
      case None =>
        var g := t[0] == '\n';
        var r := Fix(t[1..], g, mods).text;
        assert out == [t[0]] + r;
        FixHead(t, ls, mods);
        if out != t {
          var d: nat :| DotAfterCopy(out, t, d);
          ImportAtLocal(t, out, ls, mods, d);
        }
        assert out[1..] == r;
        FixMiss(out, ls, mods);
        FixIdempotent(t[1..], g, mods);
    }
  }

  function Shift(ps: seq<nat>, d: nat): (r: seq<nat>)
    ensures |r| == |ps| && forall k :: 0 <= k < |ps| ==> r[k] == ps[k] + d
  {
    seq(|ps|, k requires 0 <= k < |ps| => ps[k] + d)
  }

  /** Positions relative to `d` (those before `d` become 0). */
  function Unshift(ps: seq<nat>, d: nat): (r: seq<nat>)
    ensures |r| == |ps| && forall k :: 0 <= k < |ps| ==> r[k] == if ps[k] >= d then ps[k] - d else 0
  {
    seq(|ps|, k requires 0 <= k < |ps| => if ps[k] >= d then ps[k] - d else 0)
  }

  /** `t` with a dot inserted before each of the positions `ps`, taken
      in order (a position past the end counts as the end). */
  function InsertDots(t: string, ps: seq<nat>): (r: string)
    ensures |r| == |t| + |ps|
    decreases |ps|
  {
    if ps == [] then t
    else
      var p := if ps[0] <= |t| then ps[0] else |t|;
      t[..p] + "." + InsertDots(t[p..], Unshift(ps[1..], p))
  }

  /** The positions of `t` where a pass inserts its dots. */
  function DotSites(t: string, ls: bool, mods: seq<string>): (ps: seq<nat>)
    ensures forall k :: 0 <= k < |ps| ==> ps[k] <= |t|
    decreases |t|
  {
    if t == [] then []
    else
      match ImportAt(t, ls, mods)
      case Some(s) => [s.moduleStart] + Shift(DotSites(t[s.end..], false, mods), s.end)
      case None => Shift(DotSites(t[1..], t[0] == '\n', mods), 1)
  }

  /** The dots go in at strictly increasing positions. */
  lemma {:induction false} DotSitesIncreasing(t: string, ls: bool, mods: seq<string>)
    ensures forall a, b :: 0 <= a < b < |DotSites(t, ls, mods)| ==> DotSites(t, ls, mods)[a] < DotSites(t, ls, mods)[b]
    decreases |t|
  {
    if t != [] {
      match ImportAt(t, ls, mods)
      case Some(s) =>
        DotSitesIncreasing(t[s.end..], false, mods);
      case None =>
        DotSitesIncreasing(t[1..], t[0] == '\n', mods);
    }
  }

  /** A dot at `p` marks a module import: the line of `t` starting at
      `l` reads `\s*from\s+<module>` with the module at `p`
      (ImportAtIff gives the regular expression's reading). */
  ghost predicate ImportSiteAt(t: string, ls: bool, mods: seq<string>, p: nat) {
    exists l: nat :: l <= p <= |t| && Flag(t, ls, l) &&
      ImportAt(t[l..], true, mods).Some? && ImportAt(t[l..], true, mods).value.moduleStart == p - l
  }

  /** Shifting the dots past an untouched prefix. */
  lemma InsertDotsAfter(a: string, b: string, ps: seq<nat>)
    requires ps != [] ==> ps[0] <= |b|
    ensures InsertDots(a + b, Shift(ps, |a|)) == a + InsertDots(b, ps)
  {
    if ps != [] {
      var p := ps[0];
      var x := InsertDots(b[p..], Unshift(ps[1..], p));
      StepShifted(a, b, ps);
      InsertDotsStep(b, ps);
      DotAssoc(a, b[..p], x);
    }
  }

  lemma StepShifted(a: string, b: string, ps: seq<nat>)
    requires ps != [] && ps[0] <= |b|
    ensures InsertDots(a + b, Shift(ps, |a|))
         == ((a + b[..ps[0]]) + ".") + InsertDots(b[ps[0]..], Unshift(ps[1..], ps[0]))
  {
    var p := ps[0];
    var qs := Shift(ps, |a|);
    var q := qs[0];
    ShiftRest(ps, |a|);
    InsertDotsStep(a + b, qs);
    PrefixSplit(a, b, p);
    assert q == p + |a|;
    assert (a + b)[..q] == a + b[..p];
    assert (a + b)[q..] == b[p..];
    var u := Unshift(qs[1..], q);
    assert u == Unshift(ps[1..], p);
    assert InsertDots(a + b, qs) == ((a + b)[..q] + ".") + InsertDots((a + b)[q..], u);
  }

  lemma DotAssoc(a: string, y: string, x: string)
    ensures ((a + y) + ".") + x == a + ((y + ".") + x)
  {
  }

  lemma PrefixSplit(a: string, b: string, p: nat)
    requires p <= |b|
    ensures (a + b)[..p + |a|] == a + b[..p] && (a + b)[p + |a|..] == b[p..]
  {
  }

  /** One step of InsertDots, for a position inside the text. */
  lemma InsertDotsStep(t: string, ps: seq<nat>)
    requires ps != [] && ps[0] <= |t|
    ensures InsertDots(t, ps) == t[..ps[0]] + "." + InsertDots(t[ps[0]..], Unshift(ps[1..], ps[0]))
  {
  }

  /** The positions after the first, relative to the first, do not
      depend on a common shift. */
  lemma ShiftRest(ps: seq<nat>, d: nat)
    requires ps != []
    ensures Unshift(Shift(ps, d)[1..], ps[0] + d) == Unshift(ps[1..], ps[0])
  {
  }

  /** A pass inserts exactly one dot at each of its sites and changes
      nothing else. */
  lemma {:induction false} FixInsertsDots(t: string, ls: bool, mods: seq<string>)
    ensures Fix(t, ls, mods).text == InsertDots(t, DotSites(t, ls, mods))
    ensures Fix(t, ls, mods).count == |DotSites(t, ls, mods)|
    decreases |t|
  {
    if t != [] {
      match ImportAt(t, ls, mods)
      case Some(s) =>
        var r := Fix(t[s.end..], false, mods);
        var ps := DotSites(t[s.end..], false, mods);
        FixInsertsDots(t[s.end..], false, mods);
        DotsAtSite(t, s.moduleStart, s.end, ps, r.text);
      case None =>
        var g := t[0] == '\n';
        FixInsertsDots(t[1..], g, mods);
        InsertDotsAfter([t[0]], t[1..], DotSites(t[1..], g, mods));
        assert [t[0]] + t[1..] == t;
    }
  }

  lemma DotsAtSite(t: string, j: nat, e: nat, ps: seq<nat>, r: string)
    requires j <= e <= |t| && (ps != [] ==> ps[0] <= |t| - e) && r == InsertDots(t[e..], ps)
    ensures InsertDots(t, [j] + Shift(ps, e)) == t[..j] + "." + t[j..e] + r
  {
    var all := [j] + Shift(ps, e);
    assert all[0] == j && all[1..] == Shift(ps, e);
    UnshiftShift(ps, e, j);
    InsertDotsStep(t, all);
    DotsAfterModule(t, j, e, ps);
    var y := t[j..e] + r;
    assert InsertDots(t, all) == (t[..j] + ".") + y;
    ConcatAssoc(t[..j] + ".", t[j..e], r);
  }

  lemma UnshiftShift(ps: seq<nat>, e: nat, j: nat)
    requires j <= e
    ensures Unshift(Shift(ps, e), j) == Shift(ps, e - j)
  {
  }

  lemma ConcatAssoc(x: string, y: string, z: string)
    ensures x + (y + z) == (x + y) + z
  {
  }

  lemma DotsAfterModule(t: string, j: nat, e: nat, ps: seq<nat>)
    requires j <= e <= |t| && (ps != [] ==> ps[0] <= |t| - e)
    ensures InsertDots(t[j..], Shift(ps, e - j)) == t[j..e] + InsertDots(t[e..], ps)
  {
    var u := t[j..];
    assert u == t[j..e] + t[e..];
    InsertDotsAfter(t[j..e], t[e..], ps);
  }

  ghost predicate AllImportSites(t: string, ls: bool, mods: seq<string>, ps: seq<nat>) {
    forall k :: 0 <= k < |ps| ==> ImportSiteAt(t, ls, mods, ps[k])
  }

  /** Every dot a pass inserts stands before a module imported by a
      `from` line. */
  lemma {:induction false} DotSitesAreImports(t: string, ls: bool, mods: seq<string>)
    ensures AllImportSites(t, ls, mods, DotSites(t, ls, mods))
    decreases |t|
  {
    if t != [] {
      match ImportAt(t, ls, mods)
      case Some(s) =>
        DotSitesAreImports(t[s.end..], false, mods);
        SitesAfterMatch(t, ls, mods, s.moduleStart, s.end, DotSites(t[s.end..], false, mods));
      case None =>
        var g := t[0] == '\n';
        DotSitesAreImports(t[1..], g, mods);
        SitesAfterMiss(t, ls, mods, DotSites(t[1..], g, mods));
    }
  }

  lemma SitesAfterMatch(t: string, ls: bool, mods: seq<string>, j: nat, e: nat, rest: seq<nat>)
    requires ImportAt(t, ls, mods) == Some(ImportSite(j, e))
    requires AllImportSites(t[e..], false, mods, rest)
    ensures AllImportSites(t, ls, mods, [j] + Shift(rest, e))
  {
    var ps := [j] + Shift(rest, e);
    assert t[0..] == t;
    assert ImportSiteAt(t, ls, mods, j);
    forall k | 0 <= k < |ps| ensures ImportSiteAt(t, ls, mods, ps[k]) {
      if k > 0 {
        assert ps[k] == rest[k - 1] + e;
        ShiftSite(t, ls, mods, e, false, rest[k - 1]);
      }
    }
  }

  lemma SitesAfterMiss(t: string, ls: bool, mods: seq<string>, rest: seq<nat>)
    requires t != [] && AllImportSites(t[1..], t[0] == '\n', mods, rest)
    ensures AllImportSites(t, ls, mods, Shift(rest, 1))
  {
    var ps := Shift(rest, 1);
    forall k | 0 <= k < |ps| ensures ImportSiteAt(t, ls, mods, ps[k]) {
      ShiftSite(t, ls, mods, 1, t[0] == '\n', rest[k]);
    }
  }

  lemma ShiftSite(t: string, ls: bool, mods: seq<string>, d: nat, f: bool, p: nat)
    requires 0 < d <= |t| && (f ==> t[d - 1] == '\n')
    requires ImportSiteAt(t[d..], f, mods, p)
    ensures ImportSiteAt(t, ls, mods, p + d)
  {
    var l: nat :| l <= p <= |t[d..]| && Flag(t[d..], f, l) &&
      ImportAt(t[d..][l..], true, mods).Some? && ImportAt(t[d..][l..], true, mods).value.moduleStart == p - l;
    assert t[d..][l..] == t[l + d..];
    assert Flag(t, ls, l + d);
  }

  /** `fix_relative_imports` can be run again on its own output without
      changing it. */
  lemma FixAllIdempotent(content: string)
    ensures FixAll(FixAll(content).text).count == 0
    ensures FixAll(FixAll(content).text).text == FixAll(content).text
  {
    KnownModulesAreNames();
    FixIdempotent(content, true, KnownModules);
  }

  /** Without a line feed only position 0 can start a line, so a text
      that does not start one is left alone. */
  lemma {:induction false} NoLineNoImport(t: string, mods: seq<string>)
    requires forall k :: 0 <= k < |t| ==> t[k] != '\n'
    ensures Fix(t, false, mods) == Substituted(t, 0)
    decreases |t|
  {
    if t != [] {
      NoLineNoImport(t[1..], mods);
    }
  }

  /** How many files a run with the module list `mods` rewrites. */
  function PatchedCount(files: seq<string>, mods: seq<string>): (n: nat)
    ensures n <= |files|
  {
    if files == [] then 0
    else PatchedCount(files[..|files| - 1], mods) + (if Fix(files[|files| - 1], true, mods).count > 0 then 1 else 0)
  }

  /** What the loop writes back for one file: the new text when its
      pass made a substitution, nothing otherwise. */
  function WriteBack(content: string, mods: seq<string>): (r: Option<string>)
    ensures r.Some? <==> Fix(content, true, mods).text != content
    ensures r.Some? ==> r.value == Fix(content, true, mods).text
  {
    var r := Fix(content, true, mods);
    if r.count > 0 then Some(r.text) else None
  }

  /** The loop over the `.py` files, for the module list `mods` (the tool
      passes KnownModules): each file whose pass makes at least one
      substitution gets the new text written back (`Some`), the others
      are not written (`None`); `fileCount` counts the rewritten files. */
  method FixRelativeImports(files: seq<string>, mods: seq<string>) returns (written: seq<Option<string>>, fileCount: nat)
    requires ModuleNames(mods)
    ensures |written| == |files|
    ensures forall i :: 0 <= i < |files| ==> written[i] == WriteBack(files[i], mods)
    ensures fileCount == PatchedCount(files, mods)
  {
    written := [];
    fileCount := 0;
    var i := 0;
    while i < |files|
      invariant i == |written| && Progress(files, mods, written, fileCount)
    {
      var r := Fix(files[i], true, mods);
      if r.count > 0 {
        ProgressStep(files, mods, written, fileCount, Some(r.text));
        written := written + [Some(r.text)];
        fileCount := fileCount + 1;
      } else {
        ProgressStep(files, mods, written, fileCount, None);
        written := written + [None];
      }
      i := i + 1;
    }
    assert files[..i] == files;
  }

  /** The loop invariant: the first `|written|` files are handled and
      `n` of them were rewritten. */
  predicate Progress(files: seq<string>, mods: seq<string>, written: seq<Option<string>>, n: nat) {
    |written| <= |files| &&
    (forall k :: 0 <= k < |written| ==> written[k] == WriteBack(files[k], mods)) &&
    n == PatchedCount(files[..|written|], mods)
  }

  lemma ProgressStep(files: seq<string>, mods: seq<string>, written: seq<Option<string>>, n: nat, w: Option<string>)
    requires Progress(files, mods, written, n) && |written| < |files| && w == WriteBack(files[|written|], mods)
    ensures Progress(files, mods, written + [w], n + if w.Some? then 1 else 0)
  {
    var i := |written|;
    assert files[..i + 1][..i] == files[..i];
  }

  /** No file is reported as patched exactly when every pass made no
      substitution, that is when no file changes. */
  lemma {:induction false} NothingPatchedIff(files: seq<string>, mods: seq<string>)
    ensures PatchedCount(files, mods) == 0 <==> forall i :: 0 <= i < |files| ==> Fix(files[i], true, mods).text == files[i]
  {
    if files != [] {
      var init := files[..|files| - 1];
      NothingPatchedIff(init, mods);
      forall i | 0 <= i < |init| ensures init[i] == files[i] { }
    }
  }

  /** After a run has written its files back, a second run patches
      none of them. */
  lemma SecondRunPatchesNothing(files: seq<string>, mods: seq<string>)
    requires ModuleNames(mods)
    ensures PatchedCount(seq(|files|, i requires 0 <= i < |files| => Fix(files[i], true, mods).text), mods) == 0
  {
    var after := seq(|files|, i requires 0 <= i < |files| => Fix(files[i], true, mods).text);
    forall i | 0 <= i < |after| ensures Fix(after[i], true, mods).text == after[i] {
      FixIdempotent(files[i], true, mods);
    }
    NothingPatchedIff(after, mods);
  }

  /** A module name matching at `j` with a word boundary behind it is
      the whole word that stands at `j`. */
  lemma WholeWord(t: string, j: nat, w: string, m: string)
    requires ModuleName(m) && ModuleName(w) && LitAt(t, j, w)
    requires j + |w| == |t| || !IsWordChar(t[j + |w|])
    requires LitAt(t, j, m) && Boundary(t, j + |m|)
    ensures m == w
  {
    if |m| < |w| {
      ShorterHasNoBoundary(t, j, m, w);
    } else if |w| < |m| {
      WordGoesOn(t, j, w, m);
    }
  }

  lemma WordGoesOn(t: string, j: nat, w: string, m: string)
    requires ModuleName(m) && |w| < |m| && LitAt(t, j, m)
    ensures IsWordChar(t[j + |w|])
  {
    assert t[j + |w|] == t[j..j + |m|][|w|];
  }

  /** The line `from <w><rest>`: `from`, one space, then the word `w`
      ending on a word boundary. */
  predicate FromLine(t: string, w: string, rest: string) {
    ModuleName(w) && t == "from " + w + rest && (rest == [] || !IsWordChar(rest[0])) &&
    forall k :: 0 <= k < |rest| ==> rest[k] != '\n'
  }

  lemma FromLineShape(t: string, w: string, rest: string)
    requires FromLine(t, w, rest)
    ensures t[..5] == "from " && t[5..5 + |w|] == w && t[5 + |w|..] == rest
    ensures SkipSpaces(t, 0) == 0 && LitAt(t, 0, From) && SkipSpaces(t, |From|) == 5
    ensures LitAt(t, 5, w) && Boundary(t, 5 + |w|)
    ensures forall k :: 0 <= k < |t| ==> t[k] != '\n'
  {
    var e := 5 + |w|;
    assert t[..4] == From && t[4] == ' ' && t[5..e] == w && t[e..] == rest;
    assert t[5] == w[0];
    SkipSpacesUnique(t, 0, 0);
    SkipSpacesUnique(t, 4, 5);
    assert t[e - 1] == w[|w| - 1];
    forall k | 0 <= k < |t| ensures t[k] != '\n' {
      if k < 5 { assert t[k] == t[..5][k]; }
      else if k < e { assert t[k] == w[k - 5]; }
      else { assert t[k] == rest[k - e]; }
    }
  }

  /** A one-line `from` import of one of the modules gets its dot. */
  lemma FromLineKnown(t: string, w: string, rest: string, mods: seq<string>)
    requires ModuleNames(mods) && FromLine(t, w, rest) && w in mods
    ensures Fix(t, true, mods) == Substituted("from ." + w + rest, 1)
  {
    var e := 5 + |w|;
    FromLineSite(t, w, rest, mods);
    FixMatch(t, true, mods, 5, e);
    NoLineNoImport(rest, mods);
    FromLineDotted(t, w, rest);
  }

  lemma FromLineSite(t: string, w: string, rest: string, mods: seq<string>)
    requires ModuleNames(mods) && FromLine(t, w, rest) && w in mods
    ensures ImportAt(t, true, mods) == Some(ImportSite(5, 5 + |w|)) && t[5 + |w|..] == rest
  {
    FromLineShape(t, w, rest);
    ModuleAtIff(t, 5, mods, w);
  }

  lemma FromLineDotted(t: string, w: string, rest: string)
    requires FromLine(t, w, rest)
    ensures t[..5] + "." + t[5..5 + |w|] + rest == "from ." + w + rest
  {
    FromLineShape(t, w, rest);
    assert "from ." == "from " + ".";
  }

  /** A word that is not one of the modules is left alone, even when a
      module name is a prefix of it. */
  lemma FromLineUnknown(t: string, w: string, rest: string, mods: seq<string>)
    requires ModuleNames(mods) && FromLine(t, w, rest) && w !in mods
    ensures Fix(t, true, mods) == Substituted(t, 0)
  {
    FromLineShape(t, w, rest);
    if ModuleAt(t, 5, mods).Some? {
      WholeWord(t, 5, w, ModuleAt(t, 5, mods).value);
    }
    assert ImportAt(t, true, mods).None?;
    FixMiss(t, true, mods);
    NoLineNoImport(t[1..], mods);
    assert [t[0]] + t[1..] == t;
  }

  /** A pass over a text that starts with a match. */
  lemma FixMatch(t: string, ls: bool, mods: seq<string>, j: nat, e: nat)
    requires ImportAt(t, ls, mods) == Some(ImportSite(j, e))
    ensures Fix(t, ls, mods).text == t[..j] + "." + t[j..e] + Fix(t[e..], false, mods).text
    ensures Fix(t, ls, mods).count == Fix(t[e..], false, mods).count + 1
  {
  }

  /** The word boundary keeps `generators` from being read as the known
      module `generator`. */
  lemma SimilarPrefixUntouched()
    ensures FixAll("from generators import x") == Substituted("from generators import x", 0)
  {
    KnownModulesAreNames();
    assert FromLine("from generators import x", "generators", " import x");
    FromLineUnknown("from generators import x", "generators", " import x", KnownModules);
  }

  /** A known module imported with `from` becomes a relative import. */
  lemma KnownModuleRewritten()
    ensures FixAll("from generator import x") == Substituted("from .generator import x", 1)
  {
    assert "from ." + "generator" + " import x" == "from .generator import x";
    KnownModulesAreNames();
    assert "generator" == KnownModules[3];
    assert ModuleName("generator");
    assert "from generator import x" == "from " + "generator" + " import x";
    assert FromLine("from generator import x", "generator", " import x");
    FromLineKnown("from generator import x", "generator", " import x", KnownModules);
  }
}
