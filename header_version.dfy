/** The string-parsing part of `get_vulkan_header_version`: the text of
    vk.xml in, the version string `major.minor.patch` or a `ValueError`
    out. */
module HeaderVersion {
  import opened Scan
  import opened Pattern

  /** `<name>VK_HEADER_VERSION</name>\s*(\d+)</type>` */
  const PatchPattern: Pat :=
    [Lit("<name>VK_HEADER_VERSION</name>"), Spaces, Digits, Lit("</type>")]

  /** `<name>VK_HEADER_VERSION_COMPLETE</name>\s*<type>VK_MAKE_API_VERSION</type>\s*\(\s*0,\s*(\d+),\s*(\d+),` */
  const CompletePattern: Pat := [Lit("<name>VK_HEADER_VERSION_COMPLETE</name>")] + MacroCall

  /** `\s*<type>VK_MAKE_API_VERSION</type>\s*\(` and the arguments. */
  const MacroCall: Pat := [Spaces, Lit("<type>VK_MAKE_API_VERSION</type>"), Spaces, Lit("(")] + MacroArgs

  /** `\s*0,\s*(\d+),\s*(\d+),`, the tail of CompletePattern. */
  const MacroArgs: Pat := [Spaces, Lit("0,"), Spaces, Digits, Lit(","), Spaces, Digits, Lit(",")]

  const PatchMissing := "Could not find the patch version from VK_HEADER_VERSION in vk.xml"
  const CompleteMissing := "Could not find VK_HEADER_VERSION_COMPLETE macro for api='vulkan' in vk.xml"

  datatype Outcome = Ok(version: string) | ValueError(msg: string)

  /** The patch number comes from the first `VK_HEADER_VERSION` define,
      major and minor from the first `VK_HEADER_VERSION_COMPLETE` macro;
      the patch search is made, and can fail, first. */
  function GetHeaderVersion(content: string): Outcome {
    match Search(PatchPattern, content)
    case None => ValueError(PatchMissing)
    case Some(patch) =>
      match Search(CompletePattern, content)
      case None => ValueError(CompleteMissing)
      case Some(complete) =>
        PatchGroupCount();
        CompleteGroupCount();
        var major, minor := complete.hit.groups[0], complete.hit.groups[1];
        Ok(major + "." + minor + "." + patch.hit.groups[0])
  }

  lemma PatchPatternDeterministic()
    ensures Deterministic(PatchPattern)
  {
    DeterministicCons(Lit("</type>"), []);
    DeterministicCons(Digits, [Lit("</type>")]);
    DeterministicCons(Spaces, [Digits, Lit("</type>")]);
    DeterministicCons(Lit("<name>VK_HEADER_VERSION</name>"), [Spaces, Digits, Lit("</type>")]);
  }

  lemma CompletePatternDeterministic()
    ensures Deterministic(CompletePattern)
  {
    var p := MacroArgs;
    MacroArgsDeterministic();
    DeterministicCons(Lit("("), p);
    p := [Lit("(")] + p;
    DeterministicCons(Spaces, p);
    p := [Spaces] + p;
    DeterministicCons(Lit("<type>VK_MAKE_API_VERSION</type>"), p);
    p := [Lit("<type>VK_MAKE_API_VERSION</type>")] + p;
    DeterministicCons(Spaces, p);
    p := [Spaces] + p;
    assert p == MacroCall;
    DeterministicCons(Lit("<name>VK_HEADER_VERSION_COMPLETE</name>"), p);
  }

  lemma MacroArgsDeterministic()
    ensures Deterministic(MacroArgs)
  {
    var p := [Lit(",")];
    DeterministicCons(Lit(","), []);
    DeterministicCons(Digits, p);
    p := [Digits] + p;
    DeterministicCons(Spaces, p);
    p := [Spaces] + p;
    DeterministicCons(Lit(","), p);
    p := [Lit(",")] + p;
    DeterministicCons(Digits, p);
    p := [Digits] + p;
    DeterministicCons(Spaces, p);
    p := [Spaces] + p;
    DeterministicCons(Lit("0,"), p);
    p := [Lit("0,")] + p;
    DeterministicCons(Spaces, p);
    p := [Spaces] + p;
    assert p == MacroArgs;
  }

  /** "</name>" and "</type>": their one '<' is followed by '/'. */
  lemma ClosingTagsSafe()
    ensures SafeLit("</name>", '<', 'n') && SafeLit("</type>", '<', 'n')
  {
    SafeOpen("/name>", '<', 'n');
    SafeOpen("/type>", '<', 'n');
    assert "</name>" == ['<'] + "/name>" && "</type>" == ['<'] + "/type>";
  }

  lemma PatchPatternAnchored()
    ensures Anchored(PatchPattern)
  {
    PatchNameSafe();
    PatchTailSafe();
    assert PatchPattern[0] == Lit("<name>VK_HEADER_VERSION</name>");
  }

  lemma PatchNameSafe()
    ensures SafeLit("<name>VK_HEADER_VERSION</name>"[1..], '<', 'n')
  {
    ClosingTagsSafe();
    assert "<name>VK_HEADER_VERSION</name>"[1..] == "name>VK_HEADER_VERSION" + "</name>";
    SafeWithout("name>VK_HEADER_VERSION", '<', 'n');
    SafeConcat("name>VK_HEADER_VERSION", "</name>", '<', 'n');
  }

  lemma PatchTailSafe()
    ensures LitsSafe(PatchPattern[1..], '<', 'n')
  {
    ClosingTagsSafe();
    LitsSafeCons(Lit("</type>"), [], '<', 'n');
    LitsSafeCons(Digits, [Lit("</type>")], '<', 'n');
    LitsSafeCons(Spaces, [Digits, Lit("</type>")], '<', 'n');
    assert PatchPattern[1..] == [Spaces, Digits, Lit("</type>")];
  }

  lemma CompleteTagsSafe()
    ensures SafeLit("<name>VK_HEADER_VERSION_COMPLETE</name>"[1..], '<', 'n')
    ensures SafeLit("<type>VK_MAKE_API_VERSION</type>", '<', 'n')
  {
    CompleteNameSafe();
    CompleteTypeSafe();
  }

  lemma CompleteNameSafe()
    ensures SafeLit("<name>VK_HEADER_VERSION_COMPLETE</name>"[1..], '<', 'n')
  {
    ClosingTagsSafe();
    assert "<name>VK_HEADER_VERSION_COMPLETE</name>"[1..] == "name>VK_HEADER_VERSION_COMPLETE" + "</name>";
    SafeWithout("name>VK_HEADER_VERSION_COMPLETE", '<', 'n');
    SafeConcat("name>VK_HEADER_VERSION_COMPLETE", "</name>", '<', 'n');
  }

  lemma CompleteTypeSafe()
    ensures SafeLit("<type>VK_MAKE_API_VERSION</type>", '<', 'n')
  {
    ClosingTagsSafe();
    TypeTagSplit();
    SafeOpen("type>VK_MAKE_API_VERSION", '<', 'n');
    SafeConcat(['<'] + "type>VK_MAKE_API_VERSION", "</type>", '<', 'n');
  }

  lemma TypeTagSplit()
    ensures "<type>VK_MAKE_API_VERSION</type>" == (['<'] + "type>VK_MAKE_API_VERSION") + "</type>"
  {
  }

  lemma CompleteTailSafe()
    ensures LitsSafe(CompletePattern[1..], '<', 'n')
  {
    CompleteTypeSafe();
    SafeWithout("(", '<', 'n');
    MacroArgsSafe();
    var p := MacroArgs;
    LitsSafeCons(Lit("("), p, '<', 'n');
    p := [Lit("(")] + p;
    LitsSafeCons(Spaces, p, '<', 'n');
    p := [Spaces] + p;
    LitsSafeCons(Lit("<type>VK_MAKE_API_VERSION</type>"), p, '<', 'n');
    p := [Lit("<type>VK_MAKE_API_VERSION</type>")] + p;
    LitsSafeCons(Spaces, p, '<', 'n');
    p := [Spaces] + p;
    assert p == MacroCall;
    assert CompletePattern[1..] == MacroCall;
  }

  lemma MacroArgsSafe()
    ensures LitsSafe(MacroArgs, '<', 'n')
  {
    SafeWithout(",", '<', 'n');
    SafeWithout("0,", '<', 'n');
    var p := [Lit(",")];
    LitsSafeCons(Lit(","), [], '<', 'n');
    LitsSafeCons(Digits, p, '<', 'n');
    p := [Digits] + p;
    LitsSafeCons(Spaces, p, '<', 'n');
    p := [Spaces] + p;
    LitsSafeCons(Lit(","), p, '<', 'n');
    p := [Lit(",")] + p;
    LitsSafeCons(Digits, p, '<', 'n');
    p := [Digits] + p;
    LitsSafeCons(Spaces, p, '<', 'n');
    p := [Spaces] + p;
    LitsSafeCons(Lit("0,"), p, '<', 'n');
    p := [Lit("0,")] + p;
    LitsSafeCons(Spaces, p, '<', 'n');
    p := [Spaces] + p;
    assert p == MacroArgs;
  }

  lemma CompletePatternAnchored()
    ensures Anchored(CompletePattern)
  {
    assert CompletePattern[0] == Lit("<name>VK_HEADER_VERSION_COMPLETE</name>");
    assert "<name>VK_HEADER_VERSION_COMPLETE</name>"[0] == '<';
    assert "<name>VK_HEADER_VERSION_COMPLETE</name>"[1] == 'n';
    CompleteTagsSafe();
    CompleteTailSafe();
  }

  /** The version is built from the leftmost match of each pattern: major
      and minor are the macro's second and third arguments, the patch
      the number in the `VK_HEADER_VERSION` define. */
  lemma {:induction false} VersionFromLeftmostMatches(s: string, ip: nat, patch: string, ep: nat,
                                                      ic: nat, major: string, minor: string, ec: nat)
    requires IsLeftmost(PatchPattern, s, ip, [patch], ep)
    requires IsLeftmost(CompletePattern, s, ic, [major, minor], ec)
    ensures GetHeaderVersion(s) == Ok(major + "." + minor + "." + patch)
  {
    PatchPatternDeterministic();
    CompletePatternDeterministic();
    SearchFindsLeftmost(PatchPattern, s, ip, [patch], ep);
    SearchFindsLeftmost(CompletePattern, s, ic, [major, minor], ec);
  }

  /** `patch` is the number of the first `VK_HEADER_VERSION` define of `s`. */
  ghost predicate PatchSource(s: string, patch: string) {
    LeftmostGroups(PatchPattern, s, [patch])
  }

  /** `major` and `minor` are the arguments of the first accepted
      `VK_HEADER_VERSION_COMPLETE` macro of `s`. */
  ghost predicate MacroSource(s: string, major: string, minor: string) {
    LeftmostGroups(CompletePattern, s, [major, minor])
  }

  /** Conversely, a version is only ever reported when both patterns
      match, and it is then made of three non-empty digit strings taken
      from their leftmost matches. */
  lemma OkComesFromLeftmostMatches(s: string)
    requires GetHeaderVersion(s).Ok?
    ensures exists patch: string, major: string, minor: string ::
      PatchSource(s, patch) && MacroSource(s, major, minor) &&
      GetHeaderVersion(s).version == major + "." + minor + "." + patch &&
      |major| > 0 && |minor| > 0 && |patch| > 0 &&
      AllDigits(major) && AllDigits(minor) && AllDigits(patch)
  {
    var patch := PatchOfSearch(s);
    var major, minor := MacroOfSearch(s);
  }

  /** The number the patch search captures, and the fact that it is the
      leftmost define's. */
  lemma PatchOfSearch(s: string) returns (patch: string)
    requires Search(PatchPattern, s).Some?
    ensures Search(PatchPattern, s).value.hit.groups == [patch]
    ensures PatchSource(s, patch) && |patch| > 0 && AllDigits(patch)
  {
    PatchPatternDeterministic();
    var g := SearchGroups(PatchPattern, s);
    patch := g[0];
    assert g == [patch];
  }

  lemma MacroOfSearch(s: string) returns (major: string, minor: string)
    requires Search(CompletePattern, s).Some?
    ensures Search(CompletePattern, s).value.hit.groups == [major, minor]
    ensures MacroSource(s, major, minor) && |major| > 0 && |minor| > 0 && AllDigits(major) && AllDigits(minor)
  {
    CompletePatternDeterministic();
    CompleteGroupCount();
    major, minor := SearchTwoGroups(CompletePattern, s);
  }

  lemma PatchGroupCount()
    ensures GroupCount(PatchPattern) == 1
  {
  }

  lemma CompleteGroupCount()
    ensures GroupCount(CompletePattern) == 2
  {
    GroupCountAppend([Spaces, Lit("<type>VK_MAKE_API_VERSION</type>"), Spaces, Lit("(")], MacroArgs);
    GroupCountAppend([Lit("<name>VK_HEADER_VERSION_COMPLETE</name>")], MacroCall);
  }

  /** The patch search comes first: without a `VK_HEADER_VERSION` define
      the error is about the patch version, whatever else the text holds,
      and that error means there is no such define. */
  lemma PatchMissingIffNoPatchMatch(s: string)
    ensures GetHeaderVersion(s) == ValueError(PatchMissing)
            <==> forall i: nat, g: seq<string>, e: nat :: !Matches(PatchPattern, s, i, g, e)
  {
    PatchPatternDeterministic();
    SearchFailsIffNoMatch(PatchPattern, s);
  }

  /** With a patch define but no accepted `VK_HEADER_VERSION_COMPLETE`
      macro the error is about the macro, and only then. */
  lemma CompleteMissingIffOnlyPatchMatches(s: string)
    ensures GetHeaderVersion(s) == ValueError(CompleteMissing)
            <==> (exists i: nat, g: seq<string>, e: nat :: Matches(PatchPattern, s, i, g, e)) &&
                 (forall i: nat, g: seq<string>, e: nat :: !Matches(CompletePattern, s, i, g, e))
  {
    PatchPatternDeterministic();
    CompletePatternDeterministic();
    SearchFailsIffNoMatch(PatchPattern, s);
    SearchFailsIffNoMatch(CompletePattern, s);
  }

  /** Whatever follows the first `VK_HEADER_VERSION` define, including
      later defines, does not change the patch number found. */
  lemma FirstPatchDefineWins(a: string, b: string)
    requires Search(PatchPattern, a).Some?
    ensures Search(PatchPattern, a + b) == Search(PatchPattern, a)
  {
    PatchPatternDeterministic();
    PatchPatternAnchored();
    AppendStable(PatchPattern, a, b);
  }

  /** Likewise for the first accepted `VK_HEADER_VERSION_COMPLETE` macro. */
  lemma FirstCompleteMacroWins(a: string, b: string)
    requires Search(CompletePattern, a).Some?
    ensures Search(CompletePattern, a + b) == Search(CompletePattern, a)
  {
    CompletePatternDeterministic();
    CompletePatternAnchored();
    AppendStable(CompletePattern, a, b);
  }

  /** Once a text yields a version, appending anything to it (more
      defines and macros included) yields the same version. */
  lemma LaterTextNeverChangesVersion(a: string, b: string)
    requires GetHeaderVersion(a).Ok?
    ensures GetHeaderVersion(a + b) == GetHeaderVersion(a)
  {
    FirstPatchDefineWins(a, b);
    FirstCompleteMacroWins(a, b);
  }

  /** The argument list is only accepted when white space and then `0,`
      open it, and the match reaches past that `0,`. */
  lemma FirstArgumentIsZero(s: string, i: nat)
    requires i <= |s| && MatchAt(MacroArgs, s, i).Some?
    ensures LitAt(s, SkipSpaces(s, i), "0,")
    ensures SkipSpaces(s, i) + 2 <= MatchAt(MacroArgs, s, i).value.end
  {
    var w := SkipSpaces(s, i);
    var p := MacroArgs[1..];
    assert MacroArgs[0] == Spaces && p[0] == Lit("0,");
    SpacesStep(MacroArgs, s, i);
    LitStep(p, s, w);
  }

  /** At `k` stands a `(`, then white space and the literal `0,`, all
      before `end`. */
  predicate ZeroFirstArgument(s: string, k: nat, end: nat) {
    k + 1 <= |s| && s[k] == '(' && LitAt(s, SkipSpaces(s, k + 1), "0,") && SkipSpaces(s, k + 1) + 2 <= end
  }

  /** A match of CompletePattern at `i` holds a `(` followed by white
      space and the literal first argument `0,`. */
  lemma MacroOpening(s: string, i: nat) returns (k: nat)
    requires i <= |s| && MatchAt(CompletePattern, s, i).Some?
    ensures i < k && ZeroFirstArgument(s, k, MatchAt(CompletePattern, s, i).value.end)
  {
    CompleteShape();
    k := OpenParen(CompletePattern, s, i);
    ZeroAfterParen(s, k);
  }

  lemma ZeroAfterParen(s: string, k: nat)
    requires k + 1 <= |s| && s[k] == '(' && MatchAt(MacroArgs, s, k + 1).Some?
    ensures ZeroFirstArgument(s, k, MatchAt(MacroArgs, s, k + 1).value.end)
  {
    FirstArgumentIsZero(s, k + 1);
  }

  lemma CompleteShape()
    ensures OpensWithParen(CompletePattern) && |CompletePattern[0].text| > 0 && CompletePattern[5..] == MacroArgs
  {
  }

  /** A reported version never comes from a macro whose first argument is
      not `0`: in the leftmost accepted macro, the `(` is followed by
      white space and `0,`, all inside the match. */
  lemma VersionMacroStartsWithZero(s: string)
    requires GetHeaderVersion(s).Ok?
    ensures exists k: nat ::
      (Search(CompletePattern, s).value.start < k && ZeroFirstArgument(s, k, Search(CompletePattern, s).value.hit.end))
  {
    var k := MacroOpening(s, Search(CompletePattern, s).value.start);
  }

  lemma DottedDigits(a: string, b: string, c: string)
    requires AllDigits(a) && AllDigits(b) && AllDigits(c)
    ensures forall k :: 0 <= k < |a + "." + b + "." + c| ==>
      IsDigit((a + "." + b + "." + c)[k]) || (a + "." + b + "." + c)[k] == '.'
  {
    var v := a + "." + b + "." + c;
    forall k | 0 <= k < |v| ensures IsDigit(v[k]) || v[k] == '.' {
      if k < |a| { assert v[k] == a[k]; }
      else if k == |a| { }
      else if k < |a| + 1 + |b| { assert v[k] == b[k - |a| - 1]; }
      else if k == |a| + 1 + |b| { }
      else { assert v[k] == c[k - |a| - 2 - |b|]; }
    }
  }

  /** A reported version consists of digits and dots only, so it can be
      written into a line of pyproject.toml as it is. */
  lemma VersionIsDigitsAndDots(s: string)
    requires GetHeaderVersion(s).Ok?
    ensures forall k :: 0 <= k < |GetHeaderVersion(s).version| ==>
      IsDigit(GetHeaderVersion(s).version[k]) || GetHeaderVersion(s).version[k] == '.'
  {
    var patch := PatchOfSearch(s);
    var major, minor := MacroOfSearch(s);
    DottedDigits(major, minor, patch);
  }
}
