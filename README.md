# vulkan_object update tool: the text transforms

This project models `update.py`, the script that refreshes the
`vulkan_object` package from a Vulkan-Headers registry. The model covers
the script's three text transforms and the file loop around the last one:

- **Header version.** `get_vulkan_header_version` reads the text of
  `vk.xml`. It takes the patch number from the first
  `<name>VK_HEADER_VERSION</name> N</type>` define. It takes major and
  minor from the first
  `<name>VK_HEADER_VERSION_COMPLETE</name> <type>VK_MAKE_API_VERSION</type>(0, M, m,`
  macro. The result is `M.m.N`, or a `ValueError` naming the pattern that
  did not match. Modules `Pattern` and `HeaderVersion`.
- **Package version.** `update_pyproject_version` replaces the value of
  every `version = "..."` line of `pyproject.toml` with the new version.
  It writes nothing when the file is missing or holds no such line.
  Module `PyprojectVersion`.
- **Relative imports.** `fix_relative_imports` rewrites every
  `from <module>` line that names one of the package's own modules into
  `from .<module>`. It writes back only the files where something changed
  and counts them. Module `RelativeImports`.

Module `Scan` holds the character classes and scanning primitives that
the three transforms share. These are Python's default (Unicode) `\s`,
`\d` and `\w`, restricted to ASCII characters,
the greedy runs of white space and digits, and the reach of `.`
(everything up to the next line feed).

Each regular expression is modelled twice:

- as a scanner, which is what the tool computes;
- as a declarative reading of the pattern.

A lemma proves that the two agree (`SearchFindsLeftmost`,
`VersionLineAtIff`, `ImportAtIff`). `re.subn` is modelled as a recursion
over the text. A flag in that recursion records whether the current
position starts a line, which is what `^` under `re.MULTILINE` requires.
After a match, the scan resumes behind it.

Inputs that the script reads from disk are parameters:

- the text of `vk.xml`;
- the text of `pyproject.toml`, as an `Option`, so that `None` stands for a missing file;
- the contents of the `.py` files.

Writes are results: an `Option<string>` per file, where `None` means "not
written".

## Model

| member | source | states |
|---|---|---|
| Pattern.MatchAt | update.py:37-48 | the scanner that tries a header pattern at one position: greedy `\s*` and `(\d+)`, one group per `(\d+)`; its meaning is given by MatchSound and MatchComplete |
| Pattern.MatchSound | update.py:37-48 | whatever the scanner finds is a match of the regular expression, with the groups and end it reports |
| Pattern.MatchComplete | update.py:37-48 | for the header patterns every match of the regular expression at a position is the one the scanner finds there |
| Pattern.Search | update.py:36-50 | `re.search`: the match reported is the scanner's at the reported position, and the scanner fails at every earlier position (everywhere when nothing is reported) |
| Pattern.SearchFrom | update.py:36-39 | the position reported is one where the pattern matches, and it matches at no earlier position |
| Pattern.SearchFindsLeftmost | update.py:36-39 | for the header patterns the greedy search reports exactly the leftmost match of the regular expression, with exactly its groups, in both directions |
| Pattern.SearchFailsIffNoMatch | update.py:40-41 | the search fails exactly when the regular expression matches nowhere in the text |
| Pattern.GroupsAreNumbers | update.py:37 | every group a match captures is a non-empty run of decimal digits, and there is one per `(\d+)` |
| Pattern.SearchStable | update.py:36-39 | changing only text after the end of the first match does not change what the search finds |
| HeaderVersion.GetHeaderVersion | update.py:23-57 | the model of `get_vulkan_header_version` on the text of vk.xml; it carries no contract of its own, and VersionFromLeftmostMatches, OkComesFromLeftmostMatches, PatchMissingIffNoPatchMatch and CompleteMissingIffOnlyPatchMatches state what it computes |
| HeaderVersion.VersionFromLeftmostMatches | update.py:36-57 | if the two leftmost matches capture `patch` and `major, minor`, the result is `major.minor.patch` |
| HeaderVersion.OkComesFromLeftmostMatches | update.py:42-57 | a reported version is `major.minor.patch`, built from the groups of the leftmost matches of both patterns; all three are non-empty digit strings |
| HeaderVersion.PatchMissingIffNoPatchMatch | update.py:36-41 | the patch-version error is raised exactly when no `VK_HEADER_VERSION` define matches, whatever the rest of the text holds |
| HeaderVersion.CompleteMissingIffOnlyPatchMatches | update.py:47-52 | the `VK_HEADER_VERSION_COMPLETE` error is raised exactly when the patch pattern matches and the macro pattern matches nowhere |
| HeaderVersion.VersionMacroStartsWithZero | update.py:47-57 | when a version is reported, the leftmost accepted macro holds a `(` followed by white space and the literal first argument `0,`, inside the match; a macro with any other first argument is never the version source |
| HeaderVersion.FirstPatchDefineWins | update.py:36-39 | text after the first matching define, later defines included, never changes the patch search |
| HeaderVersion.FirstCompleteMacroWins | update.py:47-50 | text after the first matching macro never changes the macro search |
| HeaderVersion.LaterTextNeverChangesVersion | update.py:36-57 | once a text yields a version, appending anything to it yields the same version |
| HeaderVersion.VersionIsDigitsAndDots | update.py:54-57 | a reported version consists only of digits and dots |
| PyprojectVersion.LastQuote | update.py:73 | the greedy `.*"` ends at the last quote before the end of the line, and fails when there is none |
| PyprojectVersion.VersionLineAt | update.py:73-76 | the pattern tried at one position: a match needs a line start and `version`, and reports a value between two quotes; VersionLineAtIff gives its full meaning |
| PyprojectVersion.VersionLineAtIff | update.py:73-76 | the scanner matches at a line start exactly when the line reads `version`, white space, `=`, white space, a quote, a value without a line feed, and the line's last quote; the value's bounds are the ones it reports |
| PyprojectVersion.NoVersionLineInside | update.py:73-76 | no match can start inside another |
| PyprojectVersion.Subn | update.py:72-77 | the model of `re.subn` with the version template; it carries no contract of its own, and SubnCountsVersionLines, EveryLineHoldsVersion, OnlyValuesChange, SubnIdempotent and NoMatchUnchanged state what it computes |
| PyprojectVersion.Rewrite | update.py:72-77 | the substitution over a whole file counts the version lines, and leaves the file unchanged when there is none |
| PyprojectVersion.SubnCountsVersionLines | update.py:72-77 | the substitution count equals the number of positions where the regular expression matches |
| PyprojectVersion.EveryLineHoldsVersion | update.py:73-74 | after the rewrite, the values read from the version lines are the new version, once per substitution |
| PyprojectVersion.OnlyValuesChange | update.py:72-77 | with every value cut out, output and input are the same text, so nothing outside the values changes |
| PyprojectVersion.UnmatchedStaysUnmatched | update.py:73-76 | a position where the expression does not match at the start of the text still does not match after the rewrite |
| PyprojectVersion.SubnIdempotent | update.py:72-77 | running the rewrite a second time with the same version changes nothing and counts the same lines |
| PyprojectVersion.NoMatchUnchanged | update.py:72-81 | a rewrite with zero substitutions returns its input unchanged |
| PyprojectVersion.UpdatePyproject | update.py:60-83 | something is written exactly when the file exists and the rewrite made a substitution, and then the rewritten text is written |
| RelativeImports.KnownModulesAreNames | update.py:17-21 | every known module is a non-empty word not starting with `f` |
| RelativeImports.ModuleAt | update.py:112-118 | the alternative found is a module of the list, present at the position and followed by a word boundary; when none is found, no module of the list is present followed by a boundary |
| RelativeImports.ModuleAtIff | update.py:112-118 | for word-shaped module names, the first alternative that matches is the only one, so the alternation order does not matter |
| RelativeImports.BoundedMatchUnique | update.py:118 | two module names that both match at one position, each followed by a word boundary, are equal |
| RelativeImports.ImportAt | update.py:117-120 | the pattern tried at one position: a match needs a line start and reports a module position preceded by white space; ImportAtIff gives its full meaning |
| RelativeImports.FromAt | update.py:118 | a match from a given position has `from` there, only white space (at least one character) between it and the module, and at the module position the alternation picks exactly the module text the match reports |
| RelativeImports.ImportAtIff | update.py:117-120 | the scanner matches at a line start exactly when the line reads white space, `from`, at least one white space character, and a listed module ending on a word boundary |
| RelativeImports.NoLineNoImport | update.py:117-120 | a text without a line feed that does not start a line gets no substitution |
| RelativeImports.Fix | update.py:127 | the output is longer than the input by the substitution count; with no substitution the output is the input |
| RelativeImports.FixInsertsDots | update.py:125-127 | the output is the input with one dot inserted at each match site and nothing else changed; the count is the number of sites |
| RelativeImports.DotSitesIncreasing | update.py:127 | the positions where a pass inserts its dots are strictly increasing |
| RelativeImports.DotSitesAreImports | update.py:117-127 | every inserted dot stands before a listed module on a `from` line that the regular expression matches |
| RelativeImports.FixIdempotent | update.py:117-127 | a second pass over the output makes no substitution |
| RelativeImports.FixAll | update.py:111-127 | the pass with the package's modules is the file with one dot inserted at each of its import sites, and counts those sites |
| RelativeImports.FixAllIdempotent | update.py:111-127 | with the known modules, the fix applied to its own output makes no substitution and returns that output |
| RelativeImports.FromLineKnown | update.py:117-127 | `from <m>...` on one line, with `m` a listed module, becomes `from .<m>...` with one substitution |
| RelativeImports.FromLineUnknown | update.py:114-120 | `from <w>...` with `w` not a listed module is left alone, even when a listed module is a prefix of `w` |
| RelativeImports.SimilarPrefixUntouched | update.py:114-118 | `from generators import x` is not rewritten |
| RelativeImports.KnownModuleRewritten | update.py:125-127 | `from generator import x` becomes `from .generator import x` with one substitution |
| RelativeImports.PatchedCount | update.py:122-130 | the number of files whose pass makes a substitution, at most the number of files; FixRelativeImports proves the loop's `file_count` equals it, and NothingPatchedIff that it is zero exactly when no file changes |
| RelativeImports.WriteBack | update.py:127-129 | a file is written exactly when its pass changes its text, and then with the new text |
| RelativeImports.FixRelativeImports | update.py:122-131 | the loop writes back exactly the files whose pass made a substitution, with the new text, and counts exactly those |
| RelativeImports.NothingPatchedIff | update.py:128-134 | no file is counted (the "No files needed import patching" case) exactly when no file's text changes |
| RelativeImports.SecondRunPatchesNothing | update.py:122-130 | after the files have been written back, a second run counts no file |

## Left out

- Reading and writing files is left out, and so is the `FileNotFoundError` for a missing `vk.xml` (update.py:27-31). Texts are parameters, and writes are results.
- `copy_registry_files` (update.py:87-102) is not modelled. It is pure file-system copying.
- `main` (update.py:138 onwards) is not modelled. It is argument parsing and sequencing of the steps above.
- Every `print` is left out, progress and warning messages alike.
- The order in which `glob("*.py")` visits the files is not modelled. The loop takes the files as a sequence in whatever order they come.
- Python's default `\s`, `\d` and `\w` are modelled only on ASCII characters: on characters beyond ASCII (Unicode white space, digits and letters) the model's classes say no. There is no encoding or decoding of bytes.
- PyprojectVersion.UpdatePyproject: the replacement template puts the version into the output literally. Python would interpret backslash escapes and group references inside it. The version that `get_vulkan_header_version` produces consists only of digits and dots (HeaderVersion.VersionIsDigitsAndDots), and for such a version the two readings agree.
- PyprojectVersion.EveryLineHoldsVersion, PyprojectVersion.OnlyValuesChange and PyprojectVersion.SubnIdempotent assume the new version contains no line feed. That holds for every version the header transform produces.
- RelativeImports.FixRelativeImports takes the module list as a parameter and requires its entries to be word-shaped names (ModuleNames). The tool always passes `KNOWN_MODULES`, which is `KnownModules` here and meets that condition (KnownModulesAreNames). For a name ending in a line feed the pass would not be `re.subn`, since it resumes after a match as not at a line start.
- RelativeImports.DotSites: the list is not proved to contain every position where the regular expression matches. What is proved is that its positions are strictly increasing (RelativeImports.DotSitesIncreasing), that each is such a match site (RelativeImports.DotSitesAreImports), that the output is the input with exactly these dots inserted (RelativeImports.FixInsertsDots), and that no match is left in the output (RelativeImports.FixIdempotent).
