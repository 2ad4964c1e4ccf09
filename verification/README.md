# py_test_switcher: a verified model of the counterpart-file matcher

`plugin/py_test_switcher.py` is a Vim plugin. It switches between a Python
module and its tests. Given the path of the open file, it proposes related
paths: the test module for a source module, the package `__init__.py` for a
package test, and so on. It then picks one of them by looking at what exists
on disk.

This project models the matcher in Dafny, in three layers that follow the
source:

- **`Templates`** (`templates.dfy`) models `pattern2regex` and the behaviour of
  the regular expression it builds. A template is a literal with `%`
  wildcards. It compiles to `(^|/) prefix ([^/]+) suffix' $`:
  - `Compile` splits the template at its first `%`. The first `%` becomes the
    capture group.
  - Every later `%` becomes `\1`, a back-reference to the *boundary* group
    `(^|/)`. It does not refer to the capture. The model keeps this exactly as
    written (`Closing`).
  - `Match` is the regex match, stated as a predicate on strings rather than
    computed by an engine. `IsMatch` holds when the filename is a head, a
    boundary (`""` at position 0, or a `/`), the prefix, a non-empty capture
    without `/`, and the closing literal, running to the end of the string.
  - `Search` is `re.search`: the first such match in the engine's order. Start
    positions go left to right, and at position 0 the `^` alternative is tried
    before the `/` one. `IsLeftmost` states this order and `LeftmostUnique`
    proves that it fixes the match.
- **`Switcher`** (`switcher.dfy`) models the rule table `Patterns`,
  `try_match` (`TryMatch`), `find_all_matches` (`FindAllMatches`, a loop that
  appends, proved against `Candidates`), and `find_best_match`
  (`FindBestMatch` and `PickFrom`, the two counting loops, proved against
  `Pick(Ranked(...))`).
  - The file system enters only through two oracles: `pathExists` stands for
    `os.path.exists(match)`, and `parentExists` for
    `os.path.exists(os.path.dirname(match))`.
- **`Examples`** (`examples.dfy`) states what the table's rules do on
  filenames of a given shape. Most examples hold for every directory `d` and
  every component name `n` without a `/`: module to test, test to module
  and back (a round trip), package to test, the self-rewrite rejection, and
  the package test that has no way back. `DotIsLiteral` holds for every
  filename that does not end in `.py`. `InitToTests` and
  `DuplicateCandidates` hold for every directory `d`. `BoundaryBackReference`
  holds for every relative filename `n/tests/test_.py` with `n` non-empty
  and without a `/`.
- **`Options`** (`options.dfy`) holds the `Option` type that stands for `None`.

Three consequences of the code are worth stating on their own:

- The module rule `('%.py', 'tests/test_%.py')` round-trips: its reverse
  maps the test module back to the module (`Examples.ModuleTestRoundTrip`).
- The package rule `('%/__init__.py', '%/tests/test_%.py')` does not. In the
  reversed rule, the second `%` of the source template reads as the
  boundary (empty or `/`), not as the captured name. So a package's test
  module `d/n/tests/test_n.py` is never mapped back
  (`Examples.PackageTestNoReturn`). Instead, `n/tests/test_.py` maps to
  `n/__init__.py` (`Examples.BoundaryBackReference`).
- A pair with a `%` on one side only is blocked only in the direction whose
  source template lacks the `%` (`SynthesizesWildcard`). The other direction
  does produce candidates, for example `%.py -> tests.py`
  (`Examples.ModuleToTestsFile`).

## Model

| member | source | states |
|---|---|---|
| Switcher.Patterns | plugin/py_test_switcher.py:13-33 | the fifteen rules, in the order they are tried; `Examples.DuplicateCandidates` and the other examples use its entries |
| Templates.FirstIndex | plugin/py_test_switcher.py:37 | the position of the first `%`, or the length of the template when there is none; no `%` before it |
| Templates.FirstIndexIsFirst | plugin/py_test_switcher.py:37 | a `%` at `k` with none before it is the one `index` finds |
| Templates.Subst | plugin/py_test_switcher.py:38-39 | `t.replace('%', x)`, also applied to the replacement at :53; its properties are `SubstLiteral`, `SubstChars` and `SubstConcat` |
| Templates.Compile | plugin/py_test_switcher.py:35-40 | the compiled template has a capture exactly when the template has a `%`, has no `%` before the capture, and reassembles to the template |
| Templates.CompileSource | plugin/py_test_switcher.py:36-39 | compiling is the inverse of reassembling, on every well-formed compiled template |
| Templates.SubstLiteral | plugin/py_test_switcher.py:53 | a replacement without `%` is left unchanged |
| Templates.SubstChars | plugin/py_test_switcher.py:53 | the rewritten replacement holds the template's non-`%` characters, and the capture's characters only if the template has a `%` |
| Templates.SubstConcat | plugin/py_test_switcher.py:53 | replacing `%` distributes over concatenation |
| Templates.MatchIsSplit | plugin/py_test_switcher.py:38-40 | a match splits the filename into the untouched head, the boundary, the prefix, a non-empty capture without `/`, and the closing literal, up to the end of the string |
| Templates.HeadSepAfter | plugin/py_test_switcher.py:38 | a filename is its head, the boundary text, and what follows the boundary |
| Templates.SplitIsMatch | plugin/py_test_switcher.py:38-40 | every such split is a match (the converse) |
| Templates.MatchEndsWith | plugin/py_test_switcher.py:40 | the `$` anchor: a match ends with the closing literal, or with the whole literal when there is no `%` |
| Templates.LeftmostUnique | plugin/py_test_switcher.py:49 | the engine's order picks one match: two first matches are equal |
| Templates.SearchFrom | plugin/py_test_switcher.py:49 | the scan from a position finds a match at or after it, with no `/` match between; when it finds none, there is none at or after it |
| Templates.Search | plugin/py_test_switcher.py:49 | `rx.search` returns the first match in engine order, or nothing exactly when there is no match |
| Switcher.TryMatch | plugin/py_test_switcher.py:43-58 | never proposes the filename itself, and never proposes anything when the replacement has a `%` that the source template lacks |
| Switcher.TryMatchOfLeftmost | plugin/py_test_switcher.py:46-57 | with the first match of the source template, the result is nothing if a `%` would be synthesised or if the rewrite gives the filename back; otherwise it is head + boundary + the replacement with its `%` filled |
| Switcher.TryMatchWithoutMatch | plugin/py_test_switcher.py:48-50 | no match of the source template gives no candidate |
| Switcher.Rewrite | plugin/py_test_switcher.py:53-54 | `rx.sub` on the match keeps the head before the match and puts the boundary back before the filled replacement |
| Switcher.CandidateShape | plugin/py_test_switcher.py:53-54 | every candidate is the head + boundary + filled replacement of a first match, with a capture that is non-empty and has no `/`; a source without `%` comes with a replacement without `%` |
| Switcher.Attempts | plugin/py_test_switcher.py:62-65 | two attempts per rule |
| Switcher.AttemptsAt | plugin/py_test_switcher.py:63-65 | attempt 2i is rule i forward and attempt 2i+1 is rule i reversed |
| Switcher.AttemptsStep | plugin/py_test_switcher.py:64-65 | one more rule appends its forward and reverse attempts |
| Switcher.Successes | plugin/py_test_switcher.py:66 | `filter(None, ...)` keeps at most as many results as it is given; with `SuccessesMember` and `SuccessesCount`, exactly the present, non-empty ones, each as often as produced, in order |
| Switcher.SuccessesMember | plugin/py_test_switcher.py:66 | `filter(None, ...)` keeps exactly the present, non-empty results |
| Switcher.SuccessesCount | plugin/py_test_switcher.py:66 | filtering removes no duplicate: each kept string occurs as often as it was produced |
| Switcher.FindAllMatches | plugin/py_test_switcher.py:61-66 | the appending loop returns the filtered attempts of the whole table, in order |
| Switcher.CandidatesBound | plugin/py_test_switcher.py:61-66 | at most two candidates per rule |
| Switcher.CandidatesOfSound | plugin/py_test_switcher.py:63-66 | every kept candidate is non-empty and comes from some rule, forward or reversed |
| Switcher.CandidatesOfComplete | plugin/py_test_switcher.py:63-66 | every non-empty rewrite by a rule, forward or reversed, is kept |
| Switcher.CandidatesMember | plugin/py_test_switcher.py:61-66 | a string is a candidate exactly when it is non-empty and some table rule, forward or reversed, produces it |
| Switcher.CountTwo | plugin/py_test_switcher.py:66 | helper for `DuplicatesKept`: a value at two positions of a sequence is counted twice |
| Switcher.DuplicatesKept | plugin/py_test_switcher.py:61-66 | two rules that propose the same candidate put it in the list twice |
| Switcher.Keep | plugin/py_test_switcher.py:72-73 | one pass of `find_best_match` keeps at most as many candidates as it is given; with `KeepMember`, exactly those the oracle accepts, in order (the second pass at :79-80 is the same with the parent oracle) |
| Switcher.KeepMember | plugin/py_test_switcher.py:72-73 | one pass counts exactly the candidates the oracle accepts |
| Switcher.KeepPrefix | plugin/py_test_switcher.py:72-73 | what a pass has counted so far is a prefix of what the whole pass counts |
| Switcher.KeepStep | plugin/py_test_switcher.py:73-74 | the next candidate is counted exactly when the oracle accepts it |
| Switcher.Ranked | plugin/py_test_switcher.py:72-85 | the order in which the two passes count: the existing candidates, then the candidates whose parent exists; `RankedMember` and `CountedTwice` state its contents |
| Switcher.RankedMember | plugin/py_test_switcher.py:72-85 | a candidate is counted exactly when it exists or its parent directory exists |
| Switcher.Pick | plugin/py_test_switcher.py:74-87 | the result of the shared countdown: nothing exactly when nothing is counted, and otherwise a counted candidate |
| Switcher.PickInFirstPass | plugin/py_test_switcher.py:73-76 | when the first pass brings the counter to zero at a candidate, that candidate is the `nth` counted one |
| Switcher.PickInSecondPass | plugin/py_test_switcher.py:80-83 | the same for the second pass, which continues the count of the first |
| Switcher.PickFallback | plugin/py_test_switcher.py:86-87 | helper for `PickFrom`: when the countdown never reaches zero, the result is the last counted candidate, or nothing |
| Switcher.PickFrom | plugin/py_test_switcher.py:71-87 | the two loops with the shared countdown return the `nth` of the existing candidates followed by the candidates with an existing parent; otherwise the last counted one, or nothing |
| Switcher.FindBestMatch | plugin/py_test_switcher.py:69-87 | `find_best_match` ranks the candidates of `find_all_matches` as above |
| Switcher.PickIsCandidate | plugin/py_test_switcher.py:69-87 | any result is one of the candidates |
| Switcher.KeepNone | plugin/py_test_switcher.py:72-73 | a pass over candidates none of which qualifies counts nothing |
| Switcher.KeepFirst | plugin/py_test_switcher.py:72-76 | the first qualifying candidate is counted first |
| Switcher.FirstExistingWins | plugin/py_test_switcher.py:72-76 | with `nth` = 1, the first existing candidate is returned |
| Switcher.ExistingPreferred | plugin/py_test_switcher.py:72-76 | while enough candidates exist, the result is an existing one |
| Switcher.PickNone | plugin/py_test_switcher.py:71-87 | nothing is returned exactly when no candidate exists and no candidate's parent exists |
| Switcher.CountedTwice | plugin/py_test_switcher.py:72-85 | a candidate that exists and whose parent exists is counted in both passes, so it occurs at least twice in the counting order |
| Switcher.OnlyCandidateTwice | plugin/py_test_switcher.py:72-85 | as the only candidate, such a file is counted first and second, so `nth` = 2 returns it |
| Examples.SubstOne | plugin/py_test_switcher.py:53 | a replacement with one `%` puts the capture in its place |
| Examples.SubstLeading | plugin/py_test_switcher.py:53 | a replacement that starts with its only `%` is the capture followed by the literal rest |
| Examples.SubstTwo | plugin/py_test_switcher.py:53 | a replacement with two `%` puts the capture in both places |
| Examples.SlashInCapture | plugin/py_test_switcher.py:38 | no match can start where a `/` would fall inside the capture |
| Examples.SlashInSpan | plugin/py_test_switcher.py:38 | `[^/]+` rejects a capture span that holds a `/` |
| Examples.PrefixDiffers | plugin/py_test_switcher.py:40 | no match can start where the filename differs from the template's leading literal |
| Examples.LastComponentMatch | plugin/py_test_switcher.py:38-40 | a template of a `%` followed by a literal matches the last component at the `/` before it |
| Examples.ComponentMatch | plugin/py_test_switcher.py:38-40 | a template of a literal, a `%` and a literal matches at the `/` before the literal, capturing the name between the literals |
| Examples.LastComponentLeftmost | plugin/py_test_switcher.py:49 | that match is the first one |
| Examples.LeadingWildcardRule | plugin/py_test_switcher.py:43-58 | such a rule keeps the directory and rewrites the last component, unless the result is the filename itself |
| Examples.TestModuleName | plugin/py_test_switcher.py:15 | `tests/test_%.py` filled with a name |
| Examples.ModuleToTest | plugin/py_test_switcher.py:15 | `d/n.py` gives `d/tests/test_n.py` (for example, `/proj/foo.py` gives `/proj/tests/test_foo.py`) |
| Examples.PackageTestName | plugin/py_test_switcher.py:14 | `%/tests/test_%.py` filled with a name |
| Examples.PackageToTest | plugin/py_test_switcher.py:14 | `d/n/__init__.py` gives `d/n/tests/test_n.py` (for example, `/proj/pkg/__init__.py` gives `/proj/pkg/tests/test_pkg.py`) |
| Examples.ModuleToTestsFile | plugin/py_test_switcher.py:55-57 | `%.py -> tests.py` gives `d/tests.py` for every module except `tests.py` itself (for example, `/a/tests.py` is rejected) |
| Examples.SameTestsFile | plugin/py_test_switcher.py:55-57 | `d/tests.py` is the filename `d/n.py` exactly when `n` is `tests`, which is what the guard compares |
| Examples.DotIsLiteral | plugin/py_test_switcher.py:40 | `%.py` matches nothing that does not end in `.py`: the dot is escaped |
| Examples.TestToModule | plugin/py_test_switcher.py:65 | the reverse of the module rule: `d/tests/test_n.py` gives `d/n.py` |
| Examples.TestDirectoryRule | plugin/py_test_switcher.py:43-58 | `tests/test_%` with a literal keeps what comes before the last two components and rewrites them |
| Examples.TestDirectoryMatch | plugin/py_test_switcher.py:38-40 | that template matches at the `/` before `tests/` |
| Examples.TestDirectoryLeftmost | plugin/py_test_switcher.py:49 | that match is the first one |
| Examples.EarlierBlocked | plugin/py_test_switcher.py:40 | no earlier start matches `tests/test_` |
| Examples.BackReferenceRule | plugin/py_test_switcher.py:39 | a second `%` in a source template reads as the boundary text, which is empty at the start of the filename |
| Examples.BackReferenceLeftmost | plugin/py_test_switcher.py:39-40 | a first-component capture then matches at position 0 |
| Examples.PackageInitName | plugin/py_test_switcher.py:14 | `%/__init__.py` filled with a name |
| Examples.BoundaryBackReference | plugin/py_test_switcher.py:14 | reversed rule 1 maps `n/tests/test_.py` to `n/__init__.py` |
| Examples.TwoWildcardsNoMatch | plugin/py_test_switcher.py:39-40 | a two-`%` template matches only a filename that ends with its closing literal read with an empty or a `/` boundary |
| Examples.TwoWildcardClosings | plugin/py_test_switcher.py:39 | the closing literal of a two-`%` template reads its second `%` as the boundary text, empty or `/` |
| Examples.PackageTestNoReturn | plugin/py_test_switcher.py:14 | reversed rule 1 gives no candidate for any `d/n/tests/test_n.py`, so there is no round trip |
| Examples.PackageTestEnding | plugin/py_test_switcher.py:39 | a package's test module ends with neither `/tests/test_.py` nor `/tests/test_/.py` |
| Examples.TestNameEndings | plugin/py_test_switcher.py:39 | `/tests/test_n.py` ends with neither `/tests/test_.py` nor `/tests/test_/.py` for a non-empty `n` without `/` |
| Examples.EndsWithWithin | plugin/py_test_switcher.py:40 | helper for `PackageTestEnding`: whether a string ends with a literal is decided by any longer ending it is known to have |
| Examples.LiteralRule | plugin/py_test_switcher.py:43-58 | a rule without `%` rewrites the literal last part after a `/` |
| Examples.LiteralLeftmost | plugin/py_test_switcher.py:40 | a literal template matches only as the whole part after one `/` |
| Examples.InitToTests | plugin/py_test_switcher.py:21 | `d/__init__.py` gives `d/tests.py` |
| Examples.DuplicateCandidates | plugin/py_test_switcher.py:20-21 | for `d/__init__.py`, rules 7 and 8 both propose `d/tests.py`, and the candidate list holds it twice |
| Examples.ModuleTestRoundTrip | plugin/py_test_switcher.py:63-65 | rule 2 forward and then reversed gives the module back |

## Left out

- `switch_code_and_test` and the `vim` module (plugin/py_test_switcher.py:90-103) are editor I/O. The model starts at `find_best_match`, which takes the filename and `nth` as parameters.
- `os.path.exists` and `os.path.dirname` (plugin/py_test_switcher.py:73, 80) are file-system and library calls. They become the oracle parameters `pathExists` and `parentExists` of `FindBestMatch`.
- The `DEBUG` flag and the `print` diagnostics (plugin/py_test_switcher.py:11, 44-45, 51-52, 56) only write to the screen, so they are not modelled.
- The general regular-expression engine is not modelled. Only the shape `pattern2regex` builds is:
  - Regex metacharacters other than `.` are not escaped by the source. No template in the table contains any, so the model treats every character other than `%` as a literal.
  - Python's `$` also matches before a trailing newline. The model assumes filenames hold no newline.
- The replacement string is not parsed as a regex template. A backslash in a replacement, or a digit right after a `%` or at its start, would change the group references. No template in the table has one.
- A digit right after a second `%` of a source template would likewise turn its `\1` into another group reference. No template in the table has one, so the model reads every later `%` as `\1`.
- FindBestMatch: the default `nth=1` of `find_best_match` (plugin/py_test_switcher.py:69) is not modelled, because Dafny has no default arguments; callers pass `nth`, and `FirstExistingWins` states the `nth` = 1 case.
- The docstring that makes the file sourceable by Vim (plugin/py_test_switcher.py:1-5) is not program logic.
