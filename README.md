# ember-cli-dependency-checker: the npm dependency check, modelled in Dafny

ember-cli-dependency-checker compares the dependencies an Ember CLI project
declares in its `package.json` with the packages installed under
`node_modules`, and reports every declared dependency that is missing or whose
installed version does not meet the declared specifier. Its unit suite
`tests/unit/dependency-checker-npm-test.js` drives the checker engine
(`lib/dependency-checker`) through one fixture project with `ember-cli` 1.2.3
installed, and one fixture whose install directory is a sibling of its `app`
root.

The engine's own source is not part of this model. The model is the decision
procedure that suite fixes, written as a verified specification, with every
test case as a lemma about it:

- `Text`: first-occurrence search, prefixes, splitting on spaces, and decimal
  numerals (canonical, no leading zero) with a proved round trip.
- `Semver`: versions in the normal form `X.Y.Z` of Semantic Versioning 2.0.0
  (section 2), precedence (section 11), and the range forms the suite uses: a
  bare version, the comparators `>`, `>=`, `<`, `<=`, `=`, a space-separated
  conjunction of terms, the caret `^X.Y.Z` and the x-range `X.Y.x`.
- `Specifiers`: the classification of a declared specifier as the wildcard
  `*`, a download URL (`http://`, `https://`), a `git://` repository reference
  whose ref after `#` may be a version tag (with an optional `v`), a local path
  (`~/`, `./`, `../`, `/`), or otherwise a range kept verbatim.
- `Evaluation`: the verdict on one dependency. The wildcard, download URLs,
  local paths and refs that are not version tags are trusted and never
  reported, even if the package is absent. Every other specifier is reported
  as not installed when the package is absent, and as a version mismatch when
  the installed version text is not a version the specifier accepts.
- `Resolution`: an install directory as a map from package name to the
  version text of that package's manifest; the directories searched are the
  project root's own `node_modules` and then, when given, the explicit
  `nodeModulesPath`.
- `Checker`: the sweep over the declared dependencies in declaration order
  (a loop, proved equal to the recursive `Failures`), and the checker class
  whose `alreadyChecked` flag makes a check run at most once until it is
  cleared with `SetAlreadyChecked(false)`.
- `Scenarios`: each `it(...)` of the suite as a lemma stating the exact list
  of failures the sweep returns for the fixture.

## Model

| member | source | states |
|---|---|---|
| `Semver.VersionRoundTrip` | tests/unit/dependency-checker-npm-test.js:56-59 | the text of any version parses back to that version |
| `Semver.ParseVersionIff` | tests/unit/dependency-checker-npm-test.js:34-37 | a text parses to a version exactly when it is that version's text, so each version has one text |
| `Semver.LessIsStrictTotalOrder` | tests/unit/dependency-checker-npm-test.js:39-42 | version precedence is irreflexive, transitive, asymmetric and total |
| `Semver.ExactRangeMeaning` | tests/unit/dependency-checker-npm-test.js:56-59 | the range written as a bare version accepts exactly that version |
| `Semver.ComparatorRangeMeaning` | tests/unit/dependency-checker-npm-test.js:61-64 | the range `<op><version>` accepts exactly the versions that stand in that relation to the bound |
| `Semver.ConjunctionMeaning` | tests/unit/dependency-checker-npm-test.js:39-42 | a term, a space and the rest of a range accept exactly the versions both the term and the rest accept, so a range of any number of terms is their conjunction |
| `Semver.CaretRangeMeaning` | tests/unit/dependency-checker-npm-test.js:66-69 | `^b` accepts exactly the versions at or above `b` that keep its leftmost non-zero part |
| `Semver.XRangeMeaning` | tests/unit/dependency-checker-npm-test.js:44-47 | `M.m.x` accepts exactly the versions with major `M` and minor `m` |
| `Specifiers.ClassifyWildcard` | tests/unit/dependency-checker-npm-test.js:86-89 | `*` is the wildcard |
| `Specifiers.ClassifyDownloadUrl` | tests/unit/dependency-checker-npm-test.js:71-74 | every `http://` and `https://` specifier is a download URL |
| `Specifiers.ClassifyLocalPath` | tests/unit/dependency-checker-npm-test.js:81-84 | every specifier starting `~/`, `./`, `../` or `/` is a local path |
| `Specifiers.RefOf` | tests/unit/dependency-checker-npm-test.js:49-52 | a repository URL names a ref exactly when it contains `#` |
| `Specifiers.ClassifyRepository` | tests/unit/dependency-checker-npm-test.js:49-52 | `git://repo#ref` is a repository reference whose ref is the text after `#` |
| `Specifiers.ClassifyTaggedRef` | tests/unit/dependency-checker-npm-test.js:49-52 | a ref that is a version's text, with or without a leading `v`, carries that version |
| `Specifiers.ParseTagIff` | tests/unit/dependency-checker-npm-test.js:49-52 | a ref reads as version `v` exactly when it is `v`'s text with or without a leading `v`; every other ref is not a version tag |
| `Specifiers.ClassifyBranchRef` | tests/unit/dependency-checker-npm-test.js:76-79 | a ref that is not a version tag carries no version |
| `Specifiers.ClassifyRangeText` | tests/unit/dependency-checker-npm-test.js:39-42 | a specifier starting with a digit or one of `^<>=` is a range kept verbatim |
| `Evaluation.Evaluate` | tests/unit/dependency-checker-npm-test.js:29-32 | a dependency is reported as not installed exactly when it is checkable and its package is absent; a mismatch carries the installed version text |
| `Evaluation.WildcardNeverReported` | tests/unit/dependency-checker-npm-test.js:86-89 | `*` is satisfied whatever is installed, or if nothing is |
| `Evaluation.DownloadUrlNeverReported` | tests/unit/dependency-checker-npm-test.js:71-74 | a download URL is satisfied whatever is installed, or if nothing is |
| `Evaluation.LocalPathNeverReported` | tests/unit/dependency-checker-npm-test.js:81-84 | a local path (`~/`, `./`, `../`, `/`) is satisfied whatever is installed, or if nothing is |
| `Evaluation.BranchRefNeverReported` | tests/unit/dependency-checker-npm-test.js:76-79 | a repository ref that is not a version tag is satisfied whatever is installed |
| `Evaluation.TaggedRefIsExact` | tests/unit/dependency-checker-npm-test.js:49-52 | a version-tag ref is satisfied exactly when that version's text is installed, and reports a missing package as not installed |
| `Evaluation.ExactRangeVerdict` | tests/unit/dependency-checker-npm-test.js:56-59 | a bare-version range is satisfied exactly when that version's text is installed |
| `Evaluation.ExactVersionIsEquality` | tests/unit/dependency-checker-npm-test.js:34-37 | a bare version specifier is satisfied only by equality, and a missing package is not installed |
| `Evaluation.RangeVerdict` | tests/unit/dependency-checker-npm-test.js:61-64 | a range is satisfied exactly when the installed text is a version inside it |
| `Resolution.SearchRoots` | tests/unit/dependency-checker-npm-test.js:94-99 | the root's install directory is searched first, and the explicit `nodeModulesPath` second exactly when one is given |
| `Resolution.Resolve` | tests/unit/dependency-checker-npm-test.js:29-32 | a package is absent exactly when no searched directory holds it; otherwise its version comes from the first directory that does |
| `Resolution.PrimaryRootWins` | tests/unit/dependency-checker-npm-test.js:13-18 | a package under the project root is resolved there |
| `Resolution.SiblingRootFallback` | tests/unit/dependency-checker-npm-test.js:92-101 | a package only in the explicit `nodeModulesPath` is resolved there |
| `Resolution.AbsentEverywhere` | tests/unit/dependency-checker-npm-test.js:29-32 | a package in no searched directory is absent |
| `Checker.Failures` | tests/unit/dependency-checker-npm-test.js:28-53 | the sweep reports no more failures than dependencies, and never a satisfied one |
| `Checker.FailuresAppend` | tests/unit/dependency-checker-npm-test.js:30-31 | sweeping a concatenation reports the failures of each part, in order |
| `Checker.FailuresExactly` | tests/unit/dependency-checker-npm-test.js:28-53 | a failure is reported exactly for each declared dependency whose verdict is not satisfied, with that verdict |
| `Checker.NoFailuresIffAllSatisfied` | tests/unit/dependency-checker-npm-test.js:55-90 | the sweep reports nothing exactly when every declared dependency is satisfied |
| `Checker.Sweep` | tests/unit/dependency-checker-npm-test.js:29-32 | the loop over the declared dependencies returns exactly `Failures` of them |
| `Checker.DependencyChecker.constructor` | tests/unit/dependency-checker-npm-test.js:8-11 | a new checker has not checked yet |
| `Checker.DependencyChecker.SetAlreadyChecked` | tests/unit/dependency-checker-npm-test.js:10 | the flag takes the given value |
| `Checker.DependencyChecker.CheckDependencies` | tests/unit/dependency-checker-npm-test.js:9-11 | a check after a check reports nothing; a first check sweeps the declared dependencies against the project's install directories; the flag is set afterwards |
| `Checker.ResetThenCheck` | tests/unit/dependency-checker-npm-test.js:9-11 | clearing the flag and checking always gives a fresh sweep |
| `Checker.CheckTwiceThenReset` | tests/unit/dependency-checker-npm-test.js:9-11 | without a reset a second check reports nothing, and after a reset the same check sweeps again |
| `Scenarios.ReportsMissingPackage` | tests/unit/dependency-checker-npm-test.js:29-32 | with `foo` 0.1.1 and `ember-cli` 1.2.3 declared, only `foo` is reported, as not installed |
| `Scenarios.ReportsVersionMismatch` | tests/unit/dependency-checker-npm-test.js:34-37 | `ember-cli` 0.1.1 is reported as a mismatch with 1.2.3 |
| `Scenarios.ReportsRangeMismatch` | tests/unit/dependency-checker-npm-test.js:39-42 | `>1.3.2 <=2.3.4` is reported as a mismatch with 1.2.3 |
| `Scenarios.ReportsIncompatibleXRange` | tests/unit/dependency-checker-npm-test.js:44-47 | `0.2.x` is reported as a mismatch with 1.2.3 |
| `Scenarios.ReportsTaggedRefMismatch` | tests/unit/dependency-checker-npm-test.js:49-52 | `git://github.com/stefanpenner/ember-cli.git#v0.1.0` is reported as a mismatch with 1.2.3 |
| `Scenarios.AcceptsExactMatch` | tests/unit/dependency-checker-npm-test.js:56-59 | `ember-cli` 1.2.3 is not reported |
| `Scenarios.AcceptsSatisfiedComparator` | tests/unit/dependency-checker-npm-test.js:61-64 | `>1.0.0` is not reported |
| `Scenarios.AcceptsCompatibleCaret` | tests/unit/dependency-checker-npm-test.js:66-69 | `^1.2.0` is not reported |
| `Scenarios.AcceptsDownloadUrl` | tests/unit/dependency-checker-npm-test.js:71-74 | `http://ember-cli.com/ember-cli.tar.gz` is not reported |
| `Scenarios.AcceptsBranchRef` | tests/unit/dependency-checker-npm-test.js:76-79 | `git://github.com/stefanpenner/ember-cli.git#master` is not reported |
| `Scenarios.AcceptsLocalPath` | tests/unit/dependency-checker-npm-test.js:81-84 | `~/projects/ember-cli` is not reported |
| `Scenarios.AcceptsWildcard` | tests/unit/dependency-checker-npm-test.js:86-89 | `*` is not reported |
| `Scenarios.SiblingNodeModulesChecked` | tests/unit/dependency-checker-npm-test.js:92-101 | with an empty root and `ember-cli` installed in the explicit sibling `node_modules`, `ember-cli` resolves to the sibling's version and `*` is not reported |
| `Scenarios.SiblingVersionChecked` | tests/unit/dependency-checker-npm-test.js:92-101 | in the sibling layout the sibling's installed version is the one checked: an exact `0.1.1` is reported exactly when the sibling holds another version text, with that text |

## Left out

- `lib/dependency-checker` is not part of this model: its behaviour is taken from the suite, and behaviour the suite does not fix is a modelling choice stated in this file.
- Reading `package.json` files from disk and building fixture projects (`tests/helpers/project-builder`): an install directory is a map from name to version text, and the declared dependencies are a sequence in declaration order.
- The mocha harness and the `assertError` / `assertNoError` helpers, which inspect thrown errors and printed output; the model returns the list of failures, and the message text and formatting are not modelled.
- The full node-semver range grammar, which comes from a library outside the repository: prerelease and build parts, tilde and hyphen ranges, partial versions (`1.x`, `1.2`), `||` unions, a `v` before a range's version or an `=` after another operator, loose parsing, and a space between an operator and its version (`>= 1.2.3`, which the model splits into the unreadable term `>=` and the version). Runs of spaces between terms, and spaces before the first or after the last term, are read. The model reads a range it cannot read as one no version satisfies, so it reports `~1.2.0`, `1.x`, `1.2`, `1.0.0 || 2.0.0`, `v1.2.3` or `>= 1.2.3` as a version mismatch against every installed version, where the program's semver library would accept matching versions.
- Repository URL forms other than `git://` (`git+ssh://`, `git+https://`, host shorthands such as `user/repo`): they are read as ranges. A `git://` URL without a `#` ref carries neither ref nor version, so it is trusted and never reported.
- Specifiers.ParseTag: a ref with a prerelease or build part, such as `#v1.0.0-rc.1` or `#v1.0.0+build`, is not read as a version tag, so the model trusts it like a branch and never reports it, whatever is installed.
- The bower check and every other package ecosystem.
- Resolution.SearchRoots: the suite's sibling case cannot tell whether an explicit `nodeModulesPath` replaces the root's install directory or is searched after it; the model searches the root's `node_modules` first and the explicit `nodeModulesPath` second.
- Evaluation.Trusted: the suite does not fix whether a package that is absent is reported when its specifier is `*`, a download URL, a local path or a repository ref that is not a version tag; the model chooses not to report it.
- Checker.DependencyChecker: the engine's flag is module-wide state shared by every checker; the model keeps it as a field of one checker object.
- Checker.Sweep: the per-dependency verdict is passed in as a function value, which the checker fixes to resolving and evaluating against the project's install directories.
