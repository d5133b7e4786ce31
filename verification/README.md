# Versioning gate: a verified model

This project models the decision logic of `Scripts/validate_versioning.py`, a continuous-integration
gate for the version record `Docs/version.json` (`{"marketing_version": "x.y.z", "build_number": n}`).
The gate validates the working copy's record. It then resolves a baseline reference and compares the
record with the one at that baseline. A `release` label on the pull request demands a version bump.
The run passes or fails on the first violation it meets.

Git queries, file reads, environment lookups and printing are replaced by the values they produce.
The gate then becomes a pure function from those values to a `Verdict`. Modules follow the script's parts:

- `Json` (`json.dfy`): decoded JSON values. It also gives Python truthiness, hashability and `isinstance(x, int)`, under which `true` counts as an int.
- `Text` (`text.dfy`): `int()` and `str()` on decimal numerals, and `str.split`, with their round-trips.
- `Semver` (`semver.dfy`): `SEMVER_RE` as a scanner, `semver_tuple`, rendering back to `x.y.z`, and Python's tuple order. The pattern's end anchor comes in two readings, chosen by an `Anchoring` value:
  - `Dollar` is Python's `$` as written, which also matches just before a final newline (`Matches`);
  - `WholeString` is the whole-string match the pattern intends (`FullMatches`).
- `Payload` (`payload.dfy`): `validate_payload` and its six ordered checks, under either anchoring.
- `Labels` (`labels.dfy`): `parse_labels_from_event` and release intent.
- `BaseRef` (`base_ref.dfy`): `resolve_base_ref`.
- `Gate` (`gate.dfy`): `main`. `Decide` is the rule sequence over already-read inputs. `Run` is the whole run over an `Environment` of collaborator answers. With the `Dollar` anchoring, `Run` is the script as written.
- `Scenarios` (`scenarios.dfy`): six concrete runs of the gate, each under either anchoring. They cover no baseline, an unchanged file, a build bump, a build bump under a release label, a release label on an untouched file, and a baseline without a version file. One more run, with a version string ending in a newline, tells the two anchorings apart.

Every function is deterministic, so running the gate twice on the same state gives the same verdict.

Two behaviours of the code are easy to miss:

- Malformed label entries are not always skipped. The code raises in three cases, and `Labels.Extract` returns `Raised` for each:
  - the event document is not an object (`.get` raises AttributeError);
  - the labels value is truthy and not iterable;
  - a label's `name` is a non-empty list or object (adding it to the set raises TypeError).
- The pattern's `$` also accepts a final newline, so the validator as written accepts `1.2.0` followed by a newline and compares it as 1.2.0. See "## Findings".

## Model

| member | source | states |
|---|---|---|
| `Semver.FullMatchesIffWellFormed` | Scripts/validate_versioning.py:9 | The whole-string match the pattern intends (`FullMatches`) accepts a string exactly when splitting it on `.` gives three pieces, each `0` or a digit run that does not start with `0`. So under it, extra or missing components, leading zeros and suffixes are all rejected. |
| `Semver.Matches` | Scripts/validate_versioning.py:9 | `SEMVER_RE.match` as written: the three groups from the start of the string, then `$`, which holds at the end or before one final newline. Its contract is `Semver.MatchesAsWritten`. |
| `Semver.FullMatches` | Scripts/validate_versioning.py:9 | The intended reading of the same pattern: the three groups make up the whole string. Its contract is `Semver.FullMatchesIffWellFormed`. |
| `Semver.Accepts` | Scripts/validate_versioning.py:39-40 | The semver test the validator applies under an anchoring. Under `Dollar` it is exactly the pattern as written (`Matches`); under `WholeString`, exactly the intended whole-string match. Every intended version string passes under both, and whatever passes is a match of the pattern as written. |
| `Semver.MatchesAsWritten` | Scripts/validate_versioning.py:9 | `SEMVER_RE.match` as written accepts exactly the intended version strings, plus each of them followed by one newline. |
| `Semver.TrailingNewlineAccepted` | Scripts/validate_versioning.py:39-40 | `"1.2.3\n"` passes the pattern as written but not the intended full match. The tuple parsed from it renders as `"1.2.3"`, not as the original string. |
| `Semver.RenderRoundTrip` | Scripts/validate_versioning.py:86-88 | For any naturals `(x, y, z)`, the string `x.y.z` is accepted and `semver_tuple` gives back `(x, y, z)`. |
| `Semver.Parse` | Scripts/validate_versioning.py:86-88 | `semver_tuple` on an intended version string gives the tuple whose rendering is that very string, so distinct version strings give distinct tuples. |
| `Semver.ParseAsWritten` | Scripts/validate_versioning.py:86-88 | `semver_tuple` on a string the pattern as written accepts: on an intended version string it agrees with `Semver.Parse`; on any other it gives the tuple whose rendering is the string without its final newline, since `int()` ignores that newline. |
| `Semver.NewlineAccepted` | Scripts/validate_versioning.py:9 | Every intended version string followed by a newline passes the pattern as written but is not an intended version string. `semver_tuple` compares it as the version it extends. |
| `Text.ParseShowNat` | Scripts/validate_versioning.py:88 | `int()` of the decimal numeral of n is n. |
| `Text.ShowParseNat` | Scripts/validate_versioning.py:88 | Printing the number that a canonical numeral denotes gives back that numeral. |
| `Text.JoinSplit` | Scripts/validate_versioning.py:87 | `str.split` loses nothing: joining the pieces with the separator restores the string. |
| `Semver.LessIsPrecedence` | Scripts/validate_versioning.py:143 | Python's `<` on the version tuples compares major, then minor on a major tie, then patch. |
| `Semver.LessIsStrictTotalOrder` | Scripts/validate_versioning.py:143-149 | `<` on version tuples is irreflexive, transitive and asymmetric, and it orders every two distinct versions. |
| `Semver.LessEqIsNotGreater` | Scripts/validate_versioning.py:149 | `a <= b` on tuples holds exactly when `b < a` does not, and exactly when `a < b` or the versions are equal. |
| `Payload.Validate` | Scripts/validate_versioning.py:28-45 | With the `Dollar` anchoring it is the validator as written; with `WholeString`, the intended one. Six checks run in order: missing version, missing build, non-string version, non-semver version, non-int build, negative build. The verdict is the first check that fails, and every earlier check passes. The record is accepted exactly when no check fails. An accepted record yields the payload's version string and its build number; a JSON `true` or `false` counts as 1 or 0. |
| `Payload.AnchoringsDisagreeOnlyOnNewline` | Scripts/validate_versioning.py:37-45 | If the intended validator accepts a payload, the written one accepts the same record. The two give different results only when the intended one reports "not semver" for a version string that is an intended one plus a final newline. |
| `Labels.Collect` | Scripts/validate_versioning.py:79-82 | The loop raises exactly when some entry is an object whose `name` is a non-empty list or object. Otherwise a name is collected exactly when some entry is an object with that non-empty string as its `name`. |
| `Labels.Extract` | Scripts/validate_versioning.py:66-83 | The label names are exactly the non-empty string `name`s of the entries under `pull_request.labels`. There are none when the event is unavailable or `pull_request` is missing or not an object. It raises exactly on a non-object document, a truthy non-iterable labels value, or an unhashable name. |
| `Labels.ReleaseRequested` | Scripts/validate_versioning.py:116 | Intersecting the labels with `RELEASE_LABELS` is non-empty exactly when `release` is among them. |
| `BaseRef.FirstExisting` | Scripts/validate_versioning.py:96-102 | The result is a candidate that exists, and every candidate before it does not exist. The result is none exactly when no candidate exists. |
| `BaseRef.Resolve` | Scripts/validate_versioning.py:91-102 | A non-empty hint h gives `origin/h`. Otherwise the result is the first existing entry of `origin/main`, `origin/master`, `main`, `master`, or none. A resolved reference is never empty. |
| `Gate.Compare` | Scripts/validate_versioning.py:133-155 | The comparison passes exactly when the build number strictly increases, the base version is at most the current one, and, under release intent, strictly below it. Versions are compared as the tuples `semver_tuple` gives for strings the pattern as written accepts. A build failure carries the current and base build numbers, current not above base. A regression failure carries the current and base version strings, with a higher build and a lower version. A release failure carries both version strings, with a higher build, release intent and equal versions. |
| `Gate.Decide` | Scripts/validate_versioning.py:105-155 | The current record is checked first, and its failure decides the verdict. With a valid record and no baseline the run passes as current-only, whatever the other inputs. `release` without a change fails before the baseline is read, and only then. A comparison failure needs a changed file and a decoded baseline. The run passes exactly when the rule-wise acceptance condition holds. |
| `Gate.BaselineRecordAbsentOrBroken` | Scripts/validate_versioning.py:121-131 | The baseline cases of `Gate.AgainstBaseline`, stated for a whole decision. Past the release check, a missing baseline file passes as the initial version. Invalid JSON there fails with its own diagnostic. An invalid baseline record fails on its first failed check, attributed to the baseline. |
| `Gate.CompareRuleOrder` | Scripts/validate_versioning.py:133-153 | On two records: the build rule fails exactly when the build does not increase. The regression rule fails exactly when the build increases and the version is lower. The release rule fails exactly when the build increases, release is requested and the versions are equal. Otherwise the comparison passes. |
| `Gate.AgainstBaseline` | Scripts/validate_versioning.py:121-155 | Past the release check: a missing baseline file passes as the initial version, invalid JSON there fails, and an invalid baseline record fails on its first failed check, attributed to the baseline. Otherwise the run passes exactly when the file is unchanged or the record progresses. A comparison failure needs a changed file and a decoded baseline. |
| `Gate.ComparisonRuleOrder` | Scripts/validate_versioning.py:133-153 | `Gate.CompareRuleOrder` stated for a whole decision, with release intent read from the labels. For a changed file and two valid records: the build rule fails exactly when build does not increase. The regression rule fails exactly when the build increases and the version is lower. The release rule fails exactly when the build increases, `release` is requested and the versions are equal. Otherwise the run passes. |
| `Gate.UnchangedSkipsComparison` | Scripts/validate_versioning.py:133-155 | Without release intent, an unchanged file with two valid records passes, whatever their build numbers and versions. |
| `Gate.RegressionAlwaysFails` | Scripts/validate_versioning.py:143-147 | A changed file whose version is below the baseline's never passes, whatever the labels. |
| `Gate.ReleaseNeedsStrictBump` | Scripts/validate_versioning.py:149-153 | Under release intent, a changed file whose version compares equal to the baseline's fails. A higher build with a strictly higher version passes. |
| `Gate.AnchoringsAgreeUnlessNotSemver` | Scripts/validate_versioning.py:105-155 | On every input, the gate as written reaches the intended gate's verdict unless that verdict rejects a record's version as not semver. |
| `Gate.Run` | Scripts/validate_versioning.py:105-155 | A missing version file and invalid JSON in it are distinct failures. An invalid current record fails on its first failed check before any baseline is resolved or any label read, whatever the event. A valid record with no resolvable baseline passes as current-only. The run raises exactly when a valid record meets a resolved baseline and an event that makes label extraction raise. Otherwise the run is `Decide` on the collaborators' answers for that reference. With the `Dollar` anchoring this is the script as written. |
| `Scenarios.NoBaselineValidatesCurrentOnly` | Scripts/validate_versioning.py:106-112 | A valid `1.2.0`/5 record with no hint and no existing branch passes as current-only. This holds even with a release label and a broken baseline file. |
| `Scenarios.UnchangedFilePasses` | Scripts/validate_versioning.py:133-155 | The same record on both sides with the file unchanged passes. |
| `Scenarios.BuildBumpPasses` | Scripts/validate_versioning.py:133-155 | A pull request raising the build from 5 to 6 at `1.2.0`, with no labels, passes. |
| `Scenarios.ReleaseWithoutVersionBumpFails` | Scripts/validate_versioning.py:149-153 | The same pull request with a `release` label fails the release rule and reports `1.2.0` against `1.2.0`. |
| `Scenarios.BumpedBuild` | Scripts/validate_versioning.py:133-153 | For any intended version string kept on both sides, a build raised from 5 to 6 passes without a release label. With one, it fails the release rule and reports the version against itself. |
| `Scenarios.ReleaseLabelWithoutChangeFails` | Scripts/validate_versioning.py:116-119 | A release label on an untouched file fails, even though the baseline file is broken. |
| `Scenarios.MissingBaselineFileIsInitialVersion` | Scripts/validate_versioning.py:121-124 | A baseline without the version file passes as the initial version at `origin/main`. |
| `Scenarios.NewlineRecordAcceptedAsWritten` | Scripts/validate_versioning.py:28-45 | A version file holding any intended version string plus a final newline, and a non-negative build, passes the validator as written with that string kept. |
| `Scenarios.NewlineRecordRejectedAsIntended` | Scripts/validate_versioning.py:37-40 | The same version file fails the intended validator on the semver check. |
| `Scenarios.NewlineVersionPassesAsWritten` | Scripts/validate_versioning.py:105-155 | For every intended version string: a changed file holding it plus a final newline, raising the build over a baseline holding it, passes the script as written, because the new string is compared as the version it extends. The intended gate fails the same run on the current record as not semver. |

## Left out

- Git calls (`git show`, `git diff --name-only`, `git rev-parse --verify`) are inputs: a document per reference, a changed-since answer per reference, and an existence predicate. Their errors turn into "absent", "unchanged" and "does not exist" before the model sees them.
- File reading, the JSON decoder and environment lookups are inputs too. The version file is `Missing`, `Malformed` or a decoded object. The event is `Unavailable` (unset path, missing file, invalid JSON) or a decoded document. The branch hint is an optional string.
- Printing, message wording and `sys.exit` are left out. The verdict constructor names the diagnostic and carries the values it reports. Passes exit with 0, and every other verdict exits with 1.
- Other exceptions (unreadable files, undecodable bytes, a missing `git` binary) are left out because they are environment failures, not gate logic.
- Version records whose JSON document is not an object are left out; `in` and indexing behave differently on lists and strings.
- JSON `NaN` and `Infinity` are left out; a float is a `real`, which matters only for its truthiness and for failing the integer check.
- `Semver.Matches`: Python's `\d` also matches non-ASCII decimal digits (such as Arabic-Indic digits), and `int()` accepts them. The model reads `\d` as `[0-9]` only, because it has no Unicode digit table.
- `Semver.ParseAsWritten`: `semver_tuple` is modelled only on strings the validator as written accepts, which are the only strings it is called on. `Semver.Parse` narrows this further to the intended version strings.
- `Semver.FullMatchesIffWellFormed`: characterises only the intended whole-string match. The pattern as written also accepts each such string followed by one newline; `Semver.MatchesAsWritten` states that.
- `Labels.Collect`: Python also puts truthy non-string names (numbers, `true`) into the label set. The model keeps only string names, because no other value can equal `release`, so release intent is unaffected.
- `Labels.Extract`: for the same reason, the label names it yields are only the non-empty string `name`s; truthy non-string names that Python also collects are left out.

## Findings

| source | as written | input that shows it | evidently intended | confidence | as-written member | corrected member |
|---|---|---|---|---|---|---|
| Scripts/validate_versioning.py:9 | `re.match` with a pattern ending in `$` accepts a version followed by a final newline, because `$` also matches just before a trailing `\n`; `semver_tuple` then drops the newline through `int()` | `"1.2.0\n"` as the changed file's `marketing_version`, with the build raised over a `1.2.0` baseline: the run passes | reject anything but `x.y.z` exactly (`re.fullmatch` or `\Z`), so that the accepted strings round-trip | high; not executed | `Scenarios.NewlineVersionPassesAsWritten` | `Semver.Parse` |
