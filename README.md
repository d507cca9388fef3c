# autotag-action: the release-tag decision, modelled in Dafny

The action tags the head commit of a branch with a new version. The work happens in three steps.

- `getParameters` reads the workflow inputs.
- `chooseTaggingStyle` picks between two strategies:
  - the static strategy, `checkStatic`, which uses the configured tag or a date;
  - the semantic-version strategy, `checkSemver`.
- The chosen apply step creates the tag reference, unless this is a dry run.

`checkSemver` works as follows.

1. It pops the latest tag from the version-sorted tag catalog (`getAllTags`).
2. It finds the latest tag that is not a prerelease (`dropPreReleaseTags`).
3. It classifies every commit message that `listCommits` returns when started at that tag's sha (`messageToBumpLevel`). A message is one of `#wip`, `#major`, `#minor`, `fix #n` / `fixes #n`, or a patch.
4. It folds the classifications into one bump level (`checkMessages`). An issue carrying one of the configured labels counts as a minor change.
5. It bumps the latest version with `semver.inc`.
6. Off a release branch (`isReleaseBranch`), it turns the result into a `<branch>.0` prerelease.
7. It re-checks the result for a name collision.

The model covers this decision logic. It is split into these modules.

- `Strings` holds the text helpers the code relies on: `split`, `trim`, `toLowerCase` and substring search.
- `Levels` holds the four bump levels "none", "patch", "minor" and "major".
- `Semver` covers precedence as `semver.compare` defines it, plus `semver.inc` for `major`/`minor`/`patch` and for `prerelease` on a release version.
- `SemverText` holds `semver.clean` and the canonical printed form, with the round trip between them.
- `Tags` covers:
  - the catalog of `getAllTags`;
  - `checkTag`;
  - `dropPreReleaseTags`;
  - the tag list as a `TagList` object that `pop` mutates.
- `Commits` holds `messageToBumpLevel` and `checkMessages`:
  - a reference fold, the maximum level over the commits;
  - the method that follows the code's early returns, proved equal to that fold.
- `Branches` holds `isReleaseBranch`.
- `Config` holds `getParameters`: a method that fills the parameter map in a loop, proved equal to a normalisation function.
- `Tagging` covers:
  - `checkStatic`;
  - `checkSemver`, as a method over the `TagList` and as the specification function it meets;
  - `chooseTaggingStyle`;
  - the apply step.

Some things stay outside Dafny and are passed in as parameters:

- the host's answers: the commits `listCommits` returns when started at a sha, the labels of an issue, and regular-expression matching of a branch pattern;
- the date text that `getDateStyle` derives from the clock.

Where the code does not do what it evidently means to, the model follows the intent. It also states the behaviour as written, and proves the difference (see "## Findings").

## Model

| member | source | states |
|---|---|---|
| Strings.Split | src/index.js:63 | `split(",")`: at least one part, no part holds the separator, and joining the parts gives the input back |
| Strings.SplitJoin | src/index.js:300-302 | splitting a list written out with commas returns exactly that list |
| Strings.TrimStart | src/index.js:63 | drops exactly the leading white space: the result is a suffix that starts with a non-space, and everything cut is space |
| Strings.TrimEnd | src/index.js:63 | drops exactly the trailing white space: the result is a prefix that ends with a non-space, and everything cut is space |
| Strings.TrimAll | src/index.js:63 | `.map(label => label.trim())`: same length, each entry trimmed |
| Strings.Trim | src/index.js:63 | `trim()`: the result is the part of the input between its leading and its trailing white space, which it neither starts nor ends with |
| Strings.ToLower | src/index.js:56 | `toLowerCase()`: same length, each ASCII letter lowered and every other character kept |
| Levels.Max | src/index.js:258-286 | the higher of two levels, and one of the two |
| Semver.Compare | src/index.js:146 | `semver.compare` answers -1, 0 or 1 |
| Semver.CompareAntisymmetric | src/index.js:146 | the order `semver.compare` sorts by is antisymmetric, and 0 only for equal versions |
| Semver.CompareTransitive | src/index.js:146 | that order is transitive |
| Semver.LessTransitive | src/index.js:146 | strict precedence carries through a chain of comparisons |
| Semver.Inc | src/index.js:437 | `semver.inc(v, level)` gives a release of that granularity strictly above `v`; below major, the major is kept; for a patch, the minor is kept |
| Semver.IncIsLeast | src/index.js:437 | no release of the bumped granularity lies strictly between `v` and its increment |
| Semver.IncPrerelease | src/index.js:444 | `semver.inc(v, "prerelease", branch)` on a release gives `<branch>.0` identifiers, above `v` and below the next patch |
| SemverText.Format | src/index.js:437 | the canonical printed form `major.minor.patch[-pre]`; its round trips are SemverText.ParseFormat and SemverText.CleanFormat |
| SemverText.NatToString | src/index.js:437 | prints a number as canonical decimal digits, without a leading zero |
| SemverText.ParseNatToString | src/index.js:225 | reading the printed digits back gives the number |
| SemverText.Parse | src/index.js:417 | strict `semver.parse` only returns versions whose identifiers can be printed and read back |
| SemverText.Clean | src/index.js:144 | `semver.clean` only returns valid versions |
| SemverText.ParseFormat | src/index.js:417 | strict parsing reads back the printed form of every valid version |
| SemverText.CleanFormat | src/index.js:144 | `semver.clean` reads back the printed form of every valid version |
| SemverText.FormatInjective | src/index.js:126 | two valid versions with the same printed name are the same version |
| Tags.Cleaned | src/index.js:144-145 | cleaning the listing keeps at most its length, and every kept version is valid |
| Tags.CleanedMembers | src/index.js:144-145 | a tag is in the cleaned list exactly when some listed tag cleans to it |
| Tags.CleanedAppend | src/index.js:144-145 | cleaning distributes over appending a tag to the listing |
| Tags.ConsSorted | src/index.js:146 | a sorted list stays sorted under a head that precedes every entry |
| Tags.Insert | src/index.js:146 | inserting into a sorted list keeps it sorted, adds exactly the new tag to the multiset, and adds no other entry |
| Tags.SortTags | src/index.js:146 | `sort(semver.compare)`: sorted, and a permutation of the input |
| Tags.GetAllTags | src/index.js:143-146 | the catalog is sorted by precedence, holds only valid versions, and is a permutation of the cleaned listing |
| Tags.FilterNamed | src/index.js:126 | `filter(tag => tag.name === tagName)` keeps exactly the tags of that name |
| Tags.CheckTag | src/index.js:125-129 | `checkTag` is true exactly when some tag has that name |
| Tags.CheckTagVersion | src/index.js:125-129 | on a catalog, a version's name is taken exactly when the version is |
| Tags.DropPreReleaseTags | src/index.js:159-161 | `dropPreReleaseTags`: the filter on `semver.prerelease(tag.name) === null`; what it keeps is stated by Tags.DropPreReleaseTagsKeepsReleases |
| Tags.DropPreReleaseTagsKeepsReleases | src/index.js:159-161 | the filter keeps every release entry as often as it occurs and in order, and drops every prerelease |
| Tags.DropPreReleaseAppend | src/index.js:159-161 | filtering a list with one more entry keeps that entry exactly when it is a release |
| Tags.LatestReleaseTag | src/index.js:402 | `dropPreReleaseTags(tagList).pop()`: a found tag is one of the listed tags and is not a prerelease |
| Tags.LatestReleaseTagNone | src/index.js:402 | there is no latest main tag exactly when every remaining tag is a prerelease |
| Tags.LatestReleaseTagIsLast | src/index.js:402 | the latest main tag is the last entry that is not a prerelease |
| Tags.TagList.constructor | src/index.js:527 | the tag list holds the catalog it was built from |
| Tags.TagList.Pop | src/index.js:401 | `pop()` returns the last entry (none on an empty list) and removes exactly that entry |
| Commits.HasMarker | src/index.js:207-209 | `new RegExp(/#wip\b/).test(s)` and its siblings: the marker occurs followed by a word boundary |
| Commits.DigitRun | src/index.js:210 | the greedy `\d+`: all digits, and the run stops at a non-digit or at the end |
| Commits.IssueNumberAt | src/index.js:223-225 | `Number(id[1])`: the value of the digit run after `fix #` or `fixes #` |
| Commits.FindIssue | src/index.js:223 | `issue.exec` finds the leftmost match of `fix(?:es)? #(\d+)\b`, or reports that none exists |
| Commits.Classify | src/index.js:206-230 | `messageToBumpLevel`: an issue result carries a positive number; the full case split is Commits.ClassifyPriority |
| Commits.ClassifyPriority | src/index.js:206-230 | `messageToBumpLevel`: wip, major and minor each hold exactly when their marker is present and no higher-priority marker is; an issue number comes only from the leftmost `fix #n`, only when positive |
| Commits.ClassifyPatch | src/index.js:229 | a message is a patch exactly when it has no marker and no `fix #n` with a positive number |
| Commits.FixesOneHasNoMarker | src/index.js:207-221 | "fixes #1" matches none of the `#wip`, `#major` and `#minor` patterns |
| Commits.FixesOneRefersToIssue | src/index.js:223-226 | "fixes #1" is classified as a fix of issue 1 |
| Commits.Enhances | src/index.js:273 | the intended test: some label of the issue is in the allowlist; Commits.EnhancesSome states it |
| Commits.EnhancesSome | src/index.js:273 | an issue is an enhancement exactly when one of its labels is an allowed label |
| Commits.Resolve | src/index.js:269-278 | a marked commit keeps its level; an issue fix is minor exactly when the issue carries an allowed label, patch otherwise |
| Commits.MaxLevel | src/index.js:258-286 | the highest level of a list, none for the empty list; Commits.MaxLevelUpper and Commits.MaxLevelIs state it |
| Commits.MaxLevelUpper | src/index.js:258-286 | the decided level bounds every commit's level |
| Commits.MaxLevelIs | src/index.js:258-286 | the decided level is the one level present (or none) that bounds all others |
| Commits.MaxLevelSameElements | src/index.js:258-286 | the decision depends only on which levels occur |
| Commits.ClassifyAll | src/index.js:255-256 | one classification per commit, in order |
| Commits.ResolveAll | src/index.js:269-278 | one resolved level per classified commit, in order |
| Commits.AggregateOrderIndependent | src/index.js:255-286 | reordering the commits does not change the decided level |
| Commits.IssueRefs | src/index.js:265-267 | keeps exactly the issue numbers among the classifications |
| Commits.Aggregate | src/index.js:240-287 | the intended decision of `checkMessages`: "none" without commit data, otherwise the decision over the classified commits; its properties are Commits.CheckMessages and Commits.AggregateOrderIndependent |
| Commits.Decide | src/index.js:258-286 | the reference fold: the maximum resolved level; Commits.MaxLevelIs and Commits.DecideLevels state it |
| Commits.CheckMessages | src/index.js:240-287 | `checkMessages` decides "none" without commit data, and otherwise the maximum level over the commits |
| Commits.DecideLevels | src/index.js:258-286 | the early-return cascade (major, minor, the issue loop, patch, none) computes the maximum resolved level |
| Commits.MajorDominates | src/index.js:258-260 | any `#major` commit makes the release major |
| Commits.MinorDominates | src/index.js:261-263 | without a major commit, any `#minor` commit makes it minor |
| Commits.IssuesDecide | src/index.js:269-279 | without major or minor commits, fixed issues decide: minor exactly when some fixed issue has an allowed label, patch exactly when none has |
| Commits.PatchOrNothing | src/index.js:281-286 | without majors, minors or issues: patch exactly when some commit is a patch, none exactly when none is |
| Commits.AllWipNoRelease | src/index.js:285-286 | commits that are all work in progress give no release |
| Commits.AggregateLabelsAsWritten | src/index.js:273 | line 273 as written: the decision where no issue's label list equals an allowed label |
| Commits.LabelsAsWrittenMissEnhancement | src/index.js:273 | a lone fix of an allowed-label issue is minor as intended but patch as written |
| Commits.FixesOneAsWrittenIsPatch | src/index.js:273 | concretely: "fixes #1" with issue 1 labelled "enhancement" is minor as intended, patch as written |
| Commits.KeptAsWritten | src/index.js:265-267 | the filter as written keeps exactly the issue numbers and the "none" of `#wip` commits |
| Commits.LookupLoopAsWritten | src/index.js:270-278 | the issue loop as written: it looks up every kept entry in order, "none" included, and fails when the lookup of "none" fails |
| Commits.AggregateKeepingNoneAsWritten | src/index.js:255-287 | `checkMessages` with the filter as written: decided or failed; what it decides is stated by Commits.KeepingNoneAsWrittenTagsWip and Commits.KeepingNoneAgreesWithoutWip |
| Commits.LookupLoopOverIssues | src/index.js:270-278 | over issue numbers only, the loop answers minor exactly when some issue has an allowed label, patch otherwise |
| Commits.KeepingNoneAsWrittenTagsWip | src/index.js:265-278 | a lone `#wip` commit is no release as intended; with lines 265-278 as written and the awaits in place it does not decide "none": the run looks up issue "none", and fails when that lookup throws |
| Commits.KeepingNoneAgreesWithoutWip | src/index.js:255-287 | without a `#wip` commit, the filter as written and the intended decision agree |
| Commits.NoHashNoMarker | src/index.js:207-221 | a message without `#` matches none of the three marker patterns |
| Commits.NoXNoIssue | src/index.js:210-223 | a message without `x` has no match of the issue pattern |
| Commits.NoXNoIssueAt | src/index.js:210-223 | without `x`, neither `fix #` nor `fixes #` occurs at a given index |
| Commits.UndefinedIsPatch | src/index.js:206-230 | `messageToBumpLevel(undefined)` tests the text "undefined" and returns "patch" |
| Commits.ClassifyAllAsWritten | src/index.js:255-256 | line 256 as written, with the awaits in place: one classification of "undefined" per commit |
| Commits.AggregateMessageFieldAsWritten | src/index.js:250-287 | `checkMessages` with line 256 as written and the awaits in place |
| Commits.MessageFieldAsWrittenIsPatch | src/index.js:255-287 | with line 256 as written and the awaits in place, any non-empty commit list decides a patch and the empty list decides none, whatever the messages say |
| Commits.MajorAsWrittenIsPatch | src/index.js:256 | a lone `#major` commit is major as intended but a patch with line 256 as written and the awaits in place |
| Branches.Patterns | src/index.js:300-302 | the branch patterns: the `release-branch` list split at commas, each entry trimmed |
| Branches.MatchingPatterns | src/index.js:300-303 | keeps exactly the patterns that match the branch |
| Branches.IsReleaseBranch | src/index.js:298-306 | a release branch exactly when some trimmed pattern matches the branch |
| Branches.ReleaseBranchOfList | src/index.js:300-302 | for a list written out with commas: release exactly when one of its trimmed entries matches |
| Branches.ReleaseBranchOrderIndependent | src/index.js:298-306 | the order and repetition of the listed patterns do not change the answer |
| Config.GetInput | src/index.js:52 | `core.getInput(name)`: a given input is returned as Strings.Trim of its value, so it never starts or ends with white space; a missing input gives "" |
| Config.Flag | src/index.js:56-57 | a flag is off exactly when the value is "false" in any letter case |
| Config.NormalStyle | src/index.js:60 | the style is always a known one: the input is kept exactly when it is known, and an unknown style becomes "semver" |
| Config.IssueLabels | src/index.js:62-67 | the allowlist is never empty and never `[""]`; a blank input gives the default label, and any other input gives its trimmed entries |
| Config.IssueLabelsAsWritten | src/index.js:63-67 | lines 63-67 as written: never empty, since the default applies only to an empty split |
| Config.IssueLabelsAsWrittenNoDefault | src/index.js:63-67 | as written, the empty-list test never fires, and a blank input gives `[""]` instead of the default label |
| Config.DateTag | src/index.js:91-94 | `getDateStyle` gives "" unless the style names a date, and the date text when it does |
| Config.DateTagAsWritten | src/index.js:91-116 | `getDateStyle` as written, with a failure where it throws |
| Config.MissingCharNotContained | src/index.js:92 | a word holding a character the style lacks does not occur in it, the base of the `style.match` tests |
| Config.DatetimeAsWrittenThrows | src/index.js:111-113 | as written, exactly the known styles "datetime" and "dotdatetime" throw; every other known style gives the intended date tag |
| Config.Normalized | src/index.js:17-75 | the normalised parameters have a known style and a non-empty label allowlist |
| Config.GetParameters | src/index.js:17-75 | reading every input into the map and normalising gives exactly the normalised parameters |
| Config.FlagsDefaultOn | src/index.js:56-57 | a missing `dry-run` or `force` input leaves the flag on; only a spelling of "false" turns it off |
| Config.WithVPrefix | src/index.js:58 | `withV` is either "" or the version prefix: the prefix when `with-v` is not a spelling of "false", and "" when it is |
| Config.StylesWithDate | src/index.js:34-42 | every known style except "semver" names a date |
| Config.DateStyleForcesTag | src/index.js:69-72 | a date style replaces the `tag` input with the date text; "semver" keeps the input |
| Tagging.CheckStatic | src/index.js:374-388 | `checkStatic` returns the tag or ""; it returns "" for a non-empty tag exactly when the name is taken and `force` is off |
| Tagging.CheckStaticNoCollision | src/index.js:379-384 | without `force`, the static strategy never returns a taken name |
| Tagging.CheckStaticAsWritten | src/index.js:377-384 | `checkStatic` as written: the Promise at line 377 is always truthy, so without `force` it returns "" |
| Tagging.CheckStaticAsWrittenRefusesFreshTag | src/index.js:377-379 | with no tags and no force, a fresh name is accepted as intended but refused as written |
| Tagging.Popped | src/index.js:401 | the list after `pop()` is the list without its last entry |
| Tagging.PoppedCatalog | src/index.js:401 | popping keeps a catalog a catalog |
| Tagging.BaseVersion | src/index.js:416-417 | the version bumped: the latest tag's, or 0.0.0; Tagging.BaseVersionClean shows it is what `semver.clean` makes of the base name |
| Tagging.BaseName | src/index.js:416 | the base name is "0.0.0" when there is no latest tag |
| Tagging.ZeroText | src/index.js:416 | the printed zero version is "0.0.0" |
| Tagging.BaseVersionClean | src/index.js:416-417 | cleaning the base name gives the latest tag's version, or the zero version |
| Tagging.StartSha | src/index.js:426 | the sha `checkMessages` starts at: the latest main tag's, or "" without one |
| Tagging.BumpLevel | src/index.js:423-427 | the level `checkMessages` decides for the commits listed from that sha; Tagging.NothingToRelease and Tagging.SemverTagIsNew use it |
| Tagging.Candidate | src/index.js:437-445 | the bumped version is above the base; on a release branch it is a release of the bumped granularity; elsewhere it is a `<branch>.0` prerelease below the next patch; it is valid when the branch name is a valid identifier |
| Tagging.SemverCheck | src/index.js:398-452 | the specification of `checkSemver`: "" when the latest tag is at the head or nothing is to be released, otherwise the collision check of the bumped candidate; its properties are the Tagging lemmas below |
| Tagging.CheckSemver | src/index.js:398-452 | the method returns exactly the specified semver decision, and leaves the caller's list popped |
| Tagging.CheckSemverAsWritten | src/index.js:407 | `checkSemver` as written: the call pops the caller's list (401-402) and then throws at the read of `versionTag` on line 407, before the head check at line 409 |
| Tagging.CheckSemverAsWrittenAlwaysFails | src/index.js:407 | as written, every call throws, while the intended strategy tags a fresh release |
| Tagging.HeadAlreadyTagged | src/index.js:409-412 | when the latest tag points at the head, no tag is produced |
| Tagging.NothingToRelease | src/index.js:429-432 | when the commits call for no release, no tag is produced |
| Tagging.LastIsMax | src/index.js:401 | the popped latest tag has the highest version in the catalog |
| Tagging.SemverTagIsNew | src/index.js:437-451 | on a release branch, or when the branch name is a valid prerelease identifier (`[0-9A-Za-z-]+`, not all digits), and when there is something to release, the new tag is a valid version above every tag. It is a release of the bumped granularity on a release branch and a `<branch>.0` prerelease elsewhere |
| Tagging.CandidateIsFresh | src/index.js:451 | the bumped candidate is above every catalog entry and passes the collision check |
| Tagging.AboveAll | src/index.js:401 | a version above the latest catalog entry is above every entry |
| Tagging.FreshVersionPasses | src/index.js:451 | a valid version above every entry passes the collision check |
| Tagging.FirstTag | src/index.js:416 | in an untagged repository on a release branch, the first tag is 0.0.1, 0.1.0 or 1.0.0 |
| Tagging.FirstVersionTexts | src/index.js:437 | the bumps of 0.0.0 print as 0.0.1, 0.1.0 and 1.0.0 |
| Tagging.StrictMaxIsLast | src/index.js:146 | in a sorted list, an entry above all others is last |
| Tagging.NewTagOnTop | src/index.js:143-146 | a listed tag above the whole catalog ends up last in the new catalog |
| Tagging.CleanedPrinted | src/index.js:144 | a tag named by a printed valid version is cataloged under that version |
| Tagging.TaggedHeadIsLast | src/index.js:143-146 | after tagging the head with a version above every tag, the head's tag is last in the catalog |
| Tagging.RerunFindsHeadTagged | src/index.js:409-412 | once the head carries a version above every tag, the semver strategy gives no tag |
| Tagging.RerunAfterTagging | src/index.js:409-412 | on a release branch, or when the branch name is a valid prerelease identifier (`[0-9A-Za-z-]+`, not all digits), a run that tags the head produces a non-empty tag, and a second run after that tag is created produces none |
| Tagging.ChooseTaggingStyle | src/index.js:470-481 | static exactly when a tag is configured or the style is not semver; dry exactly when `dryRun` is set |
| Tagging.DateStyleIsStatic | src/index.js:474 | a date style always takes the static path, with the date text as its tag |
| Tagging.NextVersion | src/index.js:478 | runs the chosen check: static leaves the list alone, semver pops it |
| Tagging.Apply | src/index.js:348-364 | a reference is created exactly when the tag is applied for real and is non-empty; it is `refs/tags/<tag>` at the head sha |

## Left out

- Network calls are not modelled: the `octokit` calls `listTags`, `listCommits`, `issues.get`, `listMatchingRefs` and `createRef`. Their answers are parameters: the listed tags, `commitsFrom`, `labelsOf` and the created reference.
- `core.info`, `core.setOutput` and `core.setFailed` are not modelled; they are logging and outputs.
- `getDateStyle`'s date text is not computed: it reads the clock, so it is the parameter `stamp`. The text the code builds is not reproduced either. It uses `getMonth()`, which counts months from 0, and `getDay()`, which is the weekday.
- Config.DateTag: states the intended tag, the date text, for every date style. As written, the styles "datetime" and "dotdatetime" call `now.getHour()` (line 112), which a `Date` does not have, so `getParameters` throws; see Config.DatetimeAsWrittenThrows under "## Findings".
- Regular-expression matching of the `release-branch` patterns is the parameter `matches`. A pattern that is not a valid regular expression throws in the source; the model does not cover that.
- `loadBranch`, `verifyBranch`, `setupContext` and `action` are not modelled: they only wire the host context together. The root `index.js` is not part of this model.
- The code is asynchronous, and none of that is modelled:
  - `messageToBumpLevel` is `async`, so line 255 collects Promises;
  - `checkTag` is `async`, so line 377 is always truthy;
  - the model awaits every call.
- Tags.GetAllTags: models the intent of lines 143-146. Each tag is renamed to its cleaned name, the uncleanable ones are dropped, and the rest are sorted. The code as written maps each tag to its name string, which a later `tag.name` cannot read.
- Semver.IncPrerelease: only covers a release version, the one case `checkSemver` reaches, and only a branch name that is a valid prerelease identifier: non-empty, made of `[0-9A-Za-z-]`, and not all digits. The name is the last `/`-segment of the branch reference (line 521). For any other name the `semver` package rejects the increment or reads the identifier differently, so Tagging.SemverTagIsNew and Tagging.RerunAfterTagging state nothing about such a branch off the release list.
- Strings.TrimStart: `trim` here removes space, tab, line feed and carriage return only, not every Unicode white-space character.
- Strings.TrimEnd: the same four white-space characters as Strings.TrimStart, not every Unicode white-space character.
- Strings.Trim: built on Strings.TrimStart and Strings.TrimEnd, so it also removes only space, tab, line feed and carriage return.
- Strings.ToLower: lowers ASCII letters only, while JavaScript's `toLowerCase` lowers all of Unicode and can change the length. Config.Flag only compares the lowered text with "false", and no non-ASCII character lowers to f, a, l, s or e, so the flags come out the same.
- `listCommits` is called with `sha` set to the latest main tag's sha (line 426). The host lists the commits reachable from that sha, not the commits after it, although the comment at line 426 says it means the latter. The model takes whatever list the host returns as the parameter `commitsFrom`, so it neither shows nor corrects this.
- SemverText.Parse: reads numbers as unbounded naturals and accepts text of any length. `semver.parse` returns null for text longer than 256 characters and for a major, minor or patch above `Number.MAX_SAFE_INTEGER`.
- SemverText.Clean: the same two bounds are not modelled. `semver.clean` returns null where `semver.parse` does.
- Tagging.CheckSemverAsWritten: models only the failure. The pop of the caller's list at line 401 and the logging at lines 399 and 404-405, which happen before the throw, are not kept; the run fails in either case.
- Commits.ClassifyAll: classifies each commit's message. As written, line 256 reads `commit.message`, which a list-commits item does not have; see Commits.MessageFieldAsWrittenIsPatch under "## Findings".
- Commits.Aggregate: `labelsOf` gives labels for every issue number. In the code, `issues.get` throws for an issue that does not exist, and the run then fails; the model does not cover that.
- Commits.LookupLoopAsWritten: only the lookup of "none" can fail. A lookup of an issue number that does not exist throws as well, as stated for Commits.Aggregate.
- Commits.IssueNumberAt: reads the issue number as an unbounded natural. `Number()` on a very long digit string loses precision.
- Commits.Enhances: compares label names. The host returns label objects; matching them by name is the evident intent.
- Config.GetInput: trims with Strings.Trim, that is, the four white-space characters only. The `required` and `trimWhitespace` options of `core.getInput` are not modelled; the code uses neither.

## Findings

| source | as written | input that shows it | evidently intended | confidence | as-written member | corrected member |
|---|---|---|---|---|---|---|
| src/index.js:273 | `issueLabels.includes(label)` compares the whole label list of the issue with each allowed label, so no issue ever counts as an enhancement | commit "fixes #1", issue 1 labelled "enhancement", allowlist ["enhancement"] | minor when one of the issue's labels is allowed | high, not executed | Commits.FixesOneAsWrittenIsPatch | Commits.IssuesDecide |
| src/index.js:265-278 | with the awaits in place, the filter keeps the "none" of a `#wip` commit, and the issue loop then looks up issue "none": the run does not decide "none", and fails when that lookup throws | the single commit "#wip" | no release when every commit is work in progress | high, not executed | Commits.KeepingNoneAsWrittenTagsWip | Commits.AllWipNoRelease |
| src/index.js:377 | `checkTag` is `async`, so `doesTagExist` is a Promise and always truthy; without `force` every tag is refused | tag "v1", no existing tags, force off | refuse only a name that is taken | high, not executed | Tagging.CheckStaticAsWrittenRefusesFreshTag | Tagging.CheckStaticNoCollision |
| src/index.js:407 | `versionTag` is read before its `const` declaration at line 416, which throws on every call | any call of `checkSemver` | set the output after `versionTag` is computed | high, not executed | Tagging.CheckSemverAsWrittenAlwaysFails | Tagging.SemverTagIsNew |
| src/index.js:63-67 | `split` never returns an empty list, so a blank `issue-labels` gives `[""]` and the default label never applies | `issue-labels` set to "" | fall back to "enhancement" for a blank input | high, not executed | Config.IssueLabelsAsWrittenNoDefault | Config.IssueLabels |
| src/index.js:256 | `commit.message` is undefined on a list-commits item, whose message is at `commit.commit.message`; with the awaits in place, every commit is classified by the text "undefined", a patch | the single commit "#major" | classify each commit's message | high, not executed | Commits.MajorAsWrittenIsPatch | Commits.MajorDominates |
| src/index.js:112 | `now.getHour()` is not a `Date` method, so the styles "datetime" and "dotdatetime" throw | style "datetime" | a date-and-time tag | high, not executed | Config.DatetimeAsWrittenThrows | Config.DateStyleForcesTag |
