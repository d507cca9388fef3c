/**
 * The tagging decision: the static strategy `checkStatic`, the semantic-version strategy
 * `checkSemver` (pop the latest tag, collect the commits `listCommits` returns when started at the latest main tag's sha, bump, mark
 * non-release branches as prereleases, re-check for collisions), the choice between them in
 * `chooseTaggingStyle`, and what applying the chosen tag does.
 */
module Tagging {
  import opened Options
  import opened Levels
  import opened Semver
  import opened SemverText
  import opened Tags
  import opened Commits
  import opened Branches
  import opened Config

  /** The head commit to tag and the name of the branch it is on. */
  datatype Context = Context(sha: string, branchName: string)

  /**
   * What the host answers: `commitsFrom(sha)` is the commit messages `listCommits` returns when
   * asked to start at `sha` (`None` when the answer carries no data), `labelsOf(n)` the labels of
   * issue `n`, and `matches(pattern, branch)` whether the regular expression matches the branch.
   */
  datatype Env = Env(
    commitsFrom: string -> Option<seq<string>>,
    labelsOf: nat -> seq<string>,
    matches: (string, string) -> bool)

  // ---------------------------------------------------------------------------------------------
  // checkStatic

  /**
   * `checkStatic`: the configured tag, unless a tag of that name exists already and `force` is
   * off, in which case no tag (`""`).
   */
  function CheckStatic(tag: string, force: bool, tags: seq<Tag>): (r: string)
    ensures r == "" || r == tag
    ensures r == "" && tag != "" ==> CheckTag(tags, tag) && !force
    ensures CheckTag(tags, tag) && !force ==> r == ""
  {
    if CheckTag(tags, tag) && !force then "" else tag
  }

  /** Without `force`, the static strategy never hands out a name that is taken. */
  lemma CheckStaticNoCollision(tag: string, force: bool, tags: seq<Tag>)
    requires !force && CheckStatic(tag, force, tags) != ""
    ensures forall i :: 0 <= i < |tags| ==> tags[i].Name() != CheckStatic(tag, force, tags)
  {
  }

  /**
   * `checkStatic` as written: `checkTag` is `async`, so `doesTagExist` at line 377 is a Promise,
   * always truthy, and every tag counts as existing.
   */
  function CheckStaticAsWritten(tag: string, force: bool, tags: seq<Tag>): string
  {
    if !force then "" else tag
  }

  /** On a repository without tags, a fresh name is refused as written but accepted as intended. */
  lemma CheckStaticAsWrittenRefusesFreshTag(tag: string)
    requires tag != ""
    ensures CheckStatic(tag, false, []) == tag
    ensures CheckStaticAsWritten(tag, false, []) == ""
  {
  }

  // ---------------------------------------------------------------------------------------------
  // checkSemver: its parts

  /** The list after `tagList.pop()`. */
  function Popped(tags: seq<Tag>): (r: seq<Tag>)
    ensures tags != [] ==> tags == r + [tags[|tags| - 1]]
    ensures tags == [] ==> r == []
  {
    if tags == [] then [] else tags[..|tags| - 1]
  }

  /** A prefix of a catalog is a catalog. */
  lemma PoppedCatalog(tags: seq<Tag>)
    requires IsCatalog(tags)
    ensures IsCatalog(Popped(tags))
  {
  }

  /**
   * The version `checkSemver` bumps: the latest tag's, or `0.0.0` in an untagged repository
   * (`BaseVersionClean` shows it is what `semver.clean` makes of the base name).
   */
  function BaseVersion(latest: Option<Tag>): Version
  {
    if latest.Some? then latest.value.version else Zero
  }

  /** `latestTag && latestTag.name ? latestTag.name : "0.0.0"`. */
  function BaseName(latest: Option<Tag>): (name: string)
    ensures latest.None? ==> name == "0.0.0"
  {
    if latest.Some? then latest.value.Name() else ZeroText()
  }

  /** The text "0.0.0", printed from the zero version. */
  function ZeroText(): (s: string)
    ensures s == "0.0.0"
  {
    assert NatToString(0) == "0";
    Format(Zero)
  }

  /** The base name cleans to the latest tag's version, or to `0.0.0`. */
  lemma BaseVersionClean(latest: Option<Tag>)
    requires latest.Some? ==> Valid(latest.value.version)
    ensures Clean(BaseName(latest)) == Some(BaseVersion(latest))
  {
    CleanFormat(if latest.Some? then latest.value.version else Zero);
  }

  /** The sha `checkMessages` starts listing commits at: the latest main tag's, or `""`. */
  function StartSha(latestMain: Option<Tag>): string
  {
    if latestMain.Some? then latestMain.value.sha else ""
  }

  /**
   * The level called for by the commits `listCommits` returns when started at the sha of the
   * latest main tag of `rest` (or at `""` without one).
   */
  function BumpLevel(p: Parameters, env: Env, rest: seq<Tag>): Level
  {
    Aggregate(env.commitsFrom(StartSha(LatestReleaseTag(rest))), p.issueLabels, env.labelsOf)
  }

  /**
   * `semver.inc(base, level)`, followed on a non-release branch by
   * `semver.inc(next, "prerelease", branch)`.
   */
  function Candidate(base: Version, level: Level, release: bool, branch: string): (w: Version)
    requires level != NoBump
    ensures Less(base, w)
    ensures release ==> IsReleaseOfLevel(w, level)
    ensures !release ==> w.pre == [Alnum(branch), Num(0)]
    ensures !release ==> Less(w, Inc(Inc(base, level), Patch))
    ensures release || ValidIdent(Alnum(branch)) ==> Valid(w)
  {
    var next := Inc(base, level);
    if release then next
    else
      var w := IncPrerelease(next, branch);
      LessTransitive(base, next, w);
      w
  }

  // ---------------------------------------------------------------------------------------------
  // checkSemver: the specification

  /**
   * What `checkSemver` returns for the catalog `tags`: no tag when the latest tag already points
   * at the head or the commits call for no release; otherwise the bumped version, checked against
   * the popped list by `checkStatic` with only `tag` and `force` set.
   */
  function SemverCheck(p: Parameters, ctx: Context, env: Env, tags: seq<Tag>): string
    requires IsCatalog(tags)
  {
    var latest := Last(tags);
    var rest := Popped(tags);
    if latest.Some? && latest.value.sha == ctx.sha then ""
    else
      var level := BumpLevel(p, env, rest);
      if level == NoBump then ""
      else
        var release := IsReleaseBranch(ctx.branchName, p.releaseBranch, env.matches);
        CheckStatic(Format(Candidate(BaseVersion(latest), level, release, ctx.branchName)), p.force, rest)
  }

  /**
   * `checkSemver(parameters, context, tagList)`: pops the latest tag off `tagList` (the caller's
   * list changes), finds the latest main tag among the rest, and decides the next tag.
   */
  method CheckSemver(p: Parameters, ctx: Context, env: Env, tagList: TagList) returns (newTag: string)
    requires IsCatalog(tagList.tags)
    modifies tagList
    ensures newTag == SemverCheck(p, ctx, env, old(tagList.tags))
    ensures tagList.tags == Popped(old(tagList.tags))
  {
    ghost var tags := tagList.tags;
    var latestTag := tagList.Pop();
    var latestMainTag := LatestReleaseTag(tagList.tags);
    if latestTag.Some? && latestTag.value.sha == ctx.sha {
      return "";
    }
    var versionTag := BaseName(latestTag);
    var versionSemver := Clean(versionTag);
    BaseVersionClean(latestTag);
    var bumpLevel := CheckMessages(env.commitsFrom(StartSha(latestMainTag)), p.issueLabels, env.labelsOf);
    if bumpLevel == NoBump {
      return "";
    }
    var nextVersion := Inc(versionSemver.value, bumpLevel);
    if !IsReleaseBranch(ctx.branchName, p.releaseBranch, env.matches) {
      nextVersion := IncPrerelease(nextVersion, ctx.branchName);
    }
    newTag := CheckStatic(Format(nextVersion), p.force, tagList.tags);
  }

  /**
   * `checkSemver` as written: after popping the list at lines 401-402, line 407 reads
   * `versionTag` before its `const` declaration at line 416, which throws a ReferenceError on
   * every call, before the head check at line 409. The pop itself is not kept here.
   */
  function CheckSemverAsWritten(p: Parameters, ctx: Context, env: Env, tags: seq<Tag>): Result<string>
  {
    Failure("Cannot access 'versionTag' before initialization")
  }

  datatype Result<T> = Success(value: T) | Failure(error: string)

  /**
   * As written, the semantic-version strategy fails on every input, while the intended one tags a
   * repository that has no tags yet whenever the commits call for a release.
   */
  lemma CheckSemverAsWrittenAlwaysFails(p: Parameters, ctx: Context, env: Env, tags: seq<Tag>)
    requires IsCatalog(tags)
    ensures CheckSemverAsWritten(p, ctx, env, tags).Failure?
    ensures tags == [] && BumpLevel(p, env, []) != NoBump && IsReleaseBranch(ctx.branchName, p.releaseBranch, env.matches)
      ==> SemverCheck(p, ctx, env, tags) == Format(Inc(Zero, BumpLevel(p, env, [])))
  {
  }

  // ---------------------------------------------------------------------------------------------
  // checkSemver: what it promises

  /** The latest tag already points at the head: nothing to tag. */
  lemma HeadAlreadyTagged(p: Parameters, ctx: Context, env: Env, tags: seq<Tag>)
    requires IsCatalog(tags) && tags != [] && tags[|tags| - 1].sha == ctx.sha
    ensures SemverCheck(p, ctx, env, tags) == ""
  {
  }

  /** Commits that call for no release (all work in progress, or no data): nothing to tag. */
  lemma NothingToRelease(p: Parameters, ctx: Context, env: Env, tags: seq<Tag>)
    requires IsCatalog(tags) && BumpLevel(p, env, Popped(tags)) == NoBump
    ensures SemverCheck(p, ctx, env, tags) == ""
  {
  }

  /** Every version of a sorted list is at most its last one. */
  lemma LastIsMax(tags: seq<Tag>)
    requires Sorted(tags) && tags != []
    ensures forall i :: 0 <= i < |tags| ==> LessEq(tags[i].version, tags[|tags| - 1].version)
  {
    forall i | 0 <= i < |tags| ensures LessEq(tags[i].version, tags[|tags| - 1].version) {
      if i == |tags| - 1 {
        CompareAntisymmetric(tags[i].version, tags[i].version);
      }
    }
  }

  /**
   * When there is something to release, `checkSemver` tags the head with a valid version above
   * every version in the repository, so the final collision check never refuses it: a release of
   * the bumped granularity on a release branch, a `<branch>.0` prerelease below the next patch
   * elsewhere. (A branch name must be a valid prerelease identifier for the tag to read back.)
   */
  lemma SemverTagIsNew(p: Parameters, ctx: Context, env: Env, tags: seq<Tag>)
    requires IsCatalog(tags)
    requires tags == [] || tags[|tags| - 1].sha != ctx.sha
    requires BumpLevel(p, env, Popped(tags)) != NoBump
    requires IsReleaseBranch(ctx.branchName, p.releaseBranch, env.matches) || ValidIdent(Alnum(ctx.branchName))
    ensures exists w :: (SemverCheck(p, ctx, env, tags) == Format(w) && Valid(w)
      && (forall i :: 0 <= i < |tags| ==> Less(tags[i].version, w))
      && (IsReleaseBranch(ctx.branchName, p.releaseBranch, env.matches) ==> IsReleaseOfLevel(w, BumpLevel(p, env, Popped(tags))))
      && (!IsReleaseBranch(ctx.branchName, p.releaseBranch, env.matches) ==> w.pre == [Alnum(ctx.branchName), Num(0)]))
  {
    var level := BumpLevel(p, env, Popped(tags));
    var release := IsReleaseBranch(ctx.branchName, p.releaseBranch, env.matches);
    var w := Candidate(BaseVersion(Last(tags)), level, release, ctx.branchName);
    SemverCheckProposes(p, ctx, env, tags);
    CandidateIsFresh(tags, level, release, ctx.branchName, p.force);
  }

  /** Past the head-sha and no-release exits, the semver check proposes the bumped candidate. */
  lemma SemverCheckProposes(p: Parameters, ctx: Context, env: Env, tags: seq<Tag>)
    requires IsCatalog(tags)
    requires tags == [] || tags[|tags| - 1].sha != ctx.sha
    requires BumpLevel(p, env, Popped(tags)) != NoBump
    ensures SemverCheck(p, ctx, env, tags) ==
      CheckStatic(Format(Candidate(BaseVersion(Last(tags)), BumpLevel(p, env, Popped(tags)),
                                   IsReleaseBranch(ctx.branchName, p.releaseBranch, env.matches), ctx.branchName)),
                  p.force, Popped(tags))
  {
  }

  /** The candidate bumped from a catalog's latest version is above every entry and passes the collision check. */
  lemma CandidateIsFresh(tags: seq<Tag>, level: Level, release: bool, branch: string, force: bool)
    requires IsCatalog(tags)
    requires level != NoBump
    requires release || ValidIdent(Alnum(branch))
    ensures var w := Candidate(BaseVersion(Last(tags)), level, release, branch);
      Valid(w) && CheckStatic(Format(w), force, Popped(tags)) == Format(w)
        && forall i :: 0 <= i < |tags| ==> Less(tags[i].version, w)
  {
    var w := Candidate(BaseVersion(Last(tags)), level, release, branch);
    AboveAll(tags, w);
    PoppedCatalog(tags);
    FreshVersionPasses(w, force, Popped(tags));
  }

  /** A version above the latest entry of a catalog is above every entry. */
  lemma AboveAll(tags: seq<Tag>, w: Version)
    requires IsCatalog(tags)
    requires Less(BaseVersion(Last(tags)), w)
    ensures forall i :: 0 <= i < |tags| ==> Less(tags[i].version, w)
  {
    if tags != [] {
      var base := tags[|tags| - 1].version;
      LastIsMax(tags);
      forall i | 0 <= i < |tags| ensures Less(tags[i].version, w) {
        LessTransitive(tags[i].version, base, w);
      }
    }
  }

  /** A valid version above every entry of a catalog passes the collision check. */
  lemma FreshVersionPasses(w: Version, force: bool, tags: seq<Tag>)
    requires IsCatalog(tags) && Valid(w)
    requires forall i :: 0 <= i < |tags| ==> Less(tags[i].version, w)
    ensures CheckStatic(Format(w), force, tags) == Format(w)
  {
    CheckTagVersion(tags, w);
    forall i | 0 <= i < |tags| ensures tags[i].version != w {
      CompareAntisymmetric(tags[i].version, w);
    }
  }

  /** The first tag of a repository on a release branch is the bump of `0.0.0`. */
  lemma FirstTag(p: Parameters, ctx: Context, env: Env)
    requires BumpLevel(p, env, []) != NoBump
    requires IsReleaseBranch(ctx.branchName, p.releaseBranch, env.matches)
    ensures SemverCheck(p, ctx, env, []) == Format(Inc(Zero, BumpLevel(p, env, [])))
    ensures SemverCheck(p, ctx, env, []) in {"0.0.1", "0.1.0", "1.0.0"}
  {
    FirstVersionTexts(BumpLevel(p, env, []));
  }

  /** The three first versions an untagged repository can get. */
  lemma FirstVersionTexts(level: Level)
    requires level != NoBump
    ensures level == Patch ==> Format(Inc(Zero, level)) == "0.0.1"
    ensures level == Minor ==> Format(Inc(Zero, level)) == "0.1.0"
    ensures level == Major ==> Format(Inc(Zero, level)) == "1.0.0"
  {
    assert NatToString(0) == "0" && NatToString(1) == "1";
  }

  /** In a sorted list, an entry above all the others is the last one. */
  lemma StrictMaxIsLast(tags: seq<Tag>, t: Tag)
    requires Sorted(tags) && t in tags
    requires forall i :: 0 <= i < |tags| ==> tags[i] == t || Less(tags[i].version, t.version)
    ensures tags[|tags| - 1] == t
  {
    var last := tags[|tags| - 1];
    var i :| 0 <= i < |tags| && tags[i] == t;
    if last != t {
      assert i < |tags| - 1;
      assert LessEq(t.version, last.version);
      CompareAntisymmetric(t.version, last.version);
    }
  }

  /** A listed tag whose version is above the whole catalog ends up last in the new catalog. */
  lemma NewTagOnTop(raw: seq<ListedTag>, x: ListedTag, t: Tag)
    requires Cleaned([x]) == [t]
    requires forall i :: 0 <= i < |GetAllTags(raw)| ==> Less(GetAllTags(raw)[i].version, t.version)
    ensures GetAllTags(raw + [x]) != [] && GetAllTags(raw + [x])[|GetAllTags(raw + [x])| - 1] == t
  {
    var tags := GetAllTags(raw);
    CleanedAppend(raw, x);
    var tags' := GetAllTags(raw + [x]);
    assert multiset(tags') == multiset(Cleaned(raw)) + multiset{t};
    assert t in tags' by {
      assert t in multiset(tags');
    }
    forall i | 0 <= i < |tags'| ensures tags'[i] == t || Less(tags'[i].version, t.version) {
      var u := tags'[i];
      assert u in multiset(tags');
      if u != t {
        assert u in multiset(tags);
        assert u in tags;
      }
    }
    StrictMaxIsLast(tags', t);
  }

  /** A tag named by a printed valid version is listed under that version. */
  lemma CleanedPrinted(w: Version, sha: string)
    requires Valid(w)
    ensures Format(w) != ""
    ensures Cleaned([ListedTag(Format(w), sha)]) == [Tag(w, sha)]
  {
    assert |FormatCore(w)| > 0;
    CleanFormat(w);
  }

  /** Tagging a commit with a version above the whole catalog puts that commit's tag last. */
  lemma TaggedHeadIsLast(raw: seq<ListedTag>, w: Version, sha: string)
    requires Valid(w)
    requires forall i :: 0 <= i < |GetAllTags(raw)| ==> Less(GetAllTags(raw)[i].version, w)
    ensures Format(w) != ""
    ensures GetAllTags(raw + [ListedTag(Format(w), sha)]) != []
    ensures GetAllTags(raw + [ListedTag(Format(w), sha)])[|GetAllTags(raw + [ListedTag(Format(w), sha)])| - 1].sha == sha
  {
    CleanedPrinted(w, sha);
    NewTagOnTop(raw, ListedTag(Format(w), sha), Tag(w, sha));
  }

  /**
   * Running the action again after the tag was applied to the head finds the head tagged and
   * hands out nothing: the new tag is the highest in the repository, so it is the one popped.
   */
  lemma RerunAfterTagging(p: Parameters, ctx: Context, env: Env, env': Env, raw: seq<ListedTag>)
    requires GetAllTags(raw) == [] || GetAllTags(raw)[|GetAllTags(raw)| - 1].sha != ctx.sha
    requires BumpLevel(p, env, Popped(GetAllTags(raw))) != NoBump
    requires IsReleaseBranch(ctx.branchName, p.releaseBranch, env.matches) || ValidIdent(Alnum(ctx.branchName))
    ensures SemverCheck(p, ctx, env, GetAllTags(raw)) != ""
    ensures SemverCheck(p, ctx, env', GetAllTags(raw + [ListedTag(SemverCheck(p, ctx, env, GetAllTags(raw)), ctx.sha)])) == ""
  {
    var tags := GetAllTags(raw);
    var r := SemverCheck(p, ctx, env, tags);
    var level := BumpLevel(p, env, Popped(tags));
    var release := IsReleaseBranch(ctx.branchName, p.releaseBranch, env.matches);
    var w := Candidate(BaseVersion(Last(tags)), level, release, ctx.branchName);
    SemverCheckProposes(p, ctx, env, tags);
    CandidateIsFresh(tags, level, release, ctx.branchName, p.force);
    assert r == Format(w);
    RerunFindsHeadTagged(p, ctx, env', raw, w);
  }

  /** Once the head carries a version above the whole catalog, the semver check hands out nothing. */
  lemma RerunFindsHeadTagged(p: Parameters, ctx: Context, env: Env, raw: seq<ListedTag>, w: Version)
    requires Valid(w)
    requires forall i :: 0 <= i < |GetAllTags(raw)| ==> Less(GetAllTags(raw)[i].version, w)
    ensures SemverCheck(p, ctx, env, GetAllTags(raw + [ListedTag(Format(w), ctx.sha)])) == ""
  {
    TaggedHeadIsLast(raw, w, ctx.sha);
    HeadAlreadyTagged(p, ctx, env, GetAllTags(raw + [ListedTag(Format(w), ctx.sha)]));
  }

  // ---------------------------------------------------------------------------------------------
  // chooseTaggingStyle and the handlers

  datatype CheckStrategy = StaticStrategy | SemverStrategy

  datatype ApplyStrategy = ApplyDry | ApplyTag

  datatype Handlers = Handlers(check: CheckStrategy, apply: ApplyStrategy)

  /**
   * `chooseTaggingStyle`: the static check when a tag is configured or the style is not semver,
   * the semver check otherwise; a dry run when `dryRun` is set.
   */
  function ChooseTaggingStyle(p: Parameters): (h: Handlers)
    ensures h.check == StaticStrategy <==> p.tag != "" || p.style != "semver"
    ensures h.apply == ApplyDry <==> p.dryRun
  {
    Handlers(if p.tag != "" || p.style != "semver" then StaticStrategy else SemverStrategy,
             if p.dryRun then ApplyDry else ApplyTag)
  }

  /** A date style always takes the static path, with the date text as its tag. */
  lemma DateStyleIsStatic(inputs: map<string, string>, stamp: string)
    requires stamp != "" && NormalStyle(GetInput(inputs, "style")) != "semver"
    ensures ChooseTaggingStyle(Normalized(inputs, stamp)).check == StaticStrategy
    ensures Normalized(inputs, stamp).tag == stamp
  {
    DateStyleForcesTag(inputs, stamp);
  }

  /** `handler.nextVersion(tagList)`: runs the chosen check on the catalog. */
  method NextVersion(h: Handlers, p: Parameters, ctx: Context, env: Env, tagList: TagList) returns (newTag: string)
    requires IsCatalog(tagList.tags)
    modifies tagList
    ensures h.check == StaticStrategy ==>
      newTag == CheckStatic(p.tag, p.force, old(tagList.tags)) && tagList.tags == old(tagList.tags)
    ensures h.check == SemverStrategy ==>
      newTag == SemverCheck(p, ctx, env, old(tagList.tags)) && tagList.tags == Popped(old(tagList.tags))
  {
    if h.check == StaticStrategy {
      newTag := CheckStatic(p.tag, p.force, tagList.tags);
    } else {
      newTag := CheckSemver(p, ctx, env, tagList);
    }
  }

  /** The reference `applyTag` creates: `refs/tags/<tag>` pointing at the head. */
  datatype CreatedRef = CreatedRef(ref: string, sha: string)

  /**
   * `handler.apply(newTag)`: a dry run creates nothing; `applyTag` creates nothing for an empty
   * tag and otherwise the tag's reference at the head commit.
   */
  function Apply(h: Handlers, ctx: Context, tag: string): (r: Option<CreatedRef>)
    ensures r.Some? <==> h.apply == ApplyTag && tag != ""
    ensures r.Some? ==> r.value == CreatedRef("refs/tags/" + tag, ctx.sha)
  {
    match h.apply
    case ApplyDry => None
    case ApplyTag => if tag == "" then None else Some(CreatedRef("refs/tags/" + tag, ctx.sha))
  }
}
