/**
 * Commit messages to bump levels: `messageToBumpLevel` classifies one message by an ordered rule
 * list, and `checkMessages` folds the classified commits that `listCommits` returns when started at the previous main tag's sha into one
 * level, looking up the labels of every issue a commit claims to fix.
 */
module Commits {
  import opened Options
  import opened Strings
  import opened Levels
  import opened SemverText

  // ---------------------------------------------------------------------------------------------
  // The regular expressions of messageToBumpLevel

  /**
   * `\b` after a word character at index `j - 1`: the text ends at `j` or continues with a
   * non-word character.
   */
  predicate BoundaryAt(s: string, j: nat)
  {
    j == |s| || (j < |s| && !IsWordChar(s[j]))
  }

  /** `w` (ending in a word character) followed by `\b` matches at index `i`. */
  predicate MarkerAt(s: string, w: string, i: nat)
  {
    OccursAt(s, w, i) && BoundaryAt(s, i + |w|)
  }

  /** `new RegExp(/<w>\b/).test(s)` for a literal `w` ending in a word character. */
  predicate HasMarker(s: string, w: string)
  {
    exists i | 0 <= i <= |s| :: MarkerAt(s, w, i)
  }

  /** The number of decimal digits starting at index `j`: what the greedy `\d+` consumes. */
  function DigitRun(s: string, j: nat): (n: nat)
    requires j <= |s|
    ensures j + n <= |s|
    ensures forall k :: j <= k < j + n ==> IsDigit(s[k])
    ensures j + n == |s| || !IsDigit(s[j + n])
    decreases |s| - j
  {
    if j < |s| && IsDigit(s[j]) then 1 + DigitRun(s, j + 1) else 0
  }

  /**
   * Where the digits of `fix(?:es)? #(\d+)\b` start when the pattern matches at index `i`: after
   * `fixes #` or after `fix #` (at most one of the two can occur at `i`). The greedy `\d+` gives
   * back digits only to meet `\b`, and a shorter run is always followed by a digit, so a match
   * needs the whole run to be followed by a non-word character or the end.
   */
  function IssueDigitsAt(s: string, i: nat): Option<nat>
  {
    if OccursAt(s, "fixes #", i) then Some(i + 7)
    else if OccursAt(s, "fix #", i) then Some(i + 5)
    else None
  }

  /** The issue pattern matches at index `i`. */
  predicate IssueAt(s: string, i: nat)
  {
    match IssueDigitsAt(s, i)
    case None => false
    case Some(j) => DigitRun(s, j) >= 1 && BoundaryAt(s, j + DigitRun(s, j))
  }

  /** `Number(id[1])` for a match at index `i`. */
  function IssueNumberAt(s: string, i: nat): nat
    requires IssueAt(s, i)
  {
    var j := IssueDigitsAt(s, i).value;
    ParseNat(s[j..j + DigitRun(s, j)])
  }

  /** `issue.exec(s)` from index `from` on: the leftmost index where the issue pattern matches. */
  function FindIssue(s: string, from: nat): (r: Option<nat>)
    requires from <= |s|
    ensures r.Some? ==> from <= r.value <= |s| && IssueAt(s, r.value)
    ensures r.Some? ==> forall k :: from <= k < r.value ==> !IssueAt(s, k)
    ensures r.None? ==> forall k :: from <= k <= |s| ==> !IssueAt(s, k)
    decreases |s| - from
  {
    if IssueAt(s, from) then Some(from)
    else if from == |s| then None
    else
      var r := FindIssue(s, from + 1);
      assert !IssueAt(s, from);
      r
  }

  // ---------------------------------------------------------------------------------------------
  // messageToBumpLevel

  /**
   * What `messageToBumpLevel` returns: one of the levels "none", "patch", "minor", "major", or
   * the number of an issue the commit fixes.
   */
  datatype CommitLevel = Marked(level: Level) | IssueRef(issue: nat)

  /** `messageToBumpLevel(message)`: `#wip`, then `#major`, then `#minor`, then `fix #n`, else patch. */
  function Classify(message: string): (r: CommitLevel)
    ensures r.IssueRef? ==> r.issue > 0
  {
    if HasMarker(message, "#wip") then Marked(NoBump)
    else if HasMarker(message, "#major") then Marked(Major)
    else if HasMarker(message, "#minor") then Marked(Minor)
    else
      match FindIssue(message, 0)
      case Some(i) => if IssueNumberAt(message, i) > 0 then IssueRef(IssueNumberAt(message, i)) else Marked(Patch)
      case None => Marked(Patch)
  }

  /**
   * The rule list as a priority order: each outcome holds exactly when its own marker is present
   * and no marker of higher priority is; an issue is reported only for the leftmost `fix #n` and
   * only when its number is positive; everything else is a patch.
   */
  lemma ClassifyPriority(message: string)
    ensures Classify(message) == Marked(NoBump) <==> HasMarker(message, "#wip")
    ensures Classify(message) == Marked(Major) <==>
      !HasMarker(message, "#wip") && HasMarker(message, "#major")
    ensures Classify(message) == Marked(Minor) <==>
      !HasMarker(message, "#wip") && !HasMarker(message, "#major") && HasMarker(message, "#minor")
    ensures Classify(message).IssueRef? <==>
      && !HasMarker(message, "#wip") && !HasMarker(message, "#major") && !HasMarker(message, "#minor")
      && (exists i :: 0 <= i <= |message| && IssueAt(message, i)
           && (forall k :: 0 <= k < i ==> !IssueAt(message, k)) && IssueNumberAt(message, i) > 0)
    ensures Classify(message).IssueRef? ==> Classify(message).issue > 0
    ensures Classify(message).IssueRef? ==>
      FindIssue(message, 0).Some? && Classify(message).issue == IssueNumberAt(message, FindIssue(message, 0).value)
  {
    if Classify(message).IssueRef? {
      var i := FindIssue(message, 0).value;
      assert IssueAt(message, i) && IssueNumberAt(message, i) > 0;
    }
    if && !HasMarker(message, "#wip") && !HasMarker(message, "#major") && !HasMarker(message, "#minor")
       && (exists i :: 0 <= i <= |message| && IssueAt(message, i)
            && (forall k :: 0 <= k < i ==> !IssueAt(message, k)) && IssueNumberAt(message, i) > 0)
    {
      var i :| 0 <= i <= |message| && IssueAt(message, i)
        && (forall k :: 0 <= k < i ==> !IssueAt(message, k)) && IssueNumberAt(message, i) > 0;
      var f := FindIssue(message, 0);
      assert f.Some? && f.value == i;
    }
  }

  /** A message is a patch exactly when it carries no marker and no `fix #n` with a positive n. */
  lemma ClassifyPatch(message: string)
    ensures Classify(message) == Marked(Patch) <==>
      && !HasMarker(message, "#wip") && !HasMarker(message, "#major") && !HasMarker(message, "#minor")
      && (FindIssue(message, 0).None? || IssueNumberAt(message, FindIssue(message, 0).value) == 0)
  {
  }

  // ---------------------------------------------------------------------------------------------
  // checkMessages: the reference fold

  /** The issue has a label from the allowlist (`issueLabels.includes(label)` as intended). */
  predicate Enhances(labels: seq<string>, allow: seq<string>)
  {
    labels != [] && (labels[0] in allow || Enhances(labels[1..], allow))
  }

  lemma {:induction false} EnhancesSome(labels: seq<string>, allow: seq<string>)
    ensures Enhances(labels, allow) <==> exists l :: l in labels && l in allow
  {
    if labels != [] {
      EnhancesSome(labels[1..], allow);
      assert forall l :: l in labels <==> l == labels[0] || l in labels[1..];
    }
  }

  /** The level a classified commit stands for: an issue is minor when labelled as an enhancement. */
  function Resolve(c: CommitLevel, allow: seq<string>, labelsOf: nat -> seq<string>): (l: Level)
    ensures c.Marked? ==> l == c.level
    ensures c.IssueRef? ==> (l == Minor <==> Enhances(labelsOf(c.issue), allow))
    ensures c.IssueRef? ==> (l == Patch <==> !Enhances(labelsOf(c.issue), allow))
  {
    match c
    case Marked(level) => level
    case IssueRef(n) => if Enhances(labelsOf(n), allow) then Minor else Patch
  }

  /** The highest level of a list; `NoBump` for the empty list. */
  function MaxLevel(levels: seq<Level>): Level
  {
    if levels == [] then NoBump else Max(levels[0], MaxLevel(levels[1..]))
  }

  lemma {:induction false} MaxLevelUpper(levels: seq<Level>)
    ensures forall i :: 0 <= i < |levels| ==> Rank(levels[i]) <= Rank(MaxLevel(levels))
  {
    if levels != [] {
      MaxLevelUpper(levels[1..]);
      assert forall i :: 0 < i < |levels| ==> levels[i] == levels[1..][i - 1];
    }
  }

  lemma {:induction false} MaxLevelAttained(levels: seq<Level>)
    ensures MaxLevel(levels) in levels || MaxLevel(levels) == NoBump
  {
    if levels != [] {
      MaxLevelAttained(levels[1..]);
    }
  }

  /** The maximum is the one level in the list (or `NoBump`) that bounds all the others. */
  lemma MaxLevelIs(levels: seq<Level>, l: Level)
    requires l in levels || l == NoBump
    requires forall i :: 0 <= i < |levels| ==> Rank(levels[i]) <= Rank(l)
    ensures MaxLevel(levels) == l
  {
    MaxLevelUpper(levels);
    MaxLevelAttained(levels);
    if l in levels {
      var i :| 0 <= i < |levels| && levels[i] == l;
      RankInjective(MaxLevel(levels), l);
    } else if MaxLevel(levels) in levels {
      var i :| 0 <= i < |levels| && levels[i] == MaxLevel(levels);
      RankInjective(MaxLevel(levels), l);
    }
  }

  /** The fold depends only on which levels occur, not on their order or multiplicity. */
  lemma MaxLevelSameElements(a: seq<Level>, b: seq<Level>)
    requires forall l :: l in a <==> l in b
    ensures MaxLevel(a) == MaxLevel(b)
  {
    MaxLevelUpper(a);
    MaxLevelAttained(a);
    forall i | 0 <= i < |b| ensures Rank(b[i]) <= Rank(MaxLevel(a)) {
      assert b[i] in a;
    }
    MaxLevelIs(b, MaxLevel(a));
  }

  /** `result.data.map(commit => messageToBumpLevel(commit.message))`. */
  function ClassifyAll(messages: seq<string>): (levels: seq<CommitLevel>)
    ensures |levels| == |messages|
    ensures forall i :: 0 <= i < |messages| ==> levels[i] == Classify(messages[i])
  {
    seq(|messages|, i requires 0 <= i < |messages| => Classify(messages[i]))
  }

  function ResolveAll(levels: seq<CommitLevel>, allow: seq<string>, labelsOf: nat -> seq<string>): (r: seq<Level>)
    ensures |r| == |levels|
    ensures forall i :: 0 <= i < |levels| ==> r[i] == Resolve(levels[i], allow, labelsOf)
  {
    seq(|levels|, i requires 0 <= i < |levels| => Resolve(levels[i], allow, labelsOf))
  }

  /**
   * The level `checkMessages` decides: `NoBump` without commit data, otherwise the highest level
   * any commit stands for.
   */
  function Aggregate(commits: Option<seq<string>>, allow: seq<string>, labelsOf: nat -> seq<string>): Level
  {
    match commits
    case None => NoBump
    case Some(messages) => Decide(ClassifyAll(messages), allow, labelsOf)
  }

  /** The highest level the classified commits stand for. */
  function Decide(levels: seq<CommitLevel>, allow: seq<string>, labelsOf: nat -> seq<string>): Level
  {
    MaxLevel(ResolveAll(levels, allow, labelsOf))
  }

  /** Reordering the commits does not change the decision. */
  lemma AggregateOrderIndependent(a: seq<string>, b: seq<string>, allow: seq<string>, labelsOf: nat -> seq<string>)
    requires multiset(a) == multiset(b)
    ensures Aggregate(Some(a), allow, labelsOf) == Aggregate(Some(b), allow, labelsOf)
  {
    var ra := ResolveAll(ClassifyAll(a), allow, labelsOf);
    var rb := ResolveAll(ClassifyAll(b), allow, labelsOf);
    forall l ensures l in ra ==> l in rb {
      if l in ra {
        var i :| 0 <= i < |a| && ra[i] == l;
        assert a[i] in multiset(b);
        var j :| 0 <= j < |b| && b[j] == a[i];
        assert rb[j] == l;
      }
    }
    forall l ensures l in rb ==> l in ra {
      if l in rb {
        var j :| 0 <= j < |b| && rb[j] == l;
        assert b[j] in multiset(a);
        var i :| 0 <= i < |a| && a[i] == b[j];
        assert ra[i] == l;
      }
    }
    MaxLevelSameElements(ra, rb);
  }

  // ---------------------------------------------------------------------------------------------
  // checkMessages: the code

  /**
   * `levels.filter(bl => !testlevels.includes(bl))` with the evident intent of keeping only the
   * issue numbers.
   */
  function IssueRefs(levels: seq<CommitLevel>): (issues: seq<nat>)
    ensures forall n :: n in issues <==> IssueRef(n) in levels
  {
    if levels == [] then []
    else
      assert levels == [levels[0]] + levels[1..];
      (if levels[0].IssueRef? then [levels[0].issue] else []) + IssueRefs(levels[1..])
  }

  /**
   * `checkMessages`: `none` without commit data, otherwise the level the classified commits
   * decide. `labelsOf(n)` is the label list `getIssueLabel` fetches for issue `n`.
   */
  method CheckMessages(commits: Option<seq<string>>, allow: seq<string>, labelsOf: nat -> seq<string>)
    returns (level: Level)
    ensures level == Aggregate(commits, allow, labelsOf)
  {
    if commits.None? {
      return NoBump;
    }
    var levels := ClassifyAll(commits.value);
    level := DecideLevels(levels, allow, labelsOf);
  }

  /**
   * The decision of `checkMessages` on the classified commits: `major`, then `minor` if any commit
   * says so; otherwise, when commits fix issues, `minor` as soon as one issue carries an allowed
   * label and `patch` if none does; otherwise `patch` if any commit is a patch, else `none`.
   */
  method DecideLevels(levels: seq<CommitLevel>, allow: seq<string>, labelsOf: nat -> seq<string>)
    returns (level: Level)
    ensures level == Decide(levels, allow, labelsOf)
  {
    if Marked(Major) in levels {
      MajorDominates(levels, allow, labelsOf);
      return Major;
    }
    if Marked(Minor) in levels {
      MinorDominates(levels, allow, labelsOf);
      return Minor;
    }
    var issues := IssueRefs(levels);
    if |issues| > 0 {
      IssuesDecide(levels, allow, labelsOf, issues[0]);
      for k := 0 to |issues|
        invariant forall j :: 0 <= j < k ==> !Enhances(labelsOf(issues[j]), allow)
      {
        if Enhances(labelsOf(issues[k]), allow) {
          return Minor;
        }
      }
      return Patch;
    }
    forall i | 0 <= i < |levels| ensures levels[i] == Marked(NoBump) || levels[i] == Marked(Patch) {
      assert levels[i] in levels;
      match levels[i]
      case IssueRef(n) => assert false;
      case Marked(l) => assert l != Major && l != Minor;
    }
    PatchOrNothing(levels, allow, labelsOf);
    if Marked(Patch) in levels {
      return Patch;
    }
    return NoBump;
  }

  // ---------------------------------------------------------------------------------------------
  // What the decision promises

  /** Any `#major` commit makes the release major, wherever it sits. */
  lemma MajorDominates(levels: seq<CommitLevel>, allow: seq<string>, labelsOf: nat -> seq<string>)
    requires Marked(Major) in levels
    ensures Decide(levels, allow, labelsOf) == Major
  {
    var resolved := ResolveAll(levels, allow, labelsOf);
    var i :| 0 <= i < |levels| && levels[i] == Marked(Major);
    MaxLevelIs(resolved, resolved[i]);
  }

  /** Without a major commit, any `#minor` commit makes the release minor. */
  lemma MinorDominates(levels: seq<CommitLevel>, allow: seq<string>, labelsOf: nat -> seq<string>)
    requires Marked(Minor) in levels && Marked(Major) !in levels
    ensures Decide(levels, allow, labelsOf) == Minor
  {
    var resolved := ResolveAll(levels, allow, labelsOf);
    var i :| 0 <= i < |levels| && levels[i] == Marked(Minor);
    forall k | 0 <= k < |levels| ensures Rank(resolved[k]) <= Rank(Minor) {
      assert levels[k] != Marked(Major);
    }
    MaxLevelIs(resolved, resolved[i]);
  }

  /**
   * Without major or minor commits, fixed issues decide: minor exactly when some fixed issue
   * carries an allowed label, patch otherwise.
   */
  lemma IssuesDecide(levels: seq<CommitLevel>, allow: seq<string>, labelsOf: nat -> seq<string>, n: nat)
    requires IssueRef(n) in levels && Marked(Major) !in levels && Marked(Minor) !in levels
    ensures Decide(levels, allow, labelsOf) == Minor <==>
      exists m :: IssueRef(m) in levels && Enhances(labelsOf(m), allow)
    ensures Decide(levels, allow, labelsOf) == Patch <==>
      forall m :: IssueRef(m) in levels ==> !Enhances(labelsOf(m), allow)
  {
    var resolved := ResolveAll(levels, allow, labelsOf);
    if exists m :: IssueRef(m) in levels && Enhances(labelsOf(m), allow) {
      var m :| IssueRef(m) in levels && Enhances(labelsOf(m), allow);
      var k :| 0 <= k < |levels| && levels[k] == IssueRef(m);
      forall j | 0 <= j < |levels| ensures Rank(resolved[j]) <= Rank(Minor) {
        assert levels[j] != Marked(Major);
      }
      MaxLevelIs(resolved, resolved[k]);
    } else {
      var i :| 0 <= i < |levels| && levels[i] == IssueRef(n);
      forall j | 0 <= j < |levels| ensures Rank(resolved[j]) <= Rank(Patch) {
        assert levels[j] != Marked(Major) && levels[j] != Marked(Minor);
        if levels[j].IssueRef? {
          assert IssueRef(levels[j].issue) in levels;
        }
      }
      MaxLevelIs(resolved, resolved[i]);
    }
  }

  /**
   * Without major, minor or issue commits: patch when some commit is a patch, none when every
   * commit is work in progress (or there are none).
   */
  lemma PatchOrNothing(levels: seq<CommitLevel>, allow: seq<string>, labelsOf: nat -> seq<string>)
    requires forall i :: 0 <= i < |levels| ==> levels[i] == Marked(NoBump) || levels[i] == Marked(Patch)
    ensures Decide(levels, allow, labelsOf) == Patch <==> Marked(Patch) in levels
    ensures Decide(levels, allow, labelsOf) == NoBump <==> Marked(Patch) !in levels
  {
    var resolved := ResolveAll(levels, allow, labelsOf);
    if Marked(Patch) in levels {
      var k :| 0 <= k < |levels| && levels[k] == Marked(Patch);
      MaxLevelIs(resolved, resolved[k]);
    } else {
      MaxLevelIs(resolved, NoBump);
    }
  }

  /** Commits that are all work in progress (or no commits at all) give no release. */
  lemma AllWipNoRelease(messages: seq<string>, allow: seq<string>, labelsOf: nat -> seq<string>)
    requires forall i :: 0 <= i < |messages| ==> HasMarker(messages[i], "#wip")
    ensures Aggregate(Some(messages), allow, labelsOf) == NoBump
  {
    var levels := ClassifyAll(messages);
    forall i | 0 <= i < |levels| ensures levels[i] == Marked(NoBump) {
      ClassifyPriority(messages[i]);
    }
    PatchOrNothing(levels, allow, labelsOf);
  }

  // ---------------------------------------------------------------------------------------------
  // checkMessages as written

  /**
   * `issueLabels.includes(label)` at line 273: `label` is the whole label array the issue lookup
   * returns, never equal to one of the configured strings, so no issue is ever an enhancement.
   */
  function AggregateLabelsAsWritten(commits: Option<seq<string>>, allow: seq<string>, labelsOf: nat -> seq<string>): Level
  {
    Aggregate(commits, allow, NoLabels)
  }

  /** What the comparison at line 273 sees of every issue: no label equal to an allowed one. */
  function NoLabels(issue: nat): seq<string>
  {
    []
  }

  /** "fixes #1" carries none of the markers `#wip`, `#major` and `#minor`. */
  lemma FixesOneHasNoMarker()
    ensures !HasMarker("fixes #1", "#wip") && !HasMarker("fixes #1", "#major") && !HasMarker("fixes #1", "#minor")
  {
    var m := "fixes #1";
    forall i | 0 <= i <= |m| ensures !MarkerAt(m, "#wip", i) && !MarkerAt(m, "#major", i) && !MarkerAt(m, "#minor", i) {
      assert i < 6 ==> m[i] != '#';
      assert i + 4 <= |m| ==> m[i..i + 4][0] == m[i];
    }
  }

  /** "fixes #1" is classified as the fix of issue 1. */
  lemma FixesOneRefersToIssue()
    ensures Classify("fixes #1") == IssueRef(1)
  {
    var m := "fixes #1";
    FixesOneHasNoMarker();
    assert OccursAt(m, "fixes #", 0);
    assert DigitRun(m, 8) == 0;
    assert DigitRun(m, 7) == 1;
    assert IssueAt(m, 0);
    assert m[7..8] == "1";
    assert ParseNat("1") == 10 * ParseNat("") + 1;
    assert IssueNumberAt(m, 0) == 1;
    assert FindIssue(m, 0) == Some(0);
  }

  /**
   * A lone fix of an issue that carries an allowed label is a minor release as intended, but a
   * patch as written.
   */
  lemma LabelsAsWrittenMissEnhancement(m: string, n: nat, allow: seq<string>, labelsOf: nat -> seq<string>)
    requires Classify(m) == IssueRef(n) && Enhances(labelsOf(n), allow)
    ensures Aggregate(Some([m]), allow, labelsOf) == Minor
    ensures AggregateLabelsAsWritten(Some([m]), allow, labelsOf) == Patch
  {
    assert ClassifyAll([m]) == [IssueRef(n)];
    assert [Minor][1..] == [] && [Patch][1..] == [];
    assert ResolveAll([IssueRef(n)], allow, labelsOf) == [Minor];
    assert ResolveAll([IssueRef(n)], allow, NoLabels) == [Patch];
  }

  /** The concrete case: "fixes #1" with issue 1 labelled "enhancement". */
  lemma FixesOneAsWrittenIsPatch()
    ensures Aggregate(Some(["fixes #1"]), ["enhancement"], (n: nat) => ["enhancement"]) == Minor
    ensures AggregateLabelsAsWritten(Some(["fixes #1"]), ["enhancement"], (n: nat) => ["enhancement"]) == Patch
  {
    FixesOneRefersToIssue();
    var yes := (n: nat) => ["enhancement"];
    assert Enhances(yes(1), ["enhancement"]);
    LabelsAsWrittenMissEnhancement("fixes #1", 1, ["enhancement"], yes);
  }

  /**
   * What `checkMessages` as written comes to: a level, or a failed run when the lookup of issue
   * "none" throws.
   */
  datatype Outcome = Decided(level: Level) | LookupFailed

  /**
   * `levels.filter(bl => !testlevels.includes(bl))` at lines 265-267 as written: it drops the
   * levels "major", "minor" and "patch" only, so the "none" of a `#wip` commit stays in.
   */
  function KeptAsWritten(levels: seq<CommitLevel>): (kept: seq<CommitLevel>)
    ensures forall c :: c in kept <==> c in levels && (c.IssueRef? || c == Marked(NoBump))
  {
    if levels == [] then []
    else
      assert levels == [levels[0]] + levels[1..];
      var c := levels[0];
      (if c.IssueRef? || c == Marked(NoBump) then [c] else []) + KeptAsWritten(levels[1..])
  }

  /**
   * The loop at lines 270-278 over the kept entries, in order. An issue number is looked up in
   * `labelsOf`. The entry "none" is looked up as issue "none": `noneLabels` is what the host
   * answers, `None` when the request throws.
   */
  function LookupLoopAsWritten(kept: seq<CommitLevel>, allow: seq<string>, labelsOf: nat -> seq<string>,
                               noneLabels: Option<seq<string>>): Outcome
  {
    if kept == [] then Decided(Patch)
    else
      var labels := if kept[0].IssueRef? then Some(labelsOf(kept[0].issue)) else noneLabels;
      match labels
      case None => LookupFailed
      case Some(ls) =>
        if Enhances(ls, allow) then Decided(Minor) else LookupLoopAsWritten(kept[1..], allow, labelsOf, noneLabels)
  }

  /** `checkMessages` with the filter of lines 265-267 as written. */
  function AggregateKeepingNoneAsWritten(commits: Option<seq<string>>, allow: seq<string>, labelsOf: nat -> seq<string>,
                                         noneLabels: Option<seq<string>>): Outcome
  {
    match commits
    case None => Decided(NoBump)
    case Some(messages) =>
      var levels := ClassifyAll(messages);
      var kept := KeptAsWritten(levels);
      if Marked(Major) in levels then Decided(Major)
      else if Marked(Minor) in levels then Decided(Minor)
      else if kept != [] then LookupLoopAsWritten(kept, allow, labelsOf, noneLabels)
      else if Marked(Patch) in levels then Decided(Patch)
      else Decided(NoBump)
  }

  /**
   * A lone `#wip` commit is no release as intended. As written it does not decide "none": the run
   * looks up issue "none", and fails when that request throws or releases when the host answers.
   */
  lemma KeepingNoneAsWrittenTagsWip(allow: seq<string>, labelsOf: nat -> seq<string>, noneLabels: Option<seq<string>>)
    ensures Aggregate(Some(["#wip"]), allow, labelsOf) == NoBump
    ensures AggregateKeepingNoneAsWritten(Some(["#wip"]), allow, labelsOf, noneLabels) != Decided(NoBump)
    ensures noneLabels.None? ==> AggregateKeepingNoneAsWritten(Some(["#wip"]), allow, labelsOf, noneLabels) == LookupFailed
  {
    var m := "#wip";
    assert MarkerAt(m, "#wip", 0);
    assert Classify(m) == Marked(NoBump);
    assert ClassifyAll([m]) == [Marked(NoBump)];
    assert ResolveAll(ClassifyAll([m]), allow, labelsOf) == [NoBump];
    assert [NoBump][1..] == [];
    assert KeptAsWritten([Marked(NoBump)]) == [Marked(NoBump)];
    assert [Marked(NoBump)][1..] == [];
    var r := LookupLoopAsWritten([Marked(NoBump)], allow, labelsOf, noneLabels);
    assert LookupLoopAsWritten([], allow, labelsOf, noneLabels) == Decided(Patch);
    assert r == LookupFailed || r == Decided(Minor) || r == Decided(Patch);
  }

  /** Over issue numbers only, the loop finds an allowed label exactly when some issue has one. */
  lemma {:induction false} LookupLoopOverIssues(kept: seq<CommitLevel>, allow: seq<string>, labelsOf: nat -> seq<string>,
                                                noneLabels: Option<seq<string>>)
    requires forall i :: 0 <= i < |kept| ==> kept[i].IssueRef?
    ensures LookupLoopAsWritten(kept, allow, labelsOf, noneLabels) ==
      if exists m :: IssueRef(m) in kept && Enhances(labelsOf(m), allow) then Decided(Minor) else Decided(Patch)
  {
    if kept != [] {
      LookupLoopOverIssues(kept[1..], allow, labelsOf, noneLabels);
      assert kept == [kept[0]] + kept[1..];
      assert forall c :: c in kept <==> c == kept[0] || c in kept[1..];
    }
  }

  /** Without a `#wip` commit, the filter as written and the intended decision agree. */
  lemma KeepingNoneAgreesWithoutWip(messages: seq<string>, allow: seq<string>, labelsOf: nat -> seq<string>,
                                    noneLabels: Option<seq<string>>)
    requires Marked(NoBump) !in ClassifyAll(messages)
    ensures AggregateKeepingNoneAsWritten(Some(messages), allow, labelsOf, noneLabels)
      == Decided(Aggregate(Some(messages), allow, labelsOf))
  {
    var levels := ClassifyAll(messages);
    var kept := KeptAsWritten(levels);
    if Marked(Major) in levels {
      MajorDominates(levels, allow, labelsOf);
    } else if Marked(Minor) in levels {
      MinorDominates(levels, allow, labelsOf);
    } else if kept != [] {
      forall i | 0 <= i < |kept| ensures kept[i].IssueRef? {
        assert kept[i] in kept;
      }
      LookupLoopOverIssues(kept, allow, labelsOf, noneLabels);
      assert kept[0] in levels;
      IssuesDecide(levels, allow, labelsOf, kept[0].issue);
    } else {
      forall i | 0 <= i < |levels| ensures levels[i] == Marked(NoBump) || levels[i] == Marked(Patch) {
        assert levels[i] in levels;
        assert levels[i] !in kept;
      }
      PatchOrNothing(levels, allow, labelsOf);
    }
  }

  // ---------------------------------------------------------------------------------------------
  // Line 256 as written

  /**
   * The text the regular expressions of `messageToBumpLevel` test at line 256. A list-commits item
   * keeps its message at `commit.commit.message`, so `commit.message` is undefined, and a regular
   * expression tests undefined as this text.
   */
  const UndefinedText := "undefined"

  /** A text without `#` holds none of the markers, which all start with `#`. */
  lemma NoHashNoMarker(s: string, w: string)
    requires |w| >= 1 && w[0] == '#'
    requires forall j :: 0 <= j < |s| ==> s[j] != '#'
    ensures !HasMarker(s, w)
  {
    forall i | 0 <= i <= |s| ensures !MarkerAt(s, w, i) {
      if i + |w| <= |s| {
        assert s[i..i + |w|][0] == s[i];
      }
    }
  }

  /** A text without `x` holds no `fix #n`. */
  lemma NoXNoIssue(s: string)
    requires forall j :: 0 <= j < |s| ==> s[j] != 'x'
    ensures FindIssue(s, 0).None?
  {
    forall i | 0 <= i <= |s| ensures !IssueAt(s, i) {
      NoXNoIssueAt(s, i);
    }
  }

  /** Without `x`, neither `fix #` nor `fixes #` occurs at index `i`. */
  lemma NoXNoIssueAt(s: string, i: nat)
    requires forall j :: 0 <= j < |s| ==> s[j] != 'x'
    ensures !IssueAt(s, i)
  {
    if i + 5 <= |s| {
      assert s[i..i + 5][2] == s[i + 2];
    }
    if i + 7 <= |s| {
      assert s[i..i + 7][2] == s[i + 2];
    }
    assert IssueDigitsAt(s, i) == None;
  }

  /** "undefined" holds no marker and no `fix #n`, so it is a patch. */
  lemma UndefinedIsPatch()
    ensures Classify(UndefinedText) == Marked(Patch)
  {
    var m := UndefinedText;
    assert forall j :: 0 <= j < |m| ==> m[j] != '#' && m[j] != 'x';
    NoHashNoMarker(m, "#wip");
    NoHashNoMarker(m, "#major");
    NoHashNoMarker(m, "#minor");
    NoXNoIssue(m);
  }

  /** `result.data.map(commit => messageToBumpLevel(commit.message))` as written. */
  function ClassifyAllAsWritten(messages: seq<string>): (levels: seq<CommitLevel>)
    ensures |levels| == |messages|
  {
    seq(|messages|, i requires 0 <= i < |messages| => Classify(UndefinedText))
  }

  /** `checkMessages` with line 256 as written. */
  function AggregateMessageFieldAsWritten(commits: Option<seq<string>>, allow: seq<string>,
                                          labelsOf: nat -> seq<string>): Level
  {
    match commits
    case None => NoBump
    case Some(messages) => Decide(ClassifyAllAsWritten(messages), allow, labelsOf)
  }

  /** As written, commit data decides a patch whatever the messages say, and none for no commits. */
  lemma MessageFieldAsWrittenIsPatch(messages: seq<string>, allow: seq<string>, labelsOf: nat -> seq<string>)
    ensures AggregateMessageFieldAsWritten(Some(messages), allow, labelsOf) == if messages == [] then NoBump else Patch
  {
    UndefinedIsPatch();
    var levels := ClassifyAllAsWritten(messages);
    assert forall i :: 0 <= i < |levels| ==> levels[i] == Marked(Patch);
    PatchOrNothing(levels, allow, labelsOf);
    if messages != [] {
      assert levels[0] in levels;
    }
  }

  /** A lone `#major` commit is a major release as intended, but a patch as written. */
  lemma MajorAsWrittenIsPatch(allow: seq<string>, labelsOf: nat -> seq<string>)
    ensures Aggregate(Some(["#major"]), allow, labelsOf) == Major
    ensures AggregateMessageFieldAsWritten(Some(["#major"]), allow, labelsOf) == Patch
  {
    var m := "#major";
    MessageFieldAsWrittenIsPatch([m], allow, labelsOf);
    forall i | 0 <= i <= |m| ensures !MarkerAt(m, "#wip", i) {
      if i + 4 <= |m| {
        assert m[i..i + 4][1] == m[i + 1];
      }
    }
    assert MarkerAt(m, "#major", 0);
    assert Classify(m) == Marked(Major);
    assert ClassifyAll([m])[0] == Marked(Major);
    MajorDominates(ClassifyAll([m]), allow, labelsOf);
  }
}
