/**
 * `isReleaseBranch`: the branch is a release branch when one of the comma-separated, trimmed
 * patterns of the `release-branch` parameter matches its name. Regular-expression matching is
 * the parameter `matches(pattern, branch)`.
 */
module Branches {
  import opened Strings

  /** `.map(b => new RegExp(b.trim()).test(branch)).filter(e => e)`: the patterns that match. */
  function MatchingPatterns(patterns: seq<string>, branch: string, matches: (string, string) -> bool): (r: seq<string>)
    ensures forall p :: p in r <==> p in patterns && matches(p, branch)
  {
    if patterns == [] then []
    else
      assert patterns == [patterns[0]] + patterns[1..];
      (if matches(patterns[0], branch) then [patterns[0]] else []) + MatchingPatterns(patterns[1..], branch, matches)
  }

  /** The patterns of the `release-branch` parameter: split at commas and trimmed. */
  function Patterns(allowed: string): seq<string>
  {
    TrimAll(Split(allowed, ','))
  }

  /** `isReleaseBranch(branch, allowed)`: some trimmed pattern matches the branch. */
  function IsReleaseBranch(branch: string, allowed: string, matches: (string, string) -> bool): (r: bool)
    ensures r <==> exists i :: 0 <= i < |Patterns(allowed)| && matches(Patterns(allowed)[i], branch)
  {
    var matching := MatchingPatterns(Patterns(allowed), branch, matches);
    assert matching != [] ==> matching[0] in matching;
    |matching| > 0
  }

  /**
   * A list written out with commas is a release list for exactly the branches one of its trimmed
   * entries matches, whatever the order of the entries.
   */
  lemma ReleaseBranchOfList(entries: seq<string>, branch: string, matches: (string, string) -> bool)
    requires |entries| >= 1
    requires forall i :: 0 <= i < |entries| ==> ',' !in entries[i]
    ensures IsReleaseBranch(branch, Join(entries, ','), matches) <==>
      exists i :: 0 <= i < |entries| && matches(Trim(entries[i]), branch)
  {
    SplitJoin(entries, ',');
  }

  /** Listing the same patterns in another order (or repeating some) does not change the answer. */
  lemma ReleaseBranchOrderIndependent(a: seq<string>, b: seq<string>, branch: string, matches: (string, string) -> bool)
    requires |a| >= 1 && |b| >= 1
    requires forall i :: 0 <= i < |a| ==> ',' !in a[i]
    requires forall i :: 0 <= i < |b| ==> ',' !in b[i]
    requires forall p :: p in a <==> p in b
    ensures IsReleaseBranch(branch, Join(a, ','), matches) == IsReleaseBranch(branch, Join(b, ','), matches)
  {
    ReleaseBranchOfList(a, branch, matches);
    ReleaseBranchOfList(b, branch, matches);
    if exists i :: 0 <= i < |a| && matches(Trim(a[i]), branch) {
      var i :| 0 <= i < |a| && matches(Trim(a[i]), branch);
      assert a[i] in b;
    }
    if exists i :: 0 <= i < |b| && matches(Trim(b[i]), branch) {
      var i :| 0 <= i < |b| && matches(Trim(b[i]), branch);
      assert b[i] in a;
    }
  }
}
