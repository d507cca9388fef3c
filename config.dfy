/**
 * `getParameters`: the action's inputs read one by one into a parameter record, renamed where the
 * code expects other names, and normalised: the `dry-run` and `force` flags, the `with-v`
 * prefix, the tagging style, the issue-label allowlist and the date tag that a date style forces.
 */
module Config {
  import opened Options
  import opened Strings

  /** The inputs `getParameters` reads, in its order. */
  const ParameterNames: seq<string> := ["branch", "bump", "dry-run", "force", "github-token", "issue-labels",
                                        "release-branch", "style", "tag", "version-prefix", "with-v"]

  /** The tagging styles the action knows. */
  const Styles: seq<string> := ["semver", "date", "datetime", "dotdate", "dotdatetime", "isodate", "isodatetime"]

  /** The label an issue must carry to make its fix a minor release, when none is configured. */
  const DefaultIssueLabel := "enhancement"

  datatype Parameters = Parameters(
    branch: string,
    bump: string,
    dryRun: bool,
    force: bool,
    token: string,
    issueLabels: seq<string>,
    releaseBranch: string,
    style: string,
    tag: string,
    prefix: string,
    withV: string)

  /**
   * `core.getInput(name)`: the value the workflow gave, trimmed, and `""` for an input it left
   * out.
   */
  function GetInput(inputs: map<string, string>, name: string): (r: string)
    ensures name !in inputs ==> r == ""
    ensures name in inputs ==> r == Trim(inputs[name])
    ensures r == [] || (!IsSpace(r[0]) && !IsSpace(r[|r| - 1]))
  {
    if name in inputs then Trim(inputs[name]) else ""
  }

  /** `value.toLowerCase() !== "false"`: every value but a spelling of "false" switches the flag on. */
  function Flag(value: string): (on: bool)
    ensures !on <==> |value| == 5 && forall i :: 0 <= i < 5 ==> LowerChar(value[i]) == "false"[i]
  {
    var lower := ToLower(value);
    assert lower == "false" <==> |value| == 5 && forall i :: 0 <= i < 5 ==> LowerChar(value[i]) == "false"[i];
    lower != "false"
  }

  /** `Styles.includes(style) ? style : "semver"`. */
  function NormalStyle(style: string): (r: string)
    ensures r in Styles
    ensures r == style <==> style in Styles
    ensures style !in Styles ==> r == "semver"
  {
    if style in Styles then style else "semver"
  }

  /**
   * The issue-label allowlist: the comma-separated entries, trimmed, or the default label when
   * the input is blank.
   */
  function IssueLabels(labels: string): (r: seq<string>)
    ensures |r| >= 1 && r != [""]
    ensures Trim(labels) == "" ==> r == [DefaultIssueLabel]
    ensures Trim(labels) != "" ==> r == TrimAll(Split(labels, ','))
  {
    var parts := TrimAll(Split(labels, ','));
    if parts == [""] then
      [DefaultIssueLabel]
    else
      assert Trim(labels) != "" by {
        if Trim(labels) == "" {
          BlankSplit(labels);
        }
      }
      parts
  }

  /** A blank input splits into one blank entry. */
  lemma BlankSplit(labels: string)
    requires Trim(labels) == ""
    ensures TrimAll(Split(labels, ',')) == [""]
  {
    var parts := Split(labels, ',');
    assert |TrimStart(labels)| == 0;
    forall i | 0 <= i < |labels| ensures labels[i] != ',' {
      assert IsSpace(labels[i]);
    }
    SplitFirstAbsent(labels, ',');
    assert parts == [labels];
  }

  /**
   * The allowlist as lines 63-67 compute it: `split` never returns an empty list, so the check
   * for an empty list never fires and a blank input gives the list `[""]`.
   */
  function IssueLabelsAsWritten(labels: string): (r: seq<string>)
    ensures |r| >= 1
  {
    var parts := TrimAll(Split(labels, ','));
    if |parts| == 0 then [DefaultIssueLabel] else parts
  }

  /**
   * The default of lines 65-67 never applies: a blank input keeps the list `[""]`, where the
   * corrected allowlist falls back to the default label.
   */
  lemma IssueLabelsAsWrittenNoDefault(labels: string)
    ensures IssueLabelsAsWritten(labels) == TrimAll(Split(labels, ','))
    ensures Trim(labels) == "" ==> IssueLabelsAsWritten(labels) == [""] && IssueLabels(labels) == [DefaultIssueLabel]
  {
    if Trim(labels) == "" {
      BlankSplit(labels);
    }
  }

  /**
   * `getDateStyle(style)` for the text `stamp` the wall clock gives: `""` unless the style names a
   * date.
   */
  function DateTag(style: string, stamp: string): (r: string)
    ensures !Contains(style, "date") ==> r == ""
    ensures Contains(style, "date") ==> r == stamp
  {
    if Contains(style, "date") then stamp else ""
  }

  /**
   * `getDateStyle(style)` as written, with `None` where the call throws. The styles that name a
   * date and a time but not ISO call `now.getHour()` (line 112), which a `Date` does not have.
   */
  function DateTagAsWritten(style: string, stamp: string): Option<string>
  {
    if !Contains(style, "date") then Some("")
    else if Contains(style, "iso") then Some(stamp)
    else if Contains(style, "datetime") then None
    else Some(stamp)
  }

  /** A word holding a character that `s` lacks does not occur in `s`. */
  lemma MissingCharNotContained(s: string, w: string, j: nat)
    requires j < |w| && forall i :: 0 <= i < |s| ==> s[i] != w[j]
    ensures !Contains(s, w)
  {
    forall i | 0 <= i <= |s| ensures !OccursAt(s, w, i) {
      if i + |w| <= |s| {
        assert s[i..i + |w|][j] == s[i + j];
      }
    }
  }

  /**
   * As written, the styles "datetime" and "dotdatetime" make `getParameters` throw, where the
   * intended tag is the date text; every other known style gives the intended date tag.
   */
  lemma DatetimeAsWrittenThrows(style: string, stamp: string)
    requires style in Styles
    ensures DateTagAsWritten(style, stamp).None? <==> style == "datetime" || style == "dotdatetime"
    ensures DateTagAsWritten(style, stamp).Some? ==> DateTagAsWritten(style, stamp).value == DateTag(style, stamp)
    ensures style != "semver" ==> DateTag(style, stamp) == stamp
  {
    StylesWithDate(style);
    if style == "date" || style == "dotdate" {
      MissingCharNotContained(style, "iso", 0);
      assert !Contains(style, "datetime");
    } else if style == "datetime" {
      MissingCharNotContained(style, "iso", 1);
      assert OccursAt(style, "datetime", 0);
    } else if style == "dotdatetime" {
      MissingCharNotContained(style, "iso", 1);
      assert style[3..11] == "datetime";
      assert OccursAt(style, "datetime", 3);
    } else if style == "isodate" || style == "isodatetime" {
      assert style[0..3] == "iso";
      assert OccursAt(style, "iso", 0);
    }
  }

  /**
   * The parameter record `getParameters` returns for the workflow inputs, with `stamp` the date
   * text a date style produces.
   */
  function Normalized(inputs: map<string, string>, stamp: string): (p: Parameters)
    ensures p.style in Styles
    ensures |p.issueLabels| >= 1
  {
    var style := NormalStyle(GetInput(inputs, "style"));
    var dateTag := DateTag(style, stamp);
    Parameters(
      branch := GetInput(inputs, "branch"),
      bump := GetInput(inputs, "bump"),
      dryRun := Flag(GetInput(inputs, "dry-run")),
      force := Flag(GetInput(inputs, "force")),
      token := GetInput(inputs, "github-token"),
      issueLabels := IssueLabels(GetInput(inputs, "issue-labels")),
      releaseBranch := GetInput(inputs, "release-branch"),
      style := style,
      tag := if dateTag == "" then GetInput(inputs, "tag") else dateTag,
      prefix := GetInput(inputs, "version-prefix"),
      withV := if ToLower(GetInput(inputs, "with-v")) == "false" then "" else GetInput(inputs, "version-prefix"))
  }

  /**
   * `getParameters()`: reads every input into a record (`Parameters.forEach`), copies the renamed
   * ones (`Remap`), then normalises flags, style, labels and the date tag.
   */
  method GetParameters(inputs: map<string, string>, stamp: string) returns (p: Parameters)
    ensures p == Normalized(inputs, stamp)
  {
    var params: map<string, string> := map[];
    var k := 0;
    while k < |ParameterNames|
      invariant 0 <= k <= |ParameterNames|
      invariant forall j :: 0 <= j < k ==> ParameterNames[j] in params && params[ParameterNames[j]] == GetInput(inputs, ParameterNames[j])
    {
      params := params[ParameterNames[k] := GetInput(inputs, ParameterNames[k])];
      k := k + 1;
    }
    assert ParameterNames[0] == "branch" && ParameterNames[1] == "bump" && ParameterNames[2] == "dry-run";
    assert ParameterNames[3] == "force" && ParameterNames[4] == "github-token" && ParameterNames[5] == "issue-labels";
    assert ParameterNames[6] == "release-branch" && ParameterNames[7] == "style" && ParameterNames[8] == "tag";
    assert ParameterNames[9] == "version-prefix" && ParameterNames[10] == "with-v";
    var token, labels, releaseBranch, prefix :=
      params["github-token"], params["issue-labels"], params["release-branch"], params["version-prefix"];
    var dryRun := ToLower(params["dry-run"]) != "false";
    var force := ToLower(params["force"]) != "false";
    var withV := if ToLower(params["with-v"]) == "false" then "" else prefix;
    var style := if params["style"] in Styles then params["style"] else "semver";
    var issueLabels := TrimAll(Split(labels, ','));
    if issueLabels == [""] {
      issueLabels := [DefaultIssueLabel];
    }
    var dateTag := DateTag(style, stamp);
    var tag := if dateTag == "" then params["tag"] else dateTag;
    p := Parameters(params["branch"], params["bump"], dryRun, force, token, issueLabels, releaseBranch, style, tag,
                    prefix, withV);
  }

  // ---------------------------------------------------------------------------------------------
  // What the normalisation promises

  /** Only a spelling of "false" turns `dry-run` or `force` off; a missing input leaves them on. */
  lemma FlagsDefaultOn(inputs: map<string, string>, stamp: string)
    ensures "dry-run" !in inputs ==> Normalized(inputs, stamp).dryRun
    ensures "force" !in inputs ==> Normalized(inputs, stamp).force
    ensures !Normalized(inputs, stamp).dryRun <==> ToLower(GetInput(inputs, "dry-run")) == "false"
    ensures Flag("FALSE") == false && Flag("False") == false && Flag("no") == true
  {
    assert ToLower("") == "";
    assert ToLower("FALSE") == "false";
    assert ToLower("False") == "false";
  }

  /** `with-v` set to a spelling of "false" drops the prefix; anything else keeps it. */
  lemma WithVPrefix(inputs: map<string, string>, stamp: string)
    ensures Normalized(inputs, stamp).withV == "" || Normalized(inputs, stamp).withV == Normalized(inputs, stamp).prefix
    ensures ToLower(GetInput(inputs, "with-v")) != "false" ==> Normalized(inputs, stamp).withV == GetInput(inputs, "version-prefix")
    ensures ToLower(GetInput(inputs, "with-v")) == "false" ==> Normalized(inputs, stamp).withV == ""
  {
  }

  /** Every known style but "semver" names a date. */
  lemma StylesWithDate(style: string)
    requires style in Styles
    ensures Contains(style, "date") <==> style != "semver"
  {
    if style == "semver" {
      forall i | 0 <= i <= |style| ensures !OccursAt(style, "date", i) {
        if i + 4 <= |style| {
          assert style[i..i + 4][0] == style[i];
        }
      }
    } else if style == "date" || style == "datetime" {
      assert OccursAt(style, "date", 0);
    } else {
      assert style in ["dotdate", "dotdatetime", "isodate", "isodatetime"];
      assert style[3..7] == "date";
      assert OccursAt(style, "date", 3);
    }
  }

  /** A date style replaces the `tag` input with the date text; the semver style keeps it. */
  lemma DateStyleForcesTag(inputs: map<string, string>, stamp: string)
    requires stamp != ""
    ensures Normalized(inputs, stamp).style != "semver" ==> Normalized(inputs, stamp).tag == stamp
    ensures Normalized(inputs, stamp).style == "semver" ==> Normalized(inputs, stamp).tag == GetInput(inputs, "tag")
  {
    StylesWithDate(Normalized(inputs, stamp).style);
  }
}
