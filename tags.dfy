/**
 * The repository's tags: the catalog `getAllTags` builds (names cleaned to semantic versions,
 * unparsable names dropped, sorted by precedence), the existence check `checkTag`, the
 * prerelease filter `dropPreReleaseTags`, and the tag list `checkSemver` pops from.
 */
module Tags {
  import opened Options
  import opened Semver
  import opened SemverText

  /** A tag as the host lists it: its name and the sha of the commit it points to. */
  datatype ListedTag = ListedTag(name: string, sha: string)

  /** A catalog entry: a tag whose cleaned name is the text of `version`. */
  datatype Tag = Tag(version: Version, sha: string)
  {
    function Name(): string { Format(version) }
  }

  // ---------------------------------------------------------------------------------------------
  // getAllTags: clean, filter, sort

  /** `t` is the listed tag `r` with its name cleaned. */
  predicate CleansTo(r: ListedTag, t: Tag)
  {
    Clean(r.name) == Some(t.version) && r.sha == t.sha
  }

  /** The tags whose names `semver.clean` accepts, renamed to the cleaned form, in listing order. */
  function Cleaned(raw: seq<ListedTag>): (tags: seq<Tag>)
    ensures |tags| <= |raw|
    ensures forall i :: 0 <= i < |tags| ==> Valid(tags[i].version)
  {
    if raw == [] then []
    else
      assert raw == [raw[0]] + raw[1..];
      var rest := Cleaned(raw[1..]);
      match Clean(raw[0].name)
      case None => rest
      case Some(v) =>
        assert Valid(v);
        var tags := [Tag(v, raw[0].sha)] + rest;
        assert forall i :: 0 < i < |tags| ==> tags[i] == rest[i - 1];
        tags
  }

  /** Exactly the listed tags that clean, each renamed to its cleaned form, are kept. */
  lemma {:induction false} CleanedMembers(raw: seq<ListedTag>, t: Tag)
    ensures t in Cleaned(raw) <==> exists r :: r in raw && CleansTo(r, t)
  {
    if raw != [] {
      var rest := raw[1..];
      CleanedMembers(rest, t);
      var c := Clean(raw[0].name);
      var head := if c.Some? then [Tag(c.value, raw[0].sha)] else [];
      assert Cleaned(raw) == head + Cleaned(rest);
      if t in Cleaned(raw) {
        if t in head {
          assert raw[0] in raw && CleansTo(raw[0], t);
        } else {
          var r :| r in rest && CleansTo(r, t);
          assert r in raw;
        }
      }
      if exists r :: r in raw && CleansTo(r, t) {
        var r :| r in raw && CleansTo(r, t);
        if r == raw[0] {
          assert t in head;
        } else {
          assert r in rest;
        }
      }
    }
  }

  lemma {:induction false} CleanedAppend(raw: seq<ListedTag>, r: ListedTag)
    ensures Cleaned(raw + [r]) == Cleaned(raw) + Cleaned([r])
  {
    assert [r][1..] == [];
    if raw != [] {
      var all := raw + [r];
      assert all[0] == raw[0] && all[1..] == raw[1..] + [r];
      CleanedAppend(raw[1..], r);
    } else {
      assert raw + [r] == [r];
    }
  }

  /** Ascending by precedence. */
  predicate Sorted(tags: seq<Tag>)
  {
    forall i, j :: 0 <= i < j < |tags| ==> LessEq(tags[i].version, tags[j].version)
  }

  /** What `getAllTags` promises its callers: valid versions in ascending order. */
  predicate IsCatalog(tags: seq<Tag>)
  {
    Sorted(tags) && forall i :: 0 <= i < |tags| ==> Valid(tags[i].version)
  }

  /** A sorted list stays sorted under a new head that precedes every entry. */
  lemma ConsSorted(x: Tag, tags: seq<Tag>)
    requires Sorted(tags)
    requires forall j :: 0 <= j < |tags| ==> LessEq(x.version, tags[j].version)
    ensures Sorted([x] + tags)
  {
    var r := [x] + tags;
    assert forall i :: 0 < i < |r| ==> r[i] == tags[i - 1];
  }

  /** Inserts `t` before the first entry that follows it, so equal versions keep their order. */
  function Insert(t: Tag, tags: seq<Tag>): (r: seq<Tag>)
    requires Sorted(tags)
    ensures Sorted(r)
    ensures multiset(r) == multiset(tags) + multiset{t}
    ensures forall i :: 0 <= i < |r| ==> r[i] == t || r[i] in tags
  {
    if tags == [] then [t]
    else if Less(t.version, tags[0].version) then
      assert forall j :: 0 <= j < |tags| ==> LessEq(t.version, tags[j].version) by {
        forall j | 0 <= j < |tags| ensures LessEq(t.version, tags[j].version) {
          if j > 0 {
            CompareTransitive(t.version, tags[0].version, tags[j].version);
          }
        }
      }
      ConsSorted(t, tags);
      [t] + tags
    else
      assert tags == [tags[0]] + tags[1..];
      var rest := Insert(t, tags[1..]);
      CompareAntisymmetric(t.version, tags[0].version);
      assert forall j :: 0 <= j < |rest| ==> LessEq(tags[0].version, rest[j].version);
      ConsSorted(tags[0], rest);
      [tags[0]] + rest
  }

  function SortTags(tags: seq<Tag>): (r: seq<Tag>)
    ensures Sorted(r)
    ensures multiset(r) == multiset(tags)
  {
    if tags == [] then []
    else
      var front := tags[..|tags| - 1];
      assert tags == front + [tags[|tags| - 1]];
      Insert(tags[|tags| - 1], SortTags(front))
  }

  /**
   * The catalog `getAllTags` intends to return (`.map(clean).filter(not null).sort(compare)`): the
   * cleanable tags, with cleaned names, ascending by precedence.
   */
  function GetAllTags(raw: seq<ListedTag>): (tags: seq<Tag>)
    ensures IsCatalog(tags)
    ensures multiset(tags) == multiset(Cleaned(raw))
  {
    var tags := SortTags(Cleaned(raw));
    assert forall i :: 0 <= i < |tags| ==> Valid(tags[i].version) by {
      forall i | 0 <= i < |tags| ensures Valid(tags[i].version) {
        assert tags[i] in multiset(Cleaned(raw));
      }
    }
    tags
  }

  // ---------------------------------------------------------------------------------------------
  // checkTag

  function FilterNamed(tags: seq<Tag>, name: string): (r: seq<Tag>)
    ensures forall t :: t in r <==> t in tags && t.Name() == name
  {
    if tags == [] then []
    else (if tags[0].Name() == name then [tags[0]] else []) + FilterNamed(tags[1..], name)
  }

  /** `checkTag(tagList, tagName)`: `tagList.filter(tag => tag.name === tagName).length > 0`. */
  function CheckTag(tags: seq<Tag>, name: string): (exists_: bool)
    ensures exists_ <==> exists i :: 0 <= i < |tags| && tags[i].Name() == name
  {
    var named := FilterNamed(tags, name);
    assert named != [] ==> named[0] in named;
    |named| > 0
  }

  /** On a catalog, a version's text is taken exactly when the version itself is. */
  lemma CheckTagVersion(tags: seq<Tag>, v: Version)
    requires IsCatalog(tags) && Valid(v)
    ensures CheckTag(tags, Format(v)) <==> exists i :: 0 <= i < |tags| && tags[i].version == v
  {
    forall i | 0 <= i < |tags| && tags[i].Name() == Format(v) ensures tags[i].version == v {
      FormatInjective(tags[i].version, v);
    }
  }

  // ---------------------------------------------------------------------------------------------
  // dropPreReleaseTags

  /** `b` holds the entries of `a` in the same order, possibly with others between them. */
  predicate IsSubsequence(a: seq<Tag>, b: seq<Tag>)
  {
    a == [] || (b != [] && ((a[0] == b[0] && IsSubsequence(a[1..], b[1..])) || IsSubsequence(a, b[1..])))
  }

  /** `tagList.filter(tag => semver.prerelease(tag.name) === null)`. */
  function DropPreReleaseTags(tags: seq<Tag>): seq<Tag>
  {
    if tags == [] then []
    else if tags[0].version.IsPrerelease() then DropPreReleaseTags(tags[1..])
    else [tags[0]] + DropPreReleaseTags(tags[1..])
  }

  /**
   * The filter keeps the release entries, as often as they occur and in their order, and drops
   * every prerelease.
   */
  lemma {:induction false} DropPreReleaseTagsKeepsReleases(tags: seq<Tag>)
    ensures IsSubsequence(DropPreReleaseTags(tags), tags)
    ensures forall t :: multiset(DropPreReleaseTags(tags))[t] == if t.version.IsPrerelease() then 0 else multiset(tags)[t]
  {
    if tags != [] {
      assert tags == [tags[0]] + tags[1..];
      var rest := DropPreReleaseTags(tags[1..]);
      DropPreReleaseTagsKeepsReleases(tags[1..]);
      if !tags[0].version.IsPrerelease() {
        assert ([tags[0]] + rest)[1..] == rest;
      }
    }
  }

  function Last(tags: seq<Tag>): Option<Tag>
  {
    if tags == [] then None else Some(tags[|tags| - 1])
  }

  /** `dropPreReleaseTags(tagList).pop()`: the last entry without prerelease identifiers. */
  function LatestReleaseTag(tags: seq<Tag>): (r: Option<Tag>)
    ensures r.Some? ==> r.value in tags && !r.value.version.IsPrerelease()
  {
    DropPreReleaseTagsKeepsReleases(tags);
    var kept := DropPreReleaseTags(tags);
    assert kept != [] ==> multiset(kept)[kept[|kept| - 1]] > 0;
    Last(kept)
  }

  /** Filtering a list with one more entry at the end keeps that entry exactly when it is a release. */
  lemma {:induction false} DropPreReleaseAppend(tags: seq<Tag>, t: Tag)
    ensures DropPreReleaseTags(tags + [t]) ==
      DropPreReleaseTags(tags) + (if t.version.IsPrerelease() then [] else [t])
  {
    if tags == [] {
      assert tags + [t] == [t];
      assert [t][1..] == [];
    } else {
      assert (tags + [t])[0] == tags[0];
      assert (tags + [t])[1..] == tags[1..] + [t];
      DropPreReleaseAppend(tags[1..], t);
    }
  }

  /** There is no latest release tag exactly when every entry is a prerelease. */
  lemma {:induction false} LatestReleaseTagNone(tags: seq<Tag>)
    ensures LatestReleaseTag(tags).None? <==> forall i :: 0 <= i < |tags| ==> tags[i].version.IsPrerelease()
  {
    if tags != [] {
      var front, t := tags[..|tags| - 1], tags[|tags| - 1];
      assert tags == front + [t];
      DropPreReleaseAppend(front, t);
      if t.version.IsPrerelease() {
        LatestReleaseTagNone(front);
        assert forall i :: 0 <= i < |front| ==> tags[i] == front[i];
      }
    }
  }

  /** The latest release tag is the last entry that is not a prerelease. */
  lemma {:induction false} LatestReleaseTagIsLast(tags: seq<Tag>)
    requires LatestReleaseTag(tags).Some?
    ensures exists i :: (0 <= i < |tags| && tags[i] == LatestReleaseTag(tags).value && !tags[i].version.IsPrerelease()
                         && forall j :: i < j < |tags| ==> tags[j].version.IsPrerelease())
  {
    var front, t := tags[..|tags| - 1], tags[|tags| - 1];
    assert tags == front + [t];
    DropPreReleaseAppend(front, t);
    if !t.version.IsPrerelease() {
      assert LatestReleaseTag(tags) == Some(t);
      assert tags[|tags| - 1] == t;
    } else {
      assert LatestReleaseTag(tags) == LatestReleaseTag(front);
      LatestReleaseTagIsLast(front);
      var i :| 0 <= i < |front| && front[i] == LatestReleaseTag(front).value && !front[i].version.IsPrerelease()
        && (forall j :: i < j < |front| ==> front[j].version.IsPrerelease());
      assert tags[i] == front[i];
      assert forall j :: i < j < |front| ==> tags[j] == front[j];
      assert forall j :: i < j < |tags| ==> tags[j].version.IsPrerelease();
    }
  }

  // ---------------------------------------------------------------------------------------------
  // The tag list checkSemver receives and pops its latest entry from.

  class TagList {
    var tags: seq<Tag>

    constructor (tags: seq<Tag>)
      ensures this.tags == tags
    {
      this.tags := tags;
    }

    /** `tagList.pop()`: removes and returns the last entry; `None` on an empty list. */
    method Pop() returns (last: Option<Tag>)
      modifies this
      ensures last == Last(old(tags))
      ensures old(tags) == [] ==> tags == []
      ensures old(tags) != [] ==> tags == old(tags)[..|old(tags)| - 1]
    {
      if tags == [] {
        last := None;
      } else {
        last := Some(tags[|tags| - 1]);
        tags := tags[..|tags| - 1];
      }
    }
  }
}
