/**
 * The text form of a semantic version: `semver.clean` (trim, drop leading `=`/`v`, parse strictly)
 * and the canonical string the `semver` package prints, with the round trip between them.
 */
module SemverText {
  import opened Options
  import opened Strings
  import opened Semver

  function DigitChar(d: nat): char
    requires d < 10
  {
    ('0' as int + d) as char
  }

  function DigitValue(c: char): nat
    requires IsDigit(c)
  {
    c as int - '0' as int
  }

  /** Digits with no leading zero, as `0|[1-9]\d*` accepts. */
  predicate IsCanonicalNumber(s: string)
  {
    |s| >= 1 && AllDigits(s) && (s[0] == '0' ==> |s| == 1)
  }

  /** Decimal text of a natural number. */
  function NatToString(n: nat): (s: string)
    ensures IsCanonicalNumber(s)
    ensures s[0] == '0' ==> n == 0
  {
    if n < 10 then [DigitChar(n)] else NatToString(n / 10) + [DigitChar(n % 10)]
  }

  /** `Number(s)` for a string of decimal digits. */
  function ParseNat(s: string): nat
    requires AllDigits(s)
  {
    if s == [] then 0 else 10 * ParseNat(s[..|s| - 1]) + DigitValue(s[|s| - 1])
  }

  lemma {:induction false} ParseNatToString(n: nat)
    ensures ParseNat(NatToString(n)) == n
  {
    if n >= 10 {
      var s := NatToString(n);
      assert s[..|s| - 1] == NatToString(n / 10);
      ParseNatToString(n / 10);
    }
  }

  /** A character of a prerelease or build identifier: `[0-9A-Za-z-]`. */
  predicate IsIdentChar(c: char) { IsDigit(c) || IsLetter(c) || c == '-' }

  predicate IsIdentText(s: string)
  {
    |s| >= 1 && forall i :: 0 <= i < |s| ==> IsIdentChar(s[i])
  }

  predicate ValidIdent(id: Ident)
  {
    match id
    case Num(_) => true
    case Alnum(s) => IsIdentText(s) && !AllDigits(s)
  }

  /** Every prerelease identifier can be printed and read back. */
  predicate Valid(v: Version)
  {
    forall i :: 0 <= i < |v.pre| ==> ValidIdent(v.pre[i])
  }

  function FormatIdent(id: Ident): string
  {
    match id
    case Num(n) => NatToString(n)
    case Alnum(s) => s
  }

  function FormatIdents(ids: seq<Ident>): (parts: seq<string>)
    ensures |parts| == |ids|
    ensures forall i :: 0 <= i < |ids| ==> parts[i] == FormatIdent(ids[i])
  {
    seq(|ids|, i requires 0 <= i < |ids| => FormatIdent(ids[i]))
  }

  function FormatCore(v: Version): string
  {
    NatToString(v.major) + "." + NatToString(v.minor) + "." + NatToString(v.patch)
  }

  /** The canonical text of a version, as `semver.clean` and `semver.inc` return it. */
  function Format(v: Version): string
  {
    FormatCore(v) + (if v.pre == [] then "" else "-" + Join(FormatIdents(v.pre), '.'))
  }

  /** A prerelease identifier; a numeric one must not have a leading zero. */
  function ParseIdent(s: string): (r: Option<Ident>)
    ensures r.Some? ==> ValidIdent(r.value)
  {
    if !IsIdentText(s) then None
    else if AllDigits(s) then (if IsCanonicalNumber(s) then Some(Num(ParseNat(s))) else None)
    else Some(Alnum(s))
  }

  function ParseIdents(parts: seq<string>): (r: Option<seq<Ident>>)
    ensures r.Some? ==> |r.value| == |parts|
    ensures r.Some? ==> forall i :: 0 <= i < |r.value| ==> ValidIdent(r.value[i])
  {
    if parts == [] then Some([])
    else
      match (ParseIdent(parts[0]), ParseIdents(parts[1..]))
      case (Some(id), Some(ids)) => Some([id] + ids)
      case _ => None
  }

  function ParseCore(s: string): Option<(nat, nat, nat)>
  {
    var parts := Split(s, '.');
    if |parts| == 3 && IsCanonicalNumber(parts[0]) && IsCanonicalNumber(parts[1]) && IsCanonicalNumber(parts[2])
    then Some((ParseNat(parts[0]), ParseNat(parts[1]), ParseNat(parts[2])))
    else None
  }

  /** Build metadata: dot-separated identifiers, accepted and then dropped. */
  predicate IsBuildText(s: string)
  {
    var parts := Split(s, '.');
    forall i :: 0 <= i < |parts| ==> IsIdentText(parts[i])
  }

  /** `semver.parse` in strict mode: `core[-prerelease][+build]`. */
  function Parse(s: string): (r: Option<Version>)
    ensures r.Some? ==> Valid(r.value)
  {
    var (main, build) := SplitFirst(s, '+');
    if build.Some? && !IsBuildText(build.value) then None
    else
      var (core, pre) := SplitFirst(main, '-');
      match ParseCore(core)
      case None => None
      case Some((major, minor, patch)) =>
        if pre.None? then Some(Version(major, minor, patch, []))
        else
          match ParseIdents(Split(pre.value, '.'))
          case None => None
          case Some(ids) => Some(Version(major, minor, patch, ids))
  }

  /** `version.replace(/^[=v]+/, "")`. */
  function StripVersionPrefix(s: string): (r: string)
    ensures r == [] || (r[0] != '=' && r[0] != 'v')
  {
    if s != [] && (s[0] == '=' || s[0] == 'v') then StripVersionPrefix(s[1..]) else s
  }

  /** `semver.clean(s)`; `None` stands for `null`. */
  function Clean(s: string): (r: Option<Version>)
    ensures r.Some? ==> Valid(r.value)
  {
    Parse(StripVersionPrefix(Trim(s)))
  }

  // ---------------------------------------------------------------------------------------------
  // Round trip: cleaning the printed form of a valid version gives the version back.

  predicate IsVersionChar(c: char) { IsIdentChar(c) || c == '.' }

  predicate AllVersionChars(s: string) { forall i :: 0 <= i < |s| ==> IsVersionChar(s[i]) }

  lemma {:induction false} JoinVersionChars(parts: seq<string>)
    requires forall i :: 0 <= i < |parts| ==> AllVersionChars(parts[i])
    ensures AllVersionChars(Join(parts, '.'))
  {
    if |parts| > 1 {
      JoinVersionChars(parts[1..]);
    }
  }

  lemma FormatVersionChars(v: Version)
    requires Valid(v)
    ensures AllVersionChars(Format(v))
  {
    var parts := FormatIdents(v.pre);
    forall i | 0 <= i < |parts| ensures AllVersionChars(parts[i]) {
      assert ValidIdent(v.pre[i]);
    }
    JoinVersionChars(parts);
  }

  lemma {:induction false} ParseIdentsFormat(ids: seq<Ident>)
    requires forall i :: 0 <= i < |ids| ==> ValidIdent(ids[i])
    ensures ParseIdents(FormatIdents(ids)) == Some(ids)
  {
    if ids != [] {
      var parts := FormatIdents(ids);
      assert parts[1..] == FormatIdents(ids[1..]);
      ParseIdentsFormat(ids[1..]);
      if ids[0].Num? {
        ParseNatToString(ids[0].n);
      }
      assert ParseIdent(parts[0]) == Some(ids[0]);
      assert ids == [ids[0]] + ids[1..];
    }
  }

  /** The core text is digits and dots only. */
  lemma FormatCoreChars(v: Version)
    ensures forall i :: 0 <= i < |FormatCore(v)| ==> IsDigit(FormatCore(v)[i]) || FormatCore(v)[i] == '.'
  {
    var a, b, c := NatToString(v.major), NatToString(v.minor), NatToString(v.patch);
    assert FormatCore(v) == a + "." + b + "." + c;
  }

  lemma ParseCoreFormat(v: Version)
    ensures ParseCore(FormatCore(v)) == Some((v.major, v.minor, v.patch))
  {
    var parts := [NatToString(v.major), NatToString(v.minor), NatToString(v.patch)];
    assert Join(parts[2..], '.') == parts[2];
    assert Join(parts[1..], '.') == parts[1] + "." + parts[2];
    assert FormatCore(v) == Join(parts, '.');
    forall i | 0 <= i < 3 ensures '.' !in parts[i] {
      assert IsCanonicalNumber(parts[i]);
    }
    SplitJoin(parts, '.');
    ParseNatToString(v.major);
    ParseNatToString(v.minor);
    ParseNatToString(v.patch);
  }

  /** The prerelease text splits back into the printed identifiers and parses to them. */
  lemma ParsePreFormat(v: Version)
    requires Valid(v) && v.pre != []
    ensures ParseIdents(Split(Join(FormatIdents(v.pre), '.'), '.')) == Some(v.pre)
  {
    var parts := FormatIdents(v.pre);
    forall i | 0 <= i < |parts| ensures '.' !in parts[i] {
      assert ValidIdent(v.pre[i]);
      if v.pre[i].Num? {
        assert IsCanonicalNumber(parts[i]);
      }
    }
    SplitJoin(parts, '.');
    ParseIdentsFormat(v.pre);
  }

  /** Strict parsing reads back the printed form. */
  lemma ParseFormat(v: Version)
    requires Valid(v)
    ensures Parse(Format(v)) == Some(v)
  {
    var s := Format(v);
    FormatVersionChars(v);
    assert forall i | 0 <= i < |s| :: s[i] != '+' by {
      forall i | 0 <= i < |s| ensures s[i] != '+' {
        assert IsVersionChar(s[i]);
      }
    }
    SplitFirstAbsent(s, '+');
    var core := FormatCore(v);
    FormatCoreChars(v);
    assert forall i | 0 <= i < |core| :: core[i] != '-';
    ParseCoreFormat(v);
    if v.pre == [] {
      assert s == core;
      SplitFirstAbsent(core, '-');
    } else {
      var pre := Join(FormatIdents(v.pre), '.');
      assert s == core + ['-'] + pre;
      SplitFirstAt(core, '-', pre);
      ParsePreFormat(v);
    }
  }

  /** Text made of version characters holds no white space, so trimming leaves it alone. */
  lemma TrimPlain(s: string)
    requires s != [] && AllVersionChars(s)
    ensures Trim(s) == s
  {
    assert IsVersionChar(s[0]) && IsVersionChar(s[|s| - 1]);
    TrimNoSpace(s);
  }

  /** Text that starts with a digit has no `=`/`v` prefix to drop. */
  lemma StripPlain(s: string)
    requires s != [] && IsDigit(s[0])
    ensures StripVersionPrefix(s) == s
  {
  }

  /** `semver.clean` reads back every version it prints. */
  lemma CleanFormat(v: Version)
    requires Valid(v)
    ensures Clean(Format(v)) == Some(v)
  {
    FormatVersionChars(v);
    FormatCoreChars(v);
    assert Format(v)[0] == FormatCore(v)[0];
    TrimPlain(Format(v));
    StripPlain(Format(v));
    ParseFormat(v);
    assert Clean(Format(v)) == Parse(StripVersionPrefix(Trim(Format(v))));
  }

  /** Distinct valid versions print differently, so a tag name identifies its version. */
  lemma FormatInjective(v: Version, w: Version)
    requires Valid(v) && Valid(w)
    requires Format(v) == Format(w)
    ensures v == w
  {
    CleanFormat(v);
    CleanFormat(w);
  }
}
