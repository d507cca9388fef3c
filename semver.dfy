/**
 * Semantic versions as the `semver` package treats them: a core `major.minor.patch`, an optional
 * list of prerelease identifiers, the precedence order `semver.compare` implements, and the
 * increments `semver.inc` performs for the release types the action passes it.
 */
module Semver {
  import opened Levels

  /** A prerelease identifier: numeric or alphanumeric. */
  datatype Ident = Num(n: nat) | Alnum(s: string)

  datatype Version = Version(major: nat, minor: nat, patch: nat, pre: seq<Ident>)
  {
    predicate IsPrerelease() { pre != [] }
  }

  /** The base version used when the repository has no tag yet. */
  const Zero := Version(0, 0, 0, [])

  function CmpNat(a: nat, b: nat): (r: int)
    ensures r < 0 <==> a < b
    ensures r == 0 <==> a == b
    ensures -1 <= r <= 1
  {
    if a < b then -1 else if a > b then 1 else 0
  }

  /** JavaScript's `<` on strings: character by character, a proper prefix first. */
  function CmpStr(a: string, b: string): (r: int)
    ensures -1 <= r <= 1
  {
    if a == [] && b == [] then 0
    else if a == [] then -1
    else if b == [] then 1
    else if a[0] < b[0] then -1
    else if a[0] > b[0] then 1
    else CmpStr(a[1..], b[1..])
  }

  /** Numeric identifiers compare numerically and precede alphanumeric ones. */
  function CmpIdent(a: Ident, b: Ident): (r: int)
    ensures -1 <= r <= 1
  {
    match (a, b)
    case (Num(x), Num(y)) => CmpNat(x, y)
    case (Num(_), Alnum(_)) => -1
    case (Alnum(_), Num(_)) => 1
    case (Alnum(x), Alnum(y)) => CmpStr(x, y)
  }

  /** Identifier lists compare field by field; a proper prefix comes first. */
  function CmpIdents(a: seq<Ident>, b: seq<Ident>): (r: int)
    ensures -1 <= r <= 1
  {
    if a == [] && b == [] then 0
    else if a == [] then -1
    else if b == [] then 1
    else if CmpIdent(a[0], b[0]) != 0 then CmpIdent(a[0], b[0])
    else CmpIdents(a[1..], b[1..])
  }

  /** A version without prerelease identifiers follows every prerelease of the same core. */
  function ComparePre(a: seq<Ident>, b: seq<Ident>): (r: int)
    ensures -1 <= r <= 1
  {
    if a == [] && b == [] then 0
    else if a == [] then 1
    else if b == [] then -1
    else CmpIdents(a, b)
  }

  /** `semver.compare(v, w)`: -1, 0 or 1 by version precedence. */
  function Compare(v: Version, w: Version): (r: int)
    ensures -1 <= r <= 1
  {
    if v.major != w.major then CmpNat(v.major, w.major)
    else if v.minor != w.minor then CmpNat(v.minor, w.minor)
    else if v.patch != w.patch then CmpNat(v.patch, w.patch)
    else ComparePre(v.pre, w.pre)
  }

  predicate Less(v: Version, w: Version) { Compare(v, w) < 0 }

  predicate LessEq(v: Version, w: Version) { Compare(v, w) <= 0 }

  // ---------------------------------------------------------------------------------------------
  // Precedence is a total order: antisymmetric, only equal versions compare as 0, transitive.

  lemma {:induction false} CmpStrAntisymmetric(a: string, b: string)
    ensures CmpStr(a, b) == -CmpStr(b, a)
    ensures CmpStr(a, b) == 0 <==> a == b
  {
    if a != [] && b != [] && a[0] == b[0] {
      CmpStrAntisymmetric(a[1..], b[1..]);
      assert a == [a[0]] + a[1..] && b == [b[0]] + b[1..];
    }
  }

  lemma {:induction false} CmpStrTransitive(a: string, b: string, c: string)
    requires CmpStr(a, b) <= 0 && CmpStr(b, c) <= 0
    ensures CmpStr(a, c) <= 0
  {
    if a != [] && b != [] && c != [] && a[0] == b[0] == c[0] {
      CmpStrTransitive(a[1..], b[1..], c[1..]);
    }
  }

  lemma CmpIdentAntisymmetric(a: Ident, b: Ident)
    ensures CmpIdent(a, b) == -CmpIdent(b, a)
    ensures CmpIdent(a, b) == 0 <==> a == b
  {
    if a.Alnum? && b.Alnum? {
      CmpStrAntisymmetric(a.s, b.s);
    }
  }

  lemma CmpIdentTransitive(a: Ident, b: Ident, c: Ident)
    requires CmpIdent(a, b) <= 0 && CmpIdent(b, c) <= 0
    ensures CmpIdent(a, c) <= 0
  {
    if a.Alnum? && b.Alnum? && c.Alnum? {
      CmpStrTransitive(a.s, b.s, c.s);
    }
  }

  lemma {:induction false} CmpIdentsAntisymmetric(a: seq<Ident>, b: seq<Ident>)
    ensures CmpIdents(a, b) == -CmpIdents(b, a)
    ensures CmpIdents(a, b) == 0 <==> a == b
  {
    if a != [] && b != [] {
      CmpIdentAntisymmetric(a[0], b[0]);
      if CmpIdent(a[0], b[0]) == 0 {
        CmpIdentsAntisymmetric(a[1..], b[1..]);
        assert a == [a[0]] + a[1..] && b == [b[0]] + b[1..];
      }
    }
  }

  lemma {:induction false} CmpIdentsTransitive(a: seq<Ident>, b: seq<Ident>, c: seq<Ident>)
    requires CmpIdents(a, b) <= 0 && CmpIdents(b, c) <= 0
    ensures CmpIdents(a, c) <= 0
  {
    if a != [] && b != [] && c != [] {
      CmpIdentAntisymmetric(a[0], b[0]);
      CmpIdentAntisymmetric(b[0], c[0]);
      CmpIdentAntisymmetric(a[0], c[0]);
      CmpIdentTransitive(a[0], b[0], c[0]);
      if CmpIdent(a[0], b[0]) == 0 && CmpIdent(b[0], c[0]) == 0 {
        CmpIdentsTransitive(a[1..], b[1..], c[1..]);
      }
    }
  }

  lemma CompareAntisymmetric(v: Version, w: Version)
    ensures Compare(v, w) == -Compare(w, v)
    ensures Compare(v, w) == 0 <==> v == w
  {
    if v.pre != [] && w.pre != [] {
      CmpIdentsAntisymmetric(v.pre, w.pre);
    }
  }

  lemma CompareTransitive(u: Version, v: Version, w: Version)
    requires LessEq(u, v) && LessEq(v, w)
    ensures LessEq(u, w)
  {
    if u.pre != [] && v.pre != [] && w.pre != []
       && (u.major, u.minor, u.patch) == (v.major, v.minor, v.patch) == (w.major, w.minor, w.patch)
    {
      CmpIdentsTransitive(u.pre, v.pre, w.pre);
    }
  }

  /** Strictness carries through a chain of comparisons. */
  lemma LessTransitive(u: Version, v: Version, w: Version)
    requires LessEq(u, v) && LessEq(v, w)
    requires Less(u, v) || Less(v, w)
    ensures Less(u, w)
  {
    CompareTransitive(u, v, w);
    CompareAntisymmetric(u, v);
    CompareAntisymmetric(v, w);
    CompareAntisymmetric(u, w);
  }

  // ---------------------------------------------------------------------------------------------
  // semver.inc

  /** A release version whose components below `level` are zero. */
  predicate IsReleaseOfLevel(w: Version, level: Level)
  {
    && w.pre == []
    && (level == Major ==> w.minor == 0 && w.patch == 0)
    && (level == Minor ==> w.patch == 0)
  }

  /**
   * `semver.inc(v, level)`: the next release of that granularity. A prerelease whose lower
   * components are already zero is released as its own core (`1.0.0-rc.1` bumps to `1.0.0`
   * for every level), as the `semver` package does.
   */
  function Inc(v: Version, level: Level): (r: Version)
    requires level != NoBump
    ensures IsReleaseOfLevel(r, level)
    ensures Less(v, r)
    ensures level != Major ==> r.major == v.major
    ensures level == Patch ==> r.minor == v.minor
  {
    match level
    case Major =>
      if v.minor == 0 && v.patch == 0 && v.pre != [] then Version(v.major, 0, 0, [])
      else Version(v.major + 1, 0, 0, [])
    case Minor =>
      if v.patch == 0 && v.pre != [] then Version(v.major, v.minor, 0, [])
      else Version(v.major, v.minor + 1, 0, [])
    case Patch =>
      if v.pre != [] then Version(v.major, v.minor, v.patch, [])
      else Version(v.major, v.minor, v.patch + 1, [])
  }

  /** No release of the bumped granularity lies strictly between `v` and `Inc(v, level)`. */
  lemma IncIsLeast(v: Version, level: Level, w: Version)
    requires level != NoBump
    requires IsReleaseOfLevel(w, level) && Less(v, w)
    ensures LessEq(Inc(v, level), w)
  {
  }

  /**
   * `semver.inc(v, "prerelease", id)` on a release version: a prerelease of the next patch,
   * with identifiers `id.0`.
   */
  function IncPrerelease(v: Version, id: string): (r: Version)
    requires v.pre == []
    ensures r.pre == [Alnum(id), Num(0)]
    ensures Less(v, r) && Less(r, Inc(v, Patch))
  {
    Version(v.major, v.minor, v.patch + 1, [Alnum(id), Num(0)])
  }
}
