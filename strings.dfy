/**
 * String helpers for `split`, `join`, `trim` and `toLowerCase`. `split` and `join` follow
 * JavaScript; `trim` knows four white-space characters and `toLowerCase` lowers ASCII letters only.
 */
module Strings {
  import opened Options

  predicate IsDigit(c: char) { '0' <= c <= '9' }

  predicate IsLetter(c: char) { 'a' <= c <= 'z' || 'A' <= c <= 'Z' }

  /** `\w` of a JavaScript regular expression. */
  predicate IsWordChar(c: char) { IsDigit(c) || IsLetter(c) || c == '_' }

  /** The ASCII white space `String.prototype.trim` removes. */
  predicate IsSpace(c: char) { c == ' ' || c == '\t' || c == '\n' || c == '\r' }

  predicate AllDigits(s: string) { forall i :: 0 <= i < |s| ==> IsDigit(s[i]) }

  /** `w` occurs in `s` starting at index `i`. */
  predicate OccursAt(s: string, w: string, i: nat) { i + |w| <= |s| && s[i..i + |w|] == w }

  predicate Contains(s: string, w: string) { exists i | 0 <= i <= |s| :: OccursAt(s, w, i) }

  function LowerChar(c: char): char { if 'A' <= c <= 'Z' then (c as int + 32) as char else c }

  /** `s.toLowerCase()` on ASCII letters. */
  function ToLower(s: string): (r: string)
    ensures |r| == |s|
    ensures forall i :: 0 <= i < |s| ==> r[i] == LowerChar(s[i])
  {
    if s == [] then [] else [LowerChar(s[0])] + ToLower(s[1..])
  }

  /** The text before the first `c` and, if `c` occurs, the text after it. */
  function SplitFirst(s: string, c: char): (r: (string, Option<string>))
    ensures c !in r.0
    ensures r.1.None? ==> r.0 == s
    ensures r.1.Some? ==> s == r.0 + [c] + r.1.value
  {
    if s == [] then ("", None)
    else if s[0] == c then ("", Some(s[1..]))
    else
      var (before, after) := SplitFirst(s[1..], c);
      ([s[0]] + before, after)
  }

  lemma {:induction false} SplitFirstAt(a: string, c: char, b: string)
    requires c !in a
    ensures SplitFirst(a + [c] + b, c) == (a, Some(b))
  {
    if a != [] {
      assert (a + [c] + b)[1..] == a[1..] + [c] + b;
      SplitFirstAt(a[1..], c, b);
      assert (a + [c] + b)[0] == a[0] && a == [a[0]] + a[1..];
    } else {
      assert (a + [c] + b)[1..] == b;
    }
  }

  lemma {:induction false} SplitFirstAbsent(a: string, c: char)
    requires c !in a
    ensures SplitFirst(a, c) == (a, None)
  {
    if a != [] {
      SplitFirstAbsent(a[1..], c);
      assert a == [a[0]] + a[1..];
    }
  }

  /** `parts.join(c)`. */
  function Join(parts: seq<string>, c: char): string
  {
    if |parts| == 0 then ""
    else if |parts| == 1 then parts[0]
    else parts[0] + [c] + Join(parts[1..], c)
  }

  /** `s.split(c)` for a one-character separator: never empty, `"".split(c) == [""]`. */
  function Split(s: string, c: char): (parts: seq<string>)
    ensures |parts| >= 1
    ensures forall i :: 0 <= i < |parts| ==> c !in parts[i]
    ensures Join(parts, c) == s
    decreases |s|
  {
    match SplitFirst(s, c)
    case (before, None) => [before]
    case (before, Some(after)) => [before] + Split(after, c)
  }

  /** Splitting a joined list gives the list back when no part holds the separator. */
  lemma {:induction false} SplitJoin(parts: seq<string>, c: char)
    requires |parts| >= 1
    requires forall i :: 0 <= i < |parts| ==> c !in parts[i]
    ensures Split(Join(parts, c), c) == parts
  {
    if |parts| == 1 {
      SplitFirstAbsent(parts[0], c);
    } else {
      SplitFirstAt(parts[0], c, Join(parts[1..], c));
      SplitJoin(parts[1..], c);
      assert parts == [parts[0]] + parts[1..];
    }
  }

  /** The number of white-space characters from index `j` up to the first other one. */
  function SpacesFrom(s: string, j: nat): (n: nat)
    requires j <= |s|
    ensures j + n <= |s|
    ensures forall k :: j <= k < j + n ==> IsSpace(s[k])
    ensures j + n == |s| || !IsSpace(s[j + n])
    decreases |s| - j
  {
    if j < |s| && IsSpace(s[j]) then 1 + SpacesFrom(s, j + 1) else 0
  }

  function TrimStart(s: string): (r: string)
    ensures |r| <= |s| && forall k :: 0 <= k < |r| ==> r[k] == s[|s| - |r| + k]
    ensures r == [] || !IsSpace(r[0])
    ensures forall k :: 0 <= k < |s| - |r| ==> IsSpace(s[k])
  {
    s[SpacesFrom(s, 0)..]
  }

  function TrimEnd(s: string): (r: string)
    ensures |r| <= |s| && forall k :: 0 <= k < |r| ==> r[k] == s[k]
    ensures r == [] || !IsSpace(r[|r| - 1])
    ensures forall k :: |r| <= k < |s| ==> IsSpace(s[k])
  {
    if s != [] && IsSpace(s[|s| - 1]) then
      var front := s[..|s| - 1];
      var r := TrimEnd(front);
      assert forall k :: 0 <= k < |r| ==> r[k] == front[k] == s[k];
      r
    else s
  }

  /** `s.trim()`: the text between the leading and the trailing white space of `s`. */
  function Trim(s: string): (r: string)
    ensures |r| <= |s|
    ensures r == [] || (!IsSpace(r[0]) && !IsSpace(r[|r| - 1]))
    ensures exists k :: (0 <= k <= |s| && |r| <= |s| - k && r == s[k..][..|r|]
                         && (forall j :: 0 <= j < k ==> IsSpace(s[j]))
                         && (forall j :: k + |r| <= j < |s| ==> IsSpace(s[j])))
  {
    var k := SpacesFrom(s, 0);
    var t := s[k..];
    var r := TrimEnd(t);
    PrefixOfSuffix(s, k, t, r);
    r
  }

  /**
   * A prefix `r` of the suffix `t` of `s` from index `k`, followed in `t` only by white space, is
   * followed in `s` only by white space too.
   */
  lemma PrefixOfSuffix(s: string, k: nat, t: string, r: string)
    requires k <= |s| && t == s[k..]
    requires |r| <= |t| && forall i :: 0 <= i < |r| ==> r[i] == t[i]
    requires forall i :: |r| <= i < |t| ==> IsSpace(t[i])
    ensures |r| <= |s| - k && r == s[k..][..|r|]
    ensures forall j :: k + |r| <= j < |s| ==> IsSpace(s[j])
  {
    forall j | k + |r| <= j < |s| ensures IsSpace(s[j]) {
      assert s[j] == t[j - k];
    }
  }

  /** A string that neither starts nor ends with white space is its own trim. */
  lemma TrimNoSpace(s: string)
    requires s == [] || (!IsSpace(s[0]) && !IsSpace(s[|s| - 1]))
    ensures Trim(s) == s
  {
  }

  /** `parts.map(p => p.trim())`. */
  function TrimAll(parts: seq<string>): (r: seq<string>)
    ensures |r| == |parts|
    ensures forall i :: 0 <= i < |parts| ==> r[i] == Trim(parts[i])
  {
    seq(|parts|, i requires 0 <= i < |parts| => Trim(parts[i]))
  }
}
