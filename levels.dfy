/** Bump levels: the strings "none", "patch", "minor" and "major" of the source, in that order. */
module Levels {
  datatype Level = NoBump | Patch | Minor | Major

  function Rank(l: Level): nat
  {
    match l
    case NoBump => 0
    case Patch => 1
    case Minor => 2
    case Major => 3
  }

  /** The higher of two levels; one of the two. */
  function Max(a: Level, b: Level): (m: Level)
    ensures Rank(a) <= Rank(m) && Rank(b) <= Rank(m)
    ensures m == a || m == b
  {
    if Rank(a) >= Rank(b) then a else b
  }

  /** Levels are told apart by their rank. */
  lemma RankInjective(a: Level, b: Level)
    requires Rank(a) == Rank(b)
    ensures a == b
  {
  }
}
