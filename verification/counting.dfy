/**
 * Case-insensitive occurrence counting, the generator expression
 * `sum(1 for char in text.lower() if char == target)` shared by both servers.
 */
module Counting {
  import opened Chars

  /** How many characters of `s`, once lowered, equal `c`. */
  function Occurrences(s: string, c: char): (n: nat)
    ensures n <= |s|
  {
    if s == [] then 0
    else Occurrences(s[..|s| - 1], c) + (if Lower(s[|s| - 1]) == c then 1 else 0)
  }

  /** The positions of `s` whose lowered character is `c`: the reference definition of the count. */
  function Positions(s: string, c: char): set<nat> {
    set i: nat | i < |s| && Lower(s[i]) == c
  }

  /** The count is the number of matching positions. */
  lemma {:induction false} OccurrencesArePositions(s: string, c: char)
    ensures Occurrences(s, c) == |Positions(s, c)|
  {
    if s != [] {
      var p := s[..|s| - 1];
      OccurrencesArePositions(p, c);
      if Lower(s[|s| - 1]) == c {
        assert Positions(s, c) == Positions(p, c) + {|s| - 1};
      } else {
        assert Positions(s, c) == Positions(p, c);
      }
    }
  }

  /** A matching position makes the count at least one. */
  lemma OccurrencesPositive(s: string, c: char, k: nat)
    requires k < |s| && Lower(s[k]) == c
    ensures Occurrences(s, c) >= 1
  {
    OccurrencesArePositions(s, c);
    assert {k} <= Positions(s, c);
  }

  /** The count sees only the lowered text: upper- or lower-casing any character leaves it unchanged. */
  lemma OccurrencesIgnoreCase(s: string, t: string, c: char)
    requires |s| == |t|
    requires forall i | 0 <= i < |s| :: Lower(s[i]) == Lower(t[i])
    ensures Occurrences(s, c) == Occurrences(t, c)
  {
    OccurrencesArePositions(s, c);
    OccurrencesArePositions(t, c);
    assert Positions(s, c) == Positions(t, c);
  }
}
