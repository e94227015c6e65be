/**
 * The JavaScript string operations the tree code relies on:
 * `toLowerCase`, `indexOf` and `includes`.
 *
 * Lower-casing is modelled on ASCII letters only. JavaScript applies the
 * full Unicode case mapping, which can change a string's length.
 */
module Text {

  function LowerChar(c: char): char {
    if 'A' <= c <= 'Z' then (c as int + 32) as char else c
  }

  /** `s.toLowerCase()`, letter by letter. */
  function Lower(s: string): (r: string)
    ensures |r| == |s|
    ensures forall i :: 0 <= i < |s| ==> r[i] == LowerChar(s[i])
  {
    if s == [] then [] else [LowerChar(s[0])] + Lower(s[1..])
  }

  /** `q` occurs in `s` starting at position `i`. */
  predicate OccursAt(s: string, q: string, i: int) {
    0 <= i && i + |q| <= |s| && s[i..i + |q|] == q
  }

  /** `s.indexOf(q, from)`: the first position at or after `from` where `q` occurs, or -1. */
  function IndexFrom(s: string, q: string, from: nat): (r: int)
    requires from <= |s|
    ensures r == -1 || (from <= r && OccursAt(s, q, r))
    ensures forall j :: from <= j && (r == -1 || j < r) ==> !OccursAt(s, q, j)
    decreases |s| - from
  {
    if OccursAt(s, q, from) then from
    else if from == |s| then -1
    else IndexFrom(s, q, from + 1)
  }

  /** `s.indexOf(q)`. */
  function IndexOf(s: string, q: string): int {
    IndexFrom(s, q, 0)
  }

  /** `s.includes(q)`. */
  predicate Includes(s: string, q: string) {
    IndexOf(s, q) >= 0
  }

  /** Lower-casing commutes with slicing. */
  lemma LowerSlice(s: string, i: nat, j: nat)
    requires i <= j <= |s|
    ensures Lower(s[i..j]) == Lower(s)[i..j]
  {
  }

  /** Lower-casing twice is lower-casing once. */
  lemma LowerIdempotent(s: string)
    ensures Lower(Lower(s)) == Lower(s)
  {
    forall i | 0 <= i < |s| ensures Lower(Lower(s))[i] == Lower(s)[i] {
      assert LowerChar(LowerChar(s[i])) == LowerChar(s[i]);
    }
  }
}
