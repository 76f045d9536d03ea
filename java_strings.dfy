/**
  * Substring search on strings, as `java.lang.String.indexOf(String)` performs it:
  * the lowest index at which the needle occurs in the receiver, or -1.
  */
module JavaStrings {

  /** `needle` occurs in `hay` starting at index `i`. */
  predicate OccursAt(needle: string, hay: string, i: nat) {
    i + |needle| <= |hay| && hay[i..i + |needle|] == needle
  }

  /** Reference definition of containment: `needle` is a contiguous slice of `hay`. */
  ghost predicate IsSubstring(needle: string, hay: string) {
    exists i, j :: 0 <= i <= j <= |hay| && hay[i..j] == needle
  }

  /** The search loop behind `indexOf`, started at position `from`. */
  function IndexOfFrom(hay: string, needle: string, from: nat): (r: int)
    decreases |hay| - from
    ensures r == -1 || from <= r
    ensures r != -1 ==> OccursAt(needle, hay, r)
    ensures forall k: nat :: from <= k && (r == -1 || k < r) ==> !OccursAt(needle, hay, k)
  {
    if from + |needle| > |hay| then -1
    else if hay[from..from + |needle|] == needle then from
    else IndexOfFrom(hay, needle, from + 1)
  }

  /** `hay.indexOf(needle)`: the first occurrence of `needle` in `hay`, or -1 when there is none. */
  function IndexOf(hay: string, needle: string): (r: int)
    ensures r == -1 <==> !IsSubstring(needle, hay)
    ensures r != -1 ==> 0 <= r && OccursAt(needle, hay, r)
    ensures forall k: nat :: k < r ==> !OccursAt(needle, hay, k)
  {
    var r := IndexOfFrom(hay, needle, 0);
    SubstringIsOccurrence(needle, hay);
    r
  }

  /** A slice-witness of containment and an occurrence index are the same thing. */
  lemma SubstringIsOccurrence(needle: string, hay: string)
    ensures IsSubstring(needle, hay) <==> exists k: nat :: OccursAt(needle, hay, k)
  {
    if IsSubstring(needle, hay) {
      var i, j :| 0 <= i <= j <= |hay| && hay[i..j] == needle;
      assert OccursAt(needle, hay, i);
    }
    if k: nat :| OccursAt(needle, hay, k) {
      assert hay[k..k + |needle|] == needle;
    }
  }

  /** The empty string is contained in every string. */
  lemma EmptyIsSubstring(hay: string)
    ensures IsSubstring("", hay)
  {
    assert hay[0..0] == "";
  }

  /** Containment is antisymmetric, so it is not a symmetric relation:
      two different strings are never each contained in the other. */
  lemma SubstringAntisymmetric(a: string, b: string)
    requires IsSubstring(a, b) && IsSubstring(b, a)
    ensures a == b
  {
  }
}
