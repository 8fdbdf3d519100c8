// Extension comparison: the `!stricmp(a, b)` test, that is, equality of two
// strings after mapping ASCII upper-case letters to lower case.
module ExtCompare {

  /** tolower in the C locale. */
  function Lower(c: char): char {
    if 'A' <= c <= 'Z' then (c as int - 'A' as int + 'a' as int) as char else c
  }

  /** True exactly when stricmp(a, b) returns 0. */
  predicate SameExt(a: string, b: string)
    ensures a == b ==> SameExt(a, b)
    ensures SameExt(a, b) ==> |a| == |b|
  {
    |a| == |b| && forall i :: 0 <= i < |a| ==> Lower(a[i]) == Lower(b[i])
  }

  lemma SameExtReflexive(a: string)
    ensures SameExt(a, a)
  {
  }

  lemma SameExtSymmetric(a: string, b: string)
    ensures SameExt(a, b) <==> SameExt(b, a)
  {
  }

  lemma SameExtTransitive(a: string, b: string, c: string)
    requires SameExt(a, b) && SameExt(b, c)
    ensures SameExt(a, c)
  {
  }

  /** stricmp compares up to the terminating NUL, so strings of different lengths never match. */
  lemma LengthsDiffer(a: string, b: string)
    requires |a| != |b|
    ensures !SameExt(a, b)
  {
  }

  /** Examples: case variants of one token compare equal; a different token does not. */
  lemma CaseVariantsMatch()
    ensures SameExt("png", "PNG") && SameExt("Png", "pNG")
    ensures !SameExt("png", "bmp") && !SameExt("png", "pn")
  {
    assert Lower('p') == Lower('P') && Lower('n') == Lower('N') && Lower('g') == Lower('G');
    assert Lower("png"[0]) != Lower("bmp"[0]);
  }
}
