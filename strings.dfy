/** String relations used by the suppression logic: substring containment (the
    meaning of `keyword in line`) and the lexicographic order on strings by code point
    (the order `sorted` uses on strings). */
module Strings {

  /** `part` occurs in `whole` starting at position `i`. */
  ghost predicate OccursAt(part: string, whole: string, i: int)
  {
    0 <= i <= |whole| - |part| && whole[i..i + |part|] == part
  }

  /** `part` occurs in `whole` at some position. */
  ghost predicate IsSubstring(part: string, whole: string)
  {
    exists i :: OccursAt(part, whole, i)
  }

  /** Strict lexicographic order on strings, comparing characters by code point; a
      proper prefix comes before every extension of it. */
  predicate LexLess(a: string, b: string)
  {
    if b == [] then false
    else if a == [] then true
    else if a[0] != b[0] then a[0] < b[0]
    else LexLess(a[1..], b[1..])
  }

  lemma {:induction false} LexLessIrreflexive(a: string)
    ensures !LexLess(a, a)
  {
    if a != [] {
      LexLessIrreflexive(a[1..]);
    }
  }

  lemma {:induction false} LexLessTransitive(a: string, b: string, c: string)
    requires LexLess(a, b) && LexLess(b, c)
    ensures LexLess(a, c)
  {
    if a != [] && a[0] == b[0] && b[0] == c[0] {
      LexLessTransitive(a[1..], b[1..], c[1..]);
    }
  }

  /** Any two distinct strings are ordered one way or the other. */
  lemma {:induction false} LexLessTotal(a: string, b: string)
    ensures a == b || LexLess(a, b) || LexLess(b, a)
  {
    if a != [] && b != [] && a[0] == b[0] {
      LexLessTotal(a[1..], b[1..]);
      if a[1..] == b[1..] {
        assert a == [a[0]] + a[1..] && b == [b[0]] + b[1..];
      }
    }
  }

  /** Two strings of which neither is smaller than the other are equal, so a least
      string of a set is unique. */
  lemma LeastIsUnique(a: string, b: string)
    requires !LexLess(a, b) && !LexLess(b, a)
    ensures a == b
  {
    LexLessTotal(a, b);
  }

  /** Dafny's built-in `<` on sequences is the proper-prefix relation; it is contained
      in the lexicographic order. */
  lemma {:induction false} ProperPrefixIsLexLess(a: string, b: string)
    requires a < b
    ensures LexLess(a, b)
  {
    if a != [] {
      assert a[0] == b[0];
      assert a[1..] < b[1..];
      ProperPrefixIsLexLess(a[1..], b[1..]);
    }
  }

  /** When `part` does not start `whole`, it occurs in `whole` exactly when it occurs
      in the tail of `whole`. */
  lemma SubstringOfTail(part: string, whole: string)
    requires |part| <= |whole| && whole[..|part|] != part
    ensures IsSubstring(part, whole) <==> IsSubstring(part, whole[1..])
  {
    if IsSubstring(part, whole) {
      var i :| OccursAt(part, whole, i);
      assert i != 0;
      assert whole[1..][i - 1..i - 1 + |part|] == whole[i..i + |part|];
      assert OccursAt(part, whole[1..], i - 1);
    }
    if IsSubstring(part, whole[1..]) {
      var j :| OccursAt(part, whole[1..], j);
      assert whole[j + 1..j + 1 + |part|] == whole[1..][j..j + |part|];
      assert OccursAt(part, whole, j + 1);
    }
  }
}
