/**
 * `str.capitalize`, which both the fleet's and the bookings' vehicle types
 * go through before they are compared, restricted to ASCII letters.
 */
module Casing {

  predicate IsLower(c: char)
  {
    'a' <= c <= 'z'
  }

  predicate IsUpper(c: char)
  {
    'A' <= c <= 'Z'
  }

  function Upper(c: char): (r: char)
    ensures !IsLower(r)
  {
    if IsLower(c) then (c as int - 32) as char else c
  }

  function Lower(c: char): (r: char)
    ensures !IsUpper(r)
  {
    if IsUpper(c) then (c as int + 32) as char else c
  }

  /** Two characters differ at most in letter case: the same upper-cased, or the same lower-cased. */
  lemma SameLetter(c: char, d: char)
    ensures Upper(c) == Upper(d) <==> Lower(c) == Lower(d)
    ensures Lower(Upper(c)) == Lower(c)
  {
  }

  function LowerAll(s: string): (r: string)
    ensures |r| == |s|
    ensures forall k :: 0 <= k < |s| ==> r[k] == Lower(s[k])
  {
    seq(|s|, k requires 0 <= k < |s| => Lower(s[k]))
  }

  /**
   * `s.capitalize()`: the first character upper-cased, the rest
   * lower-cased. The result spells the same word, ignoring case, starts
   * with no lower-case letter and has no upper-case letter after it.
   */
  function Capitalize(s: string): (r: string)
    ensures |r| == |s|
    ensures LowerAll(r) == LowerAll(s)
    ensures |r| > 0 ==> !IsLower(r[0])
    ensures forall k :: 1 <= k < |r| ==> !IsUpper(r[k])
  {
    if s == [] then []
    else
      var r := [Upper(s[0])] + LowerAll(s[1..]);
      SameLetter(s[0], s[0]);
      assert forall k :: 1 <= k < |s| ==> Lower(Lower(s[k])) == Lower(s[k]);
      assert LowerAll(r)[0] == LowerAll(s)[0];
      r
  }

  /** Capitalising twice is capitalising once. */
  lemma CapitalizeIdempotent(s: string)
    ensures Capitalize(Capitalize(s)) == Capitalize(s)
  {
    var r := Capitalize(s);
    if r != [] {
      var rr := Capitalize(r);
      assert rr[0] == r[0];
      assert forall k :: 1 <= k < |r| ==> rr[k] == Lower(r[k]) == r[k];
    }
  }

  /**
   * Two vehicle types match after capitalisation exactly when they are the
   * same word up to letter case.
   */
  lemma CapitalizedMatch(s: string, t: string)
    ensures Capitalize(s) == Capitalize(t) <==> LowerAll(s) == LowerAll(t)
  {
    if LowerAll(s) == LowerAll(t) && s != [] {
      SameLetter(s[0], t[0]);
      assert LowerAll(s)[0] == LowerAll(t)[0];
      var a, b := Capitalize(s), Capitalize(t);
      assert forall k :: 1 <= k < |s| ==> a[k] == LowerAll(s)[k] == LowerAll(t)[k] == b[k];
      assert a[0] == b[0];
    }
  }
}
