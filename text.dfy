/** The two string operations the filter relies on: lower-casing and the
    substring test of `String.prototype.includes`. */
module Text {

  /** Lower-cases one character; only the ASCII letters A-Z are folded. */
  function LowerChar(c: char): (d: char) {
    if 'A' <= c <= 'Z' then (c as int + 32) as char else c
  }

  /** Lower-cases a string, character by character: each upper-case ASCII
      letter becomes its lower-case letter, every other character stays. */
  function Lower(s: string): (t: string)
    ensures |t| == |s|
    ensures forall i :: 0 <= i < |s| && 'A' <= s[i] <= 'Z' ==> t[i] as int == s[i] as int + ('a' as int - 'A' as int)
    ensures forall i :: 0 <= i < |s| && !('A' <= s[i] <= 'Z') ==> t[i] == s[i]
    ensures forall i :: 0 <= i < |t| ==> !('A' <= t[i] <= 'Z')
  {
    seq(|s|, i requires 0 <= i < |s| => LowerChar(s[i]))
  }

  /** Lower-casing twice is lower-casing once. */
  lemma LowerIdempotent(s: string)
    ensures Lower(Lower(s)) == Lower(s)
  {
  }

  /** Two characters that are the same letter, possibly in different ASCII
      case, or simply the same character. */
  predicate SameIgnoringCase(c: char, d: char) {
    || c == d
    || ('A' <= c <= 'Z' && d as int == c as int + ('a' as int - 'A' as int))
    || ('A' <= d <= 'Z' && c as int == d as int + ('a' as int - 'A' as int))
  }

  /** Two strings that differ at most in the ASCII case of their letters. */
  predicate EqualIgnoringCase(a: string, b: string) {
    |a| == |b| && forall i :: 0 <= i < |a| ==> SameIgnoringCase(a[i], b[i])
  }

  /** Strings equal up to letter case lower-case to the same string. */
  lemma EqualIgnoringCaseLowersAlike(a: string, b: string)
    requires EqualIgnoringCase(a, b)
    ensures Lower(a) == Lower(b)
  {
    forall i | 0 <= i < |a| ensures Lower(a)[i] == Lower(b)[i] {
      assert SameIgnoringCase(a[i], b[i]);
    }
  }

  /** `needle` sits in `hay` starting at position `i`. */
  ghost predicate OccursAt(needle: string, hay: string, i: int) {
    0 <= i && i + |needle| <= |hay| && hay[i..i + |needle|] == needle
  }

  /** The reference meaning of "substring": some position where it sits. */
  ghost predicate Occurs(needle: string, hay: string) {
    exists i :: OccursAt(needle, hay, i)
  }

  /** A non-prefix occurs in `hay` exactly when it occurs in `hay[1..]`. */
  lemma OccursInTail(needle: string, hay: string)
    requires |hay| > 0 && !(needle <= hay)
    ensures Occurs(needle, hay) <==> Occurs(needle, hay[1..])
  {
    if Occurs(needle, hay) {
      var i :| OccursAt(needle, hay, i);
      assert i > 0;
      assert hay[1..][i - 1..i - 1 + |needle|] == hay[i..i + |needle|];
      assert OccursAt(needle, hay[1..], i - 1);
    }
    if Occurs(needle, hay[1..]) {
      var i :| OccursAt(needle, hay[1..], i);
      assert hay[1..][i..i + |needle|] == hay[i + 1..i + 1 + |needle|];
      assert OccursAt(needle, hay, i + 1);
    }
  }

  /** `hay.includes(needle)`: a left-to-right scan for a match. */
  function Includes(hay: string, needle: string): (b: bool)
    ensures b <==> Occurs(needle, hay)
    decreases |hay|
  {
    if needle <= hay then
      assert hay[0..|needle|] == needle;
      assert OccursAt(needle, hay, 0);
      true
    else if |hay| == 0 then
      assert forall i :: !OccursAt(needle, hay, i);
      false
    else
      OccursInTail(needle, hay);
      Includes(hay[1..], needle)
  }

  /** Every string contains the empty string, so an empty filter matches. */
  lemma IncludesEmpty(hay: string)
    ensures Includes(hay, "")
  {
  }
}
