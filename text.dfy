/** The two string operations the college filters use: ASCII `toLowerCase`
    and `includes` (substring search). */
module Text {

  function LowerChar(c: char): char {
    if 'A' <= c <= 'Z' then (c as int + 32) as char else c
  }

  /** `toLowerCase`, restricted to ASCII letters. */
  function Lower(s: string): (r: string)
    ensures |r| == |s|
    ensures forall i :: 0 <= i < |s| ==> r[i] == LowerChar(s[i])
  {
    if s == [] then [] else [LowerChar(s[0])] + Lower(s[1..])
  }

  /** `needle` occurs in `hay` starting at position `i`. */
  predicate OccursAt(hay: string, needle: string, i: int) {
    0 <= i <= |hay| - |needle| && hay[i..i + |needle|] == needle
  }

  /** `hay.includes(needle)`, written as the search that tries each start
      position in turn. */
  function Contains(hay: string, needle: string): (r: bool)
    ensures r <==> exists i :: OccursAt(hay, needle, i)
    decreases |hay|
  {
    if |needle| > |hay| then false
    else if hay[..|needle|] == needle then (assert OccursAt(hay, needle, 0); true)
    else
      var rest := Contains(hay[1..], needle);
      assert forall i :: OccursAt(hay[1..], needle, i) <==> OccursAt(hay, needle, i + 1);
      assert !OccursAt(hay, needle, 0);
      assert (exists i :: OccursAt(hay, needle, i)) ==> exists i :: OccursAt(hay[1..], needle, i) by {
        if exists i :: OccursAt(hay, needle, i) {
          var i :| OccursAt(hay, needle, i);
          assert OccursAt(hay[1..], needle, i - 1);
        }
      }
      rest
  }

  /** Case-insensitive substring test, as `a.toLowerCase().includes(b.toLowerCase())`. */
  predicate ContainsIgnoringCase(hay: string, needle: string) {
    Contains(Lower(hay), Lower(needle))
  }

  /** Every string includes the empty string: an empty location filter keeps
      every college. */
  lemma ContainsEmpty(hay: string)
    ensures Contains(hay, "")
  {
    assert OccursAt(hay, "", 0);
  }

  /** Between strings of one length, inclusion is equality. */
  lemma ContainsSameLength(hay: string, needle: string)
    requires |hay| == |needle|
    ensures Contains(hay, needle) <==> hay == needle
  {
    if Contains(hay, needle) {
      var i :| OccursAt(hay, needle, i);
      assert hay[i..i + |needle|] == hay;
    } else {
      assert !OccursAt(hay, needle, 0);
    }
  }

  /** An occurrence survives lowercasing both sides. */
  lemma OccursIgnoringCase(hay: string, needle: string, i: int)
    requires OccursAt(hay, needle, i)
    ensures ContainsIgnoringCase(hay, needle)
  {
    assert Lower(hay)[i..i + |needle|] == Lower(needle);
    assert OccursAt(Lower(hay), Lower(needle), i);
  }

  /** The characters that lowercase to `x` are `x` and, for a lower-case
      letter, its capital. */
  lemma LowerCharInverse(c: char, x: char)
    requires LowerChar(c) == x
    ensures c == x || ('a' <= x <= 'z' && c as int == x as int - 32)
  {
  }

  /** Neither `x` nor its capital occurs in `s`: no character of `s`
      lowercases to `x`. */
  lemma LetterAbsent(s: string, x: char)
    requires x !in s && (!('a' <= x <= 'z') || (x as int - 32) as char !in s)
    ensures forall q :: 0 <= q < |s| ==> LowerChar(s[q]) != x
  {
    forall q | 0 <= q < |s| ensures LowerChar(s[q]) != x {
      if LowerChar(s[q]) == x {
        LowerCharInverse(s[q], x);
      }
    }
  }

  /** Position `p` is the only one of `s` whose character lowercases to `x`. */
  lemma LetterOnlyAt(s: string, x: char, p: nat)
    requires p < |s| && LowerChar(s[p]) == x
    requires x !in s[..p] && x !in s[p + 1..]
    requires !('a' <= x <= 'z') || ((x as int - 32) as char !in s[..p] && (x as int - 32) as char !in s[p + 1..])
    ensures forall q :: 0 <= q < |s| && LowerChar(s[q]) == x ==> q == p
  {
    LetterAbsent(s[..p], x);
    LetterAbsent(s[p + 1..], x);
  }

  /** A needle with a character that, ignoring case, the haystack lacks is
      not included ignoring case. */
  lemma NotContainedByLetter(hay: string, needle: string, k: nat)
    requires k < |needle|
    requires forall q :: 0 <= q < |hay| ==> LowerChar(hay[q]) != LowerChar(needle[k])
    ensures !ContainsIgnoringCase(hay, needle)
  {
    forall i | 0 <= i <= |hay| - |needle| ensures !OccursAt(Lower(hay), Lower(needle), i) {
      assert Lower(hay)[i + k] != Lower(needle)[k];
    }
  }

  /** A needle that holds, ignoring case, the same character at two
      positions is not included in a haystack that holds it at one. */
  lemma NotContainedByRepeat(hay: string, needle: string, k1: nat, k2: nat, p: nat)
    requires k1 < k2 < |needle| && LowerChar(needle[k1]) == LowerChar(needle[k2])
    requires forall q :: 0 <= q < |hay| && LowerChar(hay[q]) == LowerChar(needle[k1]) ==> q == p
    ensures !ContainsIgnoringCase(hay, needle)
  {
  }
}
