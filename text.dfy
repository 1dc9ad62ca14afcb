/**
 * The string operations used by the keyword filter: `toLowerCase` and
 * `includes`. Lower-casing folds the ASCII letters A-Z only.
 */
module Text {

  /** Lower-case one character (ASCII folding). */
  function LowerChar(c: char): (d: char)
    ensures 'A' <= c <= 'Z' ==> 'a' <= d <= 'z' && d as int - c as int == 32
    ensures !('A' <= c <= 'Z') ==> d == c
    ensures !('A' <= d <= 'Z')
  {
    if 'A' <= c <= 'Z' then (c as int + 32) as char else c
  }

  /** `s.toLowerCase()`. */
  function Lower(s: string): (r: string)
    ensures |r| == |s|
    ensures forall i :: 0 <= i < |s| ==> r[i] == LowerChar(s[i])
  {
    seq(|s|, i requires 0 <= i < |s| => LowerChar(s[i]))
  }

  /** Lower-casing twice is lower-casing once. */
  lemma LowerIdempotent(s: string)
    ensures Lower(Lower(s)) == Lower(s)
  {
  }

  /** `needle` is a prefix of `hay`. */
  predicate IsPrefix(needle: string, hay: string) {
    |needle| <= |hay| && hay[..|needle|] == needle
  }

  /** `hay.includes(needle)`: `needle` occurs in `hay` at some position. */
  predicate Includes(hay: string, needle: string)
    decreases |hay|
  {
    IsPrefix(needle, hay) || (hay != [] && Includes(hay[1..], needle))
  }

  /** `needle` sits in `hay` starting at position `i`. */
  predicate OccursAt(hay: string, needle: string, i: int) {
    0 <= i <= |hay| - |needle| && hay[i..i + |needle|] == needle
  }

  /** Dropping the first character of `hay` moves every later occurrence one place left. */
  lemma OccursAtShift(hay: string, needle: string, i: int)
    requires hay != [] && 0 < i
    ensures OccursAt(hay, needle, i) <==> OccursAt(hay[1..], needle, i - 1)
  {
    if 0 < i <= |hay| - |needle| {
      assert hay[i..i + |needle|] == hay[1..][i - 1..i - 1 + |needle|];
    }
  }

  /** `Includes` holds exactly when `needle` sits in `hay` at some position. */
  lemma {:induction false} IncludesAt(hay: string, needle: string)
    ensures Includes(hay, needle) <==> exists i :: OccursAt(hay, needle, i)
  {
    if IsPrefix(needle, hay) {
      assert OccursAt(hay, needle, 0);
    } else if hay == [] {
      assert forall i :: !OccursAt(hay, needle, i);
    } else {
      IncludesAt(hay[1..], needle);
      if Includes(hay, needle) {
        var i :| OccursAt(hay[1..], needle, i);
        OccursAtShift(hay, needle, i + 1);
      } else {
        forall i ensures !OccursAt(hay, needle, i) {
          if i == 0 && |needle| <= |hay| {
            assert hay[..|needle|] == hay[0..0 + |needle|];
          } else if 0 < i {
            OccursAtShift(hay, needle, i);
          }
        }
      }
    }
  }

  /** Every character of an included string occurs in the string that includes it. */
  lemma {:induction false} IncludesChar(hay: string, needle: string, c: char)
    requires Includes(hay, needle) && c in needle
    ensures c in hay
  {
    if IsPrefix(needle, hay) {
      var i :| 0 <= i < |needle| && needle[i] == c;
      assert hay[i] == needle[i];
    } else {
      IncludesChar(hay[1..], needle, c);
    }
  }
}
