/**
 Character and string helpers used by the token search: ASCII lower-casing
 (the part of lodash `_.toLower` the search relies on) and substring
 containment (`_.includes` on strings, i.e. `String.prototype.includes`).
 */
module Text {

  /** The regular-expression character class `[a-fA-F0-9]`. */
  predicate IsHexDigit(c: char) {
    ('0' <= c <= '9') || ('a' <= c <= 'f') || ('A' <= c <= 'F')
  }

  predicate IsAsciiUpper(c: char) {
    'A' <= c <= 'Z'
  }

  /** Lower-cases one character; only ASCII capitals change. */
  function LowerChar(c: char): (r: char)
    ensures !IsAsciiUpper(r)
    ensures IsAsciiUpper(c) ==> r as int == c as int + 32
    ensures !IsAsciiUpper(c) ==> r == c
  {
    if IsAsciiUpper(c) then (c as int + 32) as char else c
  }

  /** Lower-cases a string character by character. */
  function Lower(s: string): (r: string)
    ensures |r| == |s|
    ensures forall i :: 0 <= i < |s| ==> r[i] == LowerChar(s[i])
  {
    if s == [] then [] else [LowerChar(s[0])] + Lower(s[1..])
  }

  /** Lower-casing twice is lower-casing once. */
  lemma LowerIdempotent(s: string)
    ensures Lower(Lower(s)) == Lower(s)
  {
  }

  /** `needle` sits in `haystack` starting at position `i`. */
  ghost predicate OccursAt(needle: string, haystack: string, i: int) {
    0 <= i && i + |needle| <= |haystack| && haystack[i..i + |needle|] == needle
  }

  /**
   Substring test, scanning the start positions from left to right as
   `String.prototype.includes` does.
   */
  function Includes(haystack: string, needle: string): bool
    decreases |haystack|
  {
    if |needle| > |haystack| then false
    else if haystack[..|needle|] == needle then true
    else Includes(haystack[1..], needle)
  }

  /** The scan agrees with the positional definition of a substring, both ways. */
  lemma {:induction false} IncludesIffOccurs(haystack: string, needle: string)
    ensures Includes(haystack, needle) <==> exists i :: OccursAt(needle, haystack, i)
    decreases |haystack|
  {
    if |needle| > |haystack| {
      assert forall i :: !OccursAt(needle, haystack, i);
    } else if haystack[..|needle|] == needle {
      assert OccursAt(needle, haystack, 0);
    } else {
      var tail := haystack[1..];
      IncludesIffOccurs(tail, needle);
      if Includes(haystack, needle) {
        var j :| OccursAt(needle, tail, j);
        assert haystack[j + 1..j + 1 + |needle|] == tail[j..j + |needle|];
        assert OccursAt(needle, haystack, j + 1);
      } else {
        forall i | OccursAt(needle, haystack, i)
          ensures false
        {
          assert i != 0;
          assert tail[i - 1..i - 1 + |needle|] == haystack[i..i + |needle|];
          assert OccursAt(needle, tail, i - 1);
        }
      }
    }
  }

  /** A needle whose first character never appears in the haystack is not included. */
  lemma {:induction false} FirstCharAbsentNotIncluded(haystack: string, needle: string)
    requires |needle| > 0 && needle[0] !in haystack
    ensures !Includes(haystack, needle)
    decreases |haystack|
  {
    if |needle| <= |haystack| {
      assert haystack[..|needle|][0] == haystack[0];
      assert needle[0] !in haystack[1..] by {
        forall k | 0 <= k < |haystack[1..]| ensures haystack[1..][k] != needle[0] {
          assert haystack[1..][k] == haystack[k + 1];
        }
      }
      FirstCharAbsentNotIncluded(haystack[1..], needle);
    }
  }

  /** Every string includes the empty string. */
  lemma IncludesEmpty(haystack: string)
    ensures Includes(haystack, "")
  {
  }
}
