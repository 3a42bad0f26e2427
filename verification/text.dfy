/**
  Character-level text operations the listing screen relies on: an ASCII model
  of `lowercased()`, substring search in the style of Foundation's
  `range(of:)`, and the first position of a character.
 */
module Text {
  import opened Wrappers

  predicate IsUpper(c: char) {
    'A' <= c <= 'Z'
  }

  /** `lowercased()` on one character, restricted to ASCII letters. */
  function LowerChar(c: char): (d: char)
    ensures !IsUpper(d)
    ensures !IsUpper(c) ==> d == c
    ensures IsUpper(c) ==> 'a' <= d <= 'z' && d as int == c as int + 32
  {
    if IsUpper(c) then (c as int + 32) as char else c
  }

  /** `lowercased()` on a whole string. */
  function Lower(s: string): (r: string)
    ensures |r| == |s|
    ensures forall i :: 0 <= i < |r| ==> !IsUpper(r[i])
    ensures forall i :: 0 <= i < |s| ==> r[i] == LowerChar(s[i])
  {
    seq(|s|, i requires 0 <= i < |s| => LowerChar(s[i]))
  }

  /** Lowercasing commutes with taking a slice. */
  lemma LowerSlice(s: string, i: nat, j: nat)
    requires i <= j <= |s|
    ensures Lower(s)[i..j] == Lower(s[i..j])
  {
  }

  predicate IsPrefix(p: string, s: string) {
    |p| <= |s| && s[..|p|] == p
  }

  /** `needle` occurs somewhere in `hay` (the empty needle occurs everywhere). */
  predicate Contains(hay: string, needle: string)
    decreases |hay|
  {
    IsPrefix(needle, hay) || (hay != [] && Contains(hay[1..], needle))
  }

  /** `needle` sits in `hay` starting at position `i`. */
  predicate OccursAt(hay: string, needle: string, i: int) {
    0 <= i && i + |needle| <= |hay| && hay[i..i + |needle|] == needle
  }

  /** An occurrence in the tail is an occurrence one position further on. */
  lemma OccursInTail(hay: string, needle: string, i: nat)
    requires hay != []
    ensures OccursAt(hay[1..], needle, i) <==> OccursAt(hay, needle, i + 1)
  {
    if i + |needle| <= |hay[1..]| {
      assert hay[1..][i..i + |needle|] == hay[i + 1..i + 1 + |needle|];
    }
  }

  /** Contains agrees with the positional definition of a substring. */
  lemma {:induction false} ContainsIffOccurrence(hay: string, needle: string)
    ensures Contains(hay, needle) <==> exists i :: OccursAt(hay, needle, i)
    decreases |hay|
  {
    var n := |needle|;
    if hay == [] {
      if Contains(hay, needle) {
        assert OccursAt(hay, needle, 0);
      }
    } else {
      ContainsIffOccurrence(hay[1..], needle);
      if Contains(hay, needle) {
        if IsPrefix(needle, hay) {
          assert OccursAt(hay, needle, 0);
        } else {
          var i' :| OccursAt(hay[1..], needle, i');
          OccursInTail(hay, needle, i');
        }
      }
      if exists i :: OccursAt(hay, needle, i) {
        var i :| OccursAt(hay, needle, i);
        if i == 0 {
          assert IsPrefix(needle, hay);
        } else {
          OccursInTail(hay, needle, i - 1);
        }
      }
    }
  }

  /**
    `hay.range(of: needle) != nil`: Foundation reports no range for an empty
    needle, so only a non-empty needle can be found.
   */
  predicate FoundIn(needle: string, hay: string)
    ensures FoundIn(needle, hay) <==> needle != [] && exists i :: OccursAt(hay, needle, i)
  {
    ContainsIffOccurrence(hay, needle);
    needle != [] && Contains(hay, needle)
  }

  /** An occurrence survives lowercasing both strings. */
  lemma LowerPreservesContains(hay: string, needle: string)
    requires Contains(hay, needle)
    ensures Contains(Lower(hay), Lower(needle))
  {
    ContainsIffOccurrence(hay, needle);
    var i :| OccursAt(hay, needle, i);
    LowerSlice(hay, i, i + |needle|);
    assert OccursAt(Lower(hay), Lower(needle), i);
    ContainsIffOccurrence(Lower(hay), Lower(needle));
  }

  /** `s.characters.index(of: c)`: the first position holding `c`, if any. */
  function FirstIndexOf(s: string, c: char): (r: Option<nat>)
    ensures r.Some? ==> r.value < |s| && s[r.value] == c && c !in s[..r.value]
    ensures r.None? <==> c !in s
  {
    if s == [] then None
    else if s[0] == c then Some(0)
    else match FirstIndexOf(s[1..], c)
      case None => None
      case Some(i) =>
        assert s[..i + 1] == [s[0]] + s[1..][..i];
        Some(i + 1)
  }
}
