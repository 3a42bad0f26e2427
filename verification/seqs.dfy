/** Order-preserving selection of elements from a sequence. */
module Seqs {

  /**
    `pos` lists, in strictly increasing order, the positions of `b` that
    `a` was taken from.
   */
  ghost predicate Embeds<T>(a: seq<T>, b: seq<T>, pos: seq<nat>) {
    && |pos| == |a|
    && (forall k :: 0 <= k < |pos| ==> pos[k] < |b| && a[k] == b[pos[k]])
    && (forall k, l :: 0 <= k < l < |pos| ==> pos[k] < pos[l])
  }

  /** `a` is a subsequence of `b`: same elements, same relative order. */
  ghost predicate Subsequence<T>(a: seq<T>, b: seq<T>) {
    exists pos :: Embeds(a, b, pos)
  }

  lemma {:induction false} IncreasingPositionsGrow(pos: seq<nat>, k: nat)
    requires forall i, j :: 0 <= i < j < |pos| ==> pos[i] < pos[j]
    requires k < |pos|
    ensures pos[k] >= k
  {
    if k > 0 {
      IncreasingPositionsGrow(pos, k - 1);
    }
  }

  /** A subsequence is never longer than the sequence it was taken from. */
  lemma SubsequenceLength<T>(a: seq<T>, b: seq<T>)
    requires Subsequence(a, b)
    ensures |a| <= |b|
  {
    var pos :| Embeds(a, b, pos);
    if |a| > 0 {
      IncreasingPositionsGrow(pos, |a| - 1);
    }
  }

  /** Every sequence is a subsequence of itself, at its own positions. */
  lemma SubsequenceOfItself<T>(s: seq<T>)
    ensures Subsequence(s, s)
  {
    assert Embeds(s, s, seq(|s|, k requires 0 <= k < |s| => k as nat));
  }

  /** The elements of `s` satisfying `keep`, in their original order. */
  function Filter<T(!new)>(keep: T -> bool, s: seq<T>): (r: seq<T>)
    ensures |r| <= |s|
    ensures forall x :: x in r <==> x in s && keep(x)
  {
    if s == [] then []
    else (if keep(s[0]) then [s[0]] else []) + Filter(keep, s[1..])
  }

  /** Every position moved up by one. */
  function ShiftUp(pos: seq<nat>): (r: seq<nat>)
    ensures |r| == |pos|
    ensures forall k :: 0 <= k < |pos| ==> r[k] == pos[k] + 1
    ensures 0 !in r
    ensures forall j: nat :: j + 1 in r <==> j in pos
  {
    var r := seq(|pos|, k requires 0 <= k < |pos| => pos[k] + 1);
    assert forall j: nat :: j + 1 in r ==> j in pos by {
      forall j: nat | j + 1 in r
        ensures j in pos
      {
        var k :| 0 <= k < |r| && r[k] == j + 1;
        assert pos[k] == j;
      }
    }
    r
  }

  /** Positions embedding into a tail, moved up by one, embed into the whole. */
  lemma EmbedsShifted<T>(a: seq<T>, s: seq<T>, tail: seq<nat>)
    requires s != []
    requires Embeds(a, s[1..], tail)
    ensures Embeds(a, s, ShiftUp(tail))
  {
    var shifted := ShiftUp(tail);
    forall k | 0 <= k < |shifted|
      ensures shifted[k] < |s| && a[k] == s[shifted[k]]
    {
      assert a[k] == s[1..][tail[k]];
    }
  }

  /** The head followed by an embedded tail embeds at 0 and the moved-up positions. */
  lemma EmbedsCons<T>(a: seq<T>, s: seq<T>, tail: seq<nat>)
    requires s != []
    requires Embeds(a, s[1..], tail)
    ensures Embeds([s[0]] + a, s, [0] + ShiftUp(tail))
  {
    var shifted := ShiftUp(tail);
    EmbedsShifted(a, s, tail);
    var f := [s[0]] + a;
    var p := [0] + shifted;
    forall k | 0 <= k < |p|
      ensures p[k] < |s| && f[k] == s[p[k]]
    {
      if k > 0 {
        assert p[k] == shifted[k - 1] && f[k] == a[k - 1];
      }
    }
    forall k, l | 0 <= k < l < |p|
      ensures p[k] < p[l]
    {
      assert p[l] == shifted[l - 1];
      if k > 0 {
        assert p[k] == shifted[k - 1];
      }
    }
  }

  /** Prepending one element to a filtered tail, with its positions moved up. */
  lemma FilterCons<T(!new)>(keep: T -> bool, s: seq<T>, tail: seq<nat>)
    requires s != []
    requires Embeds(Filter(keep, s[1..]), s[1..], tail)
    ensures Embeds(Filter(keep, s), s, (if keep(s[0]) then [0] else []) + ShiftUp(tail))
  {
    var rest := Filter(keep, s[1..]);
    if keep(s[0]) {
      EmbedsCons(rest, s, tail);
      assert Filter(keep, s) == [s[0]] + rest;
    } else {
      EmbedsShifted(rest, s, tail);
      assert Filter(keep, s) == rest;
      assert [] + ShiftUp(tail) == ShiftUp(tail);
    }
  }

  /**
    The filter keeps exactly the positions of `s` whose element satisfies
    `keep`, in increasing order.
   */
  lemma {:induction false} FilterSelects<T(!new)>(keep: T -> bool, s: seq<T>) returns (pos: seq<nat>)
    ensures Embeds(Filter(keep, s), s, pos)
    ensures forall j :: 0 <= j < |s| ==> (j in pos <==> keep(s[j]))
    decreases |s|
  {
    if s == [] {
      pos := [];
    } else {
      var tail := FilterSelects(keep, s[1..]);
      FilterCons(keep, s, tail);
      pos := (if keep(s[0]) then [0] else []) + ShiftUp(tail);
      SelectedPositionsCons(keep, s, tail);
    }
  }

  /** The head's position, if kept, and the tail's kept positions moved up. */
  lemma SelectedPositionsCons<T>(keep: T -> bool, s: seq<T>, tail: seq<nat>)
    requires s != []
    requires forall j :: 0 <= j < |s[1..]| ==> (j in tail <==> keep(s[1..][j]))
    ensures var pos := (if keep(s[0]) then [0] else []) + ShiftUp(tail);
      forall j :: 0 <= j < |s| ==> (j in pos <==> keep(s[j]))
  {
    var pos := (if keep(s[0]) then [0] else []) + ShiftUp(tail);
    forall j | 0 <= j < |s|
      ensures j in pos <==> keep(s[j])
    {
      if j > 0 {
        assert s[j] == s[1..][j - 1];
        assert j in pos <==> j - 1 in tail;
      }
    }
  }

  /** A filtered sequence is a subsequence of its source. */
  lemma FilterIsSubsequence<T(!new)>(keep: T -> bool, s: seq<T>)
    ensures Subsequence(Filter(keep, s), s)
  {
    var pos := FilterSelects(keep, s);
  }
}
