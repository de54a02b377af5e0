/**
 * `subsets(list, start)` of test.py: every sub-list of `list[start:]`,
 * those holding `list[start]` first, then those without it.
 */
module Subsets {
  import opened Wrappers

  /** `subsets(l, start)`. */
  function Subsets<T>(l: seq<T>, start: nat): seq<seq<T>>
    requires start <= |l|
    decreases |l| - start
  {
    if start == |l| then [[]]
    else
      var nSubset := Subsets(l, start + 1);
      seq(|nSubset|, i requires 0 <= i < |nSubset| => [l[start]] + nSubset[i]) + nSubset
  }

  /**
   * The sub-list of `l[start..]` a choice of elements picks: the elements
   * whose flag is set, in their order in `l`.
   */
  function Select<T>(l: seq<T>, start: nat, mask: seq<bool>): seq<T>
    requires start <= |l| && |mask| == |l| - start
    decreases |mask|
  {
    if mask == [] then []
    else (if mask[0] then [l[start]] else []) + Select(l, start + 1, mask[1..])
  }

  /** There are `2 ** (len(l) - start)` of them: eight for a list of three from 0. */
  lemma {:induction false} SubsetsLength<T>(l: seq<T>, start: nat)
    requires start <= |l|
    ensures |Subsets(l, start)| == Pow2(|l| - start)
    decreases |l| - start
  {
    if start < |l| {
      SubsetsLength(l, start + 1);
    }
  }

  /**
   * The second half is `subsets(l, start + 1)`; the first half is the same
   * list with `l[start]` put in front of each entry.
   */
  lemma SubsetsHalves<T>(l: seq<T>, start: nat)
    requires start < |l|
    ensures var r, rest := Subsets(l, start), Subsets(l, start + 1);
            && |r| == 2 * |rest|
            && r[|rest|..] == rest
            && forall i :: 0 <= i < |rest| ==> r[i] == [l[start]] + rest[i]
  {
  }

  /** The last entry is the empty list. */
  lemma {:induction false} SubsetsLast<T>(l: seq<T>, start: nat)
    requires start <= |l|
    ensures |Subsets(l, start)| > 0 && Subsets(l, start)[|Subsets(l, start)| - 1] == []
    decreases |l| - start
  {
    if start < |l| {
      SubsetsLast(l, start + 1);
    }
  }

  /** Every entry keeps some of the elements of `l[start..]`, in order. */
  lemma {:induction false} SubsetsSound<T>(l: seq<T>, start: nat, i: nat) returns (mask: seq<bool>)
    requires start <= |l| && i < |Subsets(l, start)|
    ensures |mask| == |l| - start && Subsets(l, start)[i] == Select(l, start, mask)
    decreases |l| - start
  {
    if start == |l| {
      mask := [];
    } else {
      var rest := Subsets(l, start + 1);
      var m;
      if i < |rest| {
        m := SubsetsSound(l, start + 1, i);
        mask := [true] + m;
      } else {
        m := SubsetsSound(l, start + 1, i - |rest|);
        mask := [false] + m;
      }
      assert mask[1..] == m;
    }
  }

  /** Every choice of elements of `l[start..]` is an entry. */
  lemma {:induction false} SubsetsComplete<T>(l: seq<T>, start: nat, mask: seq<bool>) returns (i: nat)
    requires start <= |l| && |mask| == |l| - start
    ensures i < |Subsets(l, start)| && Subsets(l, start)[i] == Select(l, start, mask)
    decreases |l| - start
  {
    if start == |l| {
      i := 0;
    } else {
      var rest := Subsets(l, start + 1);
      var j := SubsetsComplete(l, start + 1, mask[1..]);
      i := if mask[0] then j else |rest| + j;
    }
  }
}
