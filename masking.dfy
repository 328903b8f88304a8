/**
 * numpy boolean masks over a one-dimensional sequence: how many entries are
 * true (`mask.sum()`), where they are, and what `values[mask]` selects.
 * Recursive definitions peel the LAST entry, so that a prefix `m[..i]` is
 * exactly the state of a left-to-right walk after i steps.
 */
module Masking {

  /** Number of true entries. */
  function CountTrue(m: seq<bool>): (n: nat)
    ensures n <= |m|
  {
    if |m| == 0 then 0 else CountTrue(m[..|m| - 1]) + (if m[|m| - 1] then 1 else 0)
  }

  /** One more step of a left-to-right walk adds the entry just passed. */
  lemma CountTrueStep(m: seq<bool>, i: nat)
    requires i < |m|
    ensures CountTrue(m[..i + 1]) == CountTrue(m[..i]) + (if m[i] then 1 else 0)
  {
    assert m[..i + 1][..i] == m[..i];
  }

  /** A prefix never holds more true entries than the whole mask; a prefix that stops at a
      true entry holds strictly fewer. */
  lemma {:induction false} CountTruePrefix(m: seq<bool>, i: nat)
    requires i <= |m|
    ensures CountTrue(m[..i]) <= CountTrue(m)
    ensures i < |m| && m[i] ==> CountTrue(m[..i]) < CountTrue(m)
    decreases |m| - i
  {
    if i < |m| {
      CountTrueStep(m, i);
      CountTruePrefix(m, i + 1);
    } else {
      assert m[..i] == m;
    }
  }

  /** The indices of the true entries, in increasing order (`np.flatnonzero(mask)`). */
  function TruePositions(m: seq<bool>): (p: seq<nat>)
    ensures |p| == CountTrue(m)
    ensures forall j :: 0 <= j < |p| ==> p[j] < |m| && m[p[j]]
    ensures forall j, k :: 0 <= j < k < |p| ==> p[j] < p[k]
    ensures forall i :: 0 <= i < |m| && m[i] ==> i in p
  {
    if |m| == 0 then []
    else
      var init := m[..|m| - 1];
      assert forall i :: 0 <= i < |init| ==> init[i] == m[i];
      TruePositions(init) + (if m[|m| - 1] then [|m| - 1] else [])
  }

  /** The true entry at index i is the CountTrue(m[..i])-th one: its rank among the true entries. */
  lemma {:induction false} PositionRank(m: seq<bool>, i: nat)
    requires i < |m| && m[i]
    ensures CountTrue(m[..i]) < |TruePositions(m)|
    ensures TruePositions(m)[CountTrue(m[..i])] == i
  {
    var init := m[..|m| - 1];
    if i == |m| - 1 {
      assert init == m[..i];
    } else {
      assert init[..i] == m[..i];
      PositionRank(init, i);
    }
  }

  /** Conversely, the j-th true entry is preceded by exactly j true entries. */
  lemma RankOfPosition(m: seq<bool>, j: nat)
    requires j < CountTrue(m)
    ensures TruePositions(m)[j] < |m|
    ensures CountTrue(m[..TruePositions(m)[j]]) == j
  {
    var p := TruePositions(m);
    PositionRank(m, p[j]);
  }

  /** numpy's `values[mask]`: the entries whose mask entry is true, in their original order. */
  function Filter<T>(values: seq<T>, m: seq<bool>): (kept: seq<T>)
    requires |values| == |m|
    ensures |kept| == CountTrue(m)
  {
    if |m| == 0 then []
    else
      Filter(values[..|values| - 1], m[..|m| - 1])
        + (if m[|m| - 1] then [values[|values| - 1]] else [])
  }

  /** The k-th kept entry is the entry at the k-th true position: filtering keeps exactly the
      masked-in entries, in order. */
  lemma {:induction false} FilterSelectsTruePositions<T>(values: seq<T>, m: seq<bool>)
    requires |values| == |m|
    ensures forall k :: 0 <= k < CountTrue(m) ==>
      Filter(values, m)[k] == values[TruePositions(m)[k]]
  {
    if |m| > 0 {
      var vs, ms := values[..|values| - 1], m[..|m| - 1];
      FilterSelectsTruePositions(vs, ms);
    }
  }

  /** The entry at a true position i lands at index CountTrue(m[..i]) of the filtered sequence. */
  lemma FilterRank<T>(values: seq<T>, m: seq<bool>, i: nat)
    requires |values| == |m|
    requires i < |m| && m[i]
    ensures CountTrue(m[..i]) < |Filter(values, m)|
    ensures Filter(values, m)[CountTrue(m[..i])] == values[i]
  {
    PositionRank(m, i);
    FilterSelectsTruePositions(values, m);
  }
}
