/**
 * `HdbscanRun.run_clustering`: the clusterer (standardisation followed by
 * HDBSCAN, opaque here) returns one label per row, -1 for noise and 0, 1, ...
 * for clusters; every label is then moved up by one, so that noise becomes 0
 * and the clusters start at 1.
 */
module Clustering {

  /** The clusterer's label for a row it puts in no cluster. */
  const RawNoise: int := -1

  /** The label noise carries after the shift. */
  const Noise: int := 0

  /** What the opaque clusterer promises of its result on `data`: one label per row, each
      either noise or a cluster id. */
  predicate ClustererContract<T>(clusterer: seq<T> -> seq<int>, data: seq<T>)
  {
    var raw := clusterer(data);
    |raw| == |data| && forall i :: 0 <= i < |raw| ==> raw[i] >= RawNoise
  }

  /** `clusterer.labels_ + 1`: every raw label shifted up by one, in the same order. */
  function RunClustering<T>(clusterer: seq<T> -> seq<int>, data: seq<T>): (adjusted: seq<int>)
    ensures |adjusted| == |clusterer(data)|
    ensures forall i :: 0 <= i < |adjusted| ==> adjusted[i] - 1 == clusterer(data)[i]
  {
    var raw := clusterer(data);
    seq(|raw|, i requires 0 <= i < |raw| => raw[i] + 1)
  }

  /** Under the clusterer's contract there is one adjusted label per row, none is negative, noise
      is exactly the label 0 and every cluster is a label of at least 1. */
  lemma RelabelSeparatesNoise<T>(clusterer: seq<T> -> seq<int>, data: seq<T>)
    requires ClustererContract(clusterer, data)
    ensures |RunClustering(clusterer, data)| == |data|
    ensures forall i :: 0 <= i < |data| ==> RunClustering(clusterer, data)[i] >= Noise
    ensures forall i :: 0 <= i < |data| ==>
      (RunClustering(clusterer, data)[i] == Noise <==> clusterer(data)[i] == RawNoise)
  {
  }

  /** The shift neither merges nor splits groups: two rows share an adjusted label exactly when
      they shared a raw label. */
  lemma RelabelKeepsGroups<T>(clusterer: seq<T> -> seq<int>, data: seq<T>, i: nat, j: nat)
    requires i < |clusterer(data)| && j < |clusterer(data)|
    ensures RunClustering(clusterer, data)[i] == RunClustering(clusterer, data)[j] <==>
      clusterer(data)[i] == clusterer(data)[j]
  {
  }

  /** The distinct values of a label sequence, `set(labels)`, collected in a left-to-right walk. */
  function Distinct(labels: seq<int>): set<int>
  {
    if |labels| == 0 then {}
    else Distinct(labels[..|labels| - 1]) + {labels[|labels| - 1]}
  }

  /** The walk collects exactly the values that occur in the sequence. */
  lemma {:induction false} DistinctMembers(labels: seq<int>)
    ensures forall v :: v in Distinct(labels) <==> v in labels
  {
    if |labels| > 0 {
      var init := labels[..|labels| - 1];
      DistinctMembers(init);
      assert labels == init + [labels[|labels| - 1]];
    }
  }

  /** The cluster count the driver prints after clustering:
      `len(set(cluster_labels)) - (1 if -1 in cluster_labels else 0)`, on the shifted labels. */
  function ReportedClusterCount(adjusted: seq<int>): (n: int)
    ensures n == |Distinct(adjusted) - {RawNoise}|
    ensures 0 <= n <= |adjusted|
  {
    DistinctAtMost(adjusted);
    DistinctMembers(adjusted);
    |Distinct(adjusted)| - (if RawNoise in adjusted then 1 else 0)
  }

  /** Adding a value that is not yet in a set grows it by exactly one. */
  lemma AddNewValue(s: set<int>, x: int)
    requires x !in s
    ensures |s + {x}| == |s| + 1
  {
  }

  /** A sequence has at most as many distinct values as entries. */
  lemma {:induction false} DistinctAtMost(labels: seq<int>)
    ensures |Distinct(labels)| <= |labels|
    decreases |labels|
  {
    if |labels| > 0 {
      var init, last := labels[..|labels| - 1], labels[|labels| - 1];
      DistinctAtMost(init);
      if last !in Distinct(init) {
        AddNewValue(Distinct(init), last);
      }
    }
  }

  /** A value is a shifted label exactly when one less is a raw label. */
  lemma {:induction false} ShiftedMembers(raw: seq<int>, adjusted: seq<int>)
    requires |adjusted| == |raw|
    requires forall i :: 0 <= i < |raw| ==> adjusted[i] == raw[i] + 1
    ensures forall v :: v in Distinct(adjusted) <==> v - 1 in Distinct(raw)
  {
    if |raw| > 0 {
      var n := |raw| - 1;
      ShiftedMembers(raw[..n], adjusted[..n]);
    }
  }

  /** Shifting every label by one neither merges nor splits values, so the number of distinct
      values is unchanged. */
  lemma {:induction false} ShiftKeepsDistinctCount(raw: seq<int>, adjusted: seq<int>)
    requires |adjusted| == |raw|
    requires forall i :: 0 <= i < |raw| ==> adjusted[i] == raw[i] + 1
    ensures forall v :: v in Distinct(adjusted) <==> v - 1 in Distinct(raw)
    ensures |Distinct(adjusted)| == |Distinct(raw)|
  {
    ShiftedMembers(raw, adjusted);
    if |raw| > 0 {
      var n := |raw| - 1;
      var rawInit, adjInit := raw[..n], adjusted[..n];
      ShiftKeepsDistinctCount(rawInit, adjInit);
      var dr, da := Distinct(rawInit), Distinct(adjInit);
      if raw[n] in dr {
        assert adjusted[n] in da;
        assert Distinct(raw) == dr;
        assert Distinct(adjusted) == da;
      } else {
        assert adjusted[n] !in da;
        AddNewValue(dr, raw[n]);
        AddNewValue(da, adjusted[n]);
      }
    }
  }

  /** The noise test in the printed count runs after the shift, when no label is -1 any more: the
      count is the number of distinct raw labels, the noise bucket included. */
  lemma ReportedCountIncludesNoise<T>(clusterer: seq<T> -> seq<int>, data: seq<T>)
    requires ClustererContract(clusterer, data)
    ensures RawNoise !in RunClustering(clusterer, data)
    ensures ReportedClusterCount(RunClustering(clusterer, data)) == |Distinct(clusterer(data))|
  {
    var raw, adjusted := clusterer(data), RunClustering(clusterer, data);
    ShiftKeepsDistinctCount(raw, adjusted);
  }
}
