/**
 * `SaveResults.save_to_tif`: the cluster labels of the valid rows are placed
 * back at their cells in a flat int32 buffer prefilled with the nodata
 * sentinel -9999, and the buffer is reshaped to (height, width).
 */
module SaveResults {
  import opened Masking
  import RowMajor

  /** The nodata value written to every cell that was excluded from clustering. */
  const NodataValue: int := -9999

  /** The flat buffer after `output_raster[valid_data_mask] = cluster_labels`: each true
      position receives the next unused label, every other position keeps the sentinel. */
  function Scatter(labels: seq<int>, m: seq<bool>): (flat: seq<int>)
    requires |labels| == CountTrue(m)
    ensures |flat| == |m|
  {
    if |m| == 0 then []
    else if m[|m| - 1] then Scatter(labels[..|labels| - 1], m[..|m| - 1]) + [labels[|labels| - 1]]
    else Scatter(labels, m[..|m| - 1]) + [NodataValue]
  }

  /** Position i holds the sentinel when it is masked out, and otherwise the label whose index
      is the number of true entries before i. */
  lemma {:induction false} ScatterAt(labels: seq<int>, m: seq<bool>, i: nat)
    requires |labels| == CountTrue(m)
    requires i < |m|
    ensures m[i] ==> CountTrue(m[..i]) < |labels|
    ensures Scatter(labels, m)[i] == if m[i] then labels[CountTrue(m[..i])] else NodataValue
  {
    CountTruePrefix(m, i);
    var init := m[..|m| - 1];
    if i < |m| - 1 {
      assert init[..i] == m[..i];
      var rest := if m[|m| - 1] then labels[..|labels| - 1] else labels;
      ScatterAt(rest, init, i);
    } else {
      assert init == m[..i];
    }
  }

  /** Every masked-out position holds the sentinel, and the j-th true position holds labels[j]. */
  lemma ScatterPlacesLabels(labels: seq<int>, m: seq<bool>)
    requires |labels| == CountTrue(m)
    ensures forall i :: 0 <= i < |m| && !m[i] ==> Scatter(labels, m)[i] == NodataValue
    ensures forall j :: 0 <= j < |labels| ==> Scatter(labels, m)[TruePositions(m)[j]] == labels[j]
  {
    forall i | 0 <= i < |m| && !m[i]
      ensures Scatter(labels, m)[i] == NodataValue
    {
      ScatterAt(labels, m, i);
    }
    forall j | 0 <= j < |labels|
      ensures Scatter(labels, m)[TruePositions(m)[j]] == labels[j]
    {
      RankOfPosition(m, j);
      ScatterAt(labels, m, TruePositions(m)[j]);
    }
  }

  /** Gathering the true positions of the scattered buffer gives back the labels: scattering is
      the inverse of `values[mask]`. */
  lemma FilterScatter(labels: seq<int>, m: seq<bool>)
    requires |labels| == CountTrue(m)
    ensures Filter(Scatter(labels, m), m) == labels
  {
    var back := Filter(Scatter(labels, m), m);
    FilterSelectsTruePositions(Scatter(labels, m), m);
    ScatterPlacesLabels(labels, m);
    forall k | 0 <= k < |labels|
      ensures back[k] == labels[k]
    {
    }
  }

  /** Scattering the filtered entries of a sequence restores it on the true positions and puts
      the sentinel everywhere else. */
  lemma ScatterFilter(values: seq<int>, m: seq<bool>)
    requires |values| == |m|
    ensures forall i :: 0 <= i < |m| ==>
      Scatter(Filter(values, m), m)[i] == if m[i] then values[i] else NodataValue
  {
    forall i | 0 <= i < |m|
      ensures Scatter(Filter(values, m), m)[i] == if m[i] then values[i] else NodataValue
    {
      ScatterAt(Filter(values, m), m, i);
      if m[i] {
        FilterRank(values, m, i);
      }
    }
  }

  /** When every label is non-negative, the sentinel marks exactly the masked-out cells: an
      excluded cell is never mistaken for noise (0) or for a cluster (1, 2, ...). */
  lemma SentinelMarksExactlyExcluded(labels: seq<int>, m: seq<bool>)
    requires |labels| == CountTrue(m)
    requires forall j :: 0 <= j < |labels| ==> labels[j] >= 0
    ensures forall i :: 0 <= i < |m| ==> (Scatter(labels, m)[i] == NodataValue <==> !m[i])
    ensures forall i :: 0 <= i < |m| && m[i] ==> Scatter(labels, m)[i] >= 0
  {
    forall i | 0 <= i < |m|
      ensures (Scatter(labels, m)[i] == NodataValue <==> !m[i]) && (m[i] ==> Scatter(labels, m)[i] >= 0)
    {
      ScatterAt(labels, m, i);
    }
  }

  /** Allocates the buffer filled with the sentinel and writes the labels, in order, at the true
      positions of the mask, advancing a label cursor at each one. */
  method ScatterLabels(labels: seq<int>, m: seq<bool>) returns (buffer: array<int>)
    requires |labels| == CountTrue(m)
    ensures fresh(buffer)
    ensures buffer.Length == |m|
    ensures buffer[..] == Scatter(labels, m)
  {
    buffer := new int[|m|](_ => NodataValue);
    var i, next := 0, 0;
    while i < |m|
      invariant 0 <= i <= |m|
      invariant next == CountTrue(m[..i]) <= |labels|
      invariant buffer[..i] == Scatter(labels[..next], m[..i])
      invariant forall k :: i <= k < |m| ==> buffer[k] == NodataValue
    {
      CountTrueStep(m, i);
      CountTruePrefix(m, i);
      if m[i] {
        buffer[i] := labels[next];
        next := next + 1;
        assert labels[..next][..next - 1] == labels[..next - 1];
      }
      assert m[..i + 1][..i] == m[..i];
      assert buffer[..i + 1] == buffer[..i] + [buffer[i]];
      i := i + 1;
    }
    assert m[..i] == m;
    assert labels[..next] == labels;
    assert buffer[..] == buffer[..i];
  }

  /** Cell (r, c) of the output grid holds the sentinel when flat row i = r * width + c was
      masked out, and otherwise the label of that row: the one whose index is the row's rank
      among the valid rows. */
  lemma {:induction false} GridCellAt(labels: seq<int>, m: seq<bool>, height: nat, width: nat, r: nat, c: nat, i: nat)
    requires |m| == height * width
    requires |labels| == CountTrue(m)
    requires r < height && c < width && i == r * width + c
    ensures i < |m|
    ensures !m[i] ==> RowMajor.Reshape(Scatter(labels, m), height, width)[r][c] == NodataValue
    ensures m[i] ==>
      CountTrue(m[..i]) < |labels| &&
      RowMajor.Reshape(Scatter(labels, m), height, width)[r][c] == labels[CountTrue(m[..i])]
  {
    RowMajor.CellToIndex(r, c, height, width);
    ScatterAt(labels, m, i);
  }

  /** The whole of `save_to_tif` short of writing the file: the (height, width) label grid. */
  method SaveToTif(labels: seq<int>, m: seq<bool>, height: nat, width: nat) returns (grid: seq<seq<int>>)
    requires |m| == height * width
    requires |labels| == CountTrue(m)
    ensures RowMajor.IsGrid(grid, height, width)
    ensures grid == RowMajor.Reshape(Scatter(labels, m), height, width)
  {
    var buffer := ScatterLabels(labels, m);
    grid := RowMajor.Reshape(buffer[..], height, width);
  }
}
