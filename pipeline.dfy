/**
 * The round trip grid -> masked table -> labels -> grid, composed as the
 * driver composes `DataPreparation`, `HdbscanRun` and `SaveResults`: the
 * label computed for the table row of cell (r, c) ends up at (r, c), and
 * every cell left out of the table carries the nodata sentinel.
 */
module Pipeline {
  import opened Options
  import opened Masking
  import RowMajor
  import opened Preparation
  import opened Clustering
  import opened SaveResults

  /** The label grid written for `src` when the clusterer labels the cleaned table. */
  function ClusterRaster(src: RasterStack, clusterer: Table -> seq<int>): (grid: seq<seq<int>>)
    requires src.Valid()
    requires ClustererContract(clusterer, Prepare(src).cleaned)
    ensures RowMajor.IsGrid(grid, src.height, src.width)
  {
    var p := Prepare(src);
    var labels := RunClustering(clusterer, p.cleaned);
    RowMajor.Reshape(Scatter(labels, p.mask), src.height, src.width)
  }

  /** Cell (r, c) of the output holds the sentinel exactly when some band is nodata there. */
  lemma SentinelMarksNodataCells(src: RasterStack, clusterer: Table -> seq<int>, r: nat, c: nat)
    requires src.Valid()
    requires ClustererContract(clusterer, Prepare(src).cleaned)
    requires r < src.height && c < src.width
    ensures ClusterRaster(src, clusterer)[r][c] == NodataValue <==>
      exists b :: 0 <= b < src.count && src.nodata == Some(src.bands[b][r][c])
  {
    var p := Prepare(src);
    var labels := RunClustering(clusterer, p.cleaned);
    var i := r * src.width + c;
    MaskMarksCompleteCells(src, r, c, i);
    GridCellAt(labels, p.mask, src.height, src.width, r, c, i);
    RelabelSeparatesNoise(clusterer, p.cleaned);
    if p.mask[i] {
      assert labels[CountTrue(p.mask[..i])] >= Noise;
    }
  }

  /** A cell (r, c) with no nodata band, at flat index i = r * width + c, holds the shifted label
      that the clusterer gave to the cleaned row made of that cell's scaled band values, and that
      label is noise (0) or a cluster. */
  lemma LabelLandsOnItsCell(src: RasterStack, clusterer: Table -> seq<int>, r: nat, c: nat, i: nat)
    requires src.Valid()
    requires ClustererContract(clusterer, Prepare(src).cleaned)
    requires r < src.height && c < src.width && i == r * src.width + c
    requires forall b :: 0 <= b < src.count ==> src.nodata != Some(src.bands[b][r][c])
    ensures i < |Prepare(src).mask| && Prepare(src).mask[i]
    ensures CountTrue(Prepare(src).mask[..i]) < |Prepare(src).cleaned|
    ensures Prepare(src).cleaned[CountTrue(Prepare(src).mask[..i])] == ScaledCell(src, r, c)
    ensures ClusterRaster(src, clusterer)[r][c] ==
      clusterer(Prepare(src).cleaned)[CountTrue(Prepare(src).mask[..i])] + 1
    ensures ClusterRaster(src, clusterer)[r][c] >= Noise
  {
    var p := Prepare(src);
    var labels := RunClustering(clusterer, p.cleaned);
    CleanedRowOfCell(src, r, c, i);
    GridCellAt(labels, p.mask, src.height, src.width, r, c, i);
  }

  /** Reading the output back in row-major order through the validity mask gives exactly the
      shifted labels, in the order the clusterer returned them. */
  lemma ValidCellsReadBackLabels(src: RasterStack, clusterer: Table -> seq<int>)
    requires src.Valid()
    requires ClustererContract(clusterer, Prepare(src).cleaned)
    ensures Filter(RowMajor.Flatten(ClusterRaster(src, clusterer), src.height, src.width), Prepare(src).mask)
      == RunClustering(clusterer, Prepare(src).cleaned)
  {
    var p := Prepare(src);
    var labels := RunClustering(clusterer, p.cleaned);
    RowMajor.FlattenReshape(Scatter(labels, p.mask), src.height, src.width);
    FilterScatter(labels, p.mask);
  }
}
