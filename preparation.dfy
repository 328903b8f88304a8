/**
 * `DataPreparation.prepare_data`: a band x height x width raster stack becomes
 * a table of feature vectors with one row per cell (row r * width + c holds
 * cell (r, c)) and one column per band. Cells equal to the declared nodata
 * value become missing (NaN in the source, `None` here), every value is
 * multiplied by 1000, rows with a missing column are masked out, and the
 * masked-in rows are kept in their original order.
 */
module Preparation {
  import opened Options
  import opened Masking
  import RowMajor

  /** The fixed factor every feature value is multiplied by before clustering. */
  const ScaleFactor: real := 1000.0

  /** A feature value after the nodata remap: `None` stands for NaN. */
  type Cell = Option<real>

  /** One row per grid cell, one column per band. */
  type Table = seq<seq<Cell>>

  /** A count x height x width stack of bands. */
  predicate Shaped<T>(g: seq<seq<seq<T>>>, count: nat, height: nat, width: nat)
  {
    |g| == count && forall b :: 0 <= b < count ==> RowMajor.IsGrid(g[b], height, width)
  }

  /** What the open raster stack provides: its shape, its declared nodata value (if any) and
      the values of all its bands. A stack has at least one band: `reshape(-1, count)` cannot
      infer the row count of a table with no columns. */
  datatype RasterStack = RasterStack(height: nat, width: nat, count: nat, nodata: Option<real>,
                                     bands: seq<seq<seq<real>>>)
  {
    predicate Valid()
    {
      count >= 1 && Shaped(bands, count, height, width)
    }
  }

  /** The result of preparation: the cleaned table and the validity mask over all cells. */
  datatype Prepared = Prepared(cleaned: Table, mask: seq<bool>)

  /** `data[data == nodata_value] = np.nan`, applied only when a nodata value is declared. */
  function RemapNodata(bands: seq<seq<seq<real>>>, nodata: Option<real>, count: nat, height: nat, width: nat)
    : (g: seq<seq<seq<Cell>>>)
    requires Shaped(bands, count, height, width)
    ensures Shaped(g, count, height, width)
    ensures forall b, r, c :: 0 <= b < count && 0 <= r < height && 0 <= c < width ==>
      (g[b][r][c] == None <==> nodata == Some(bands[b][r][c])) &&
      (g[b][r][c] != None ==> g[b][r][c] == Some(bands[b][r][c]))
  {
    seq(count, b requires 0 <= b < count =>
      seq(height, r requires 0 <= r < height =>
        seq(width, c requires 0 <= c < width =>
          if nodata == Some(bands[b][r][c]) then None else Some(bands[b][r][c]))))
  }

  /** `data = data * 1000`: NaN stays NaN, every other value is scaled. */
  function ScaleGrid(g: seq<seq<seq<Cell>>>, count: nat, height: nat, width: nat): (s: seq<seq<seq<Cell>>>)
    requires Shaped(g, count, height, width)
    ensures Shaped(s, count, height, width)
    ensures forall b, r, c :: 0 <= b < count && 0 <= r < height && 0 <= c < width ==>
      (s[b][r][c] == None <==> g[b][r][c] == None) &&
      (s[b][r][c] != None ==> s[b][r][c].value == g[b][r][c].value * ScaleFactor)
  {
    seq(count, b requires 0 <= b < count =>
      seq(height, r requires 0 <= r < height =>
        seq(width, c requires 0 <= c < width =>
          match g[b][r][c]
          case None => None
          case Some(v) => Some(v * ScaleFactor))))
  }

  /** `data.transpose(1, 2, 0).reshape(-1, count)`: flat row i holds, band by band, the values of
      cell (i / width, i % width). */
  function ToTable(g: seq<seq<seq<Cell>>>, count: nat, height: nat, width: nat): (t: Table)
    requires Shaped(g, count, height, width)
    ensures |t| == height * width
    ensures forall i :: 0 <= i < |t| ==> |t[i]| == count
  {
    seq(height * width, i requires 0 <= i < height * width =>
      RowMajor.IndexToCell(i, height, width);
      seq(count, b requires 0 <= b < count => g[b][i / width][i % width]))
  }

  /** `~np.any(np.isnan(table), axis=1)`: a row is valid when none of its columns is missing. */
  function ValidMask(t: Table): (m: seq<bool>)
    ensures |m| == |t|
  {
    seq(|t|, i requires 0 <= i < |t| => forall b :: 0 <= b < |t[i]| ==> t[i][b] != None)
  }

  /** The full feature table of a stack, before any row is removed. */
  function FeatureTable(src: RasterStack): (t: Table)
    requires src.Valid()
    ensures |t| == src.height * src.width
    ensures forall i :: 0 <= i < |t| ==> |t[i]| == src.count
  {
    var remapped := RemapNodata(src.bands, src.nodata, src.count, src.height, src.width);
    var scaled := ScaleGrid(remapped, src.count, src.height, src.width);
    ToTable(scaled, src.count, src.height, src.width)
  }

  /** `prepare_data` without the file access: the cleaned table and the validity mask. */
  function Prepare(src: RasterStack): (p: Prepared)
    requires src.Valid()
    ensures |p.mask| == src.height * src.width
    ensures |p.cleaned| == CountTrue(p.mask)
  {
    var table := FeatureTable(src);
    var mask := ValidMask(table);
    Prepared(Filter(table, mask), mask)
  }

  /** Row i = r * width + c of the feature table holds cell (r, c): for each band, missing when
      the band's value there is the nodata value, and that value times 1000 otherwise. */
  lemma FeatureTableAt(src: RasterStack, r: nat, c: nat, i: nat)
    requires src.Valid()
    requires r < src.height && c < src.width && i == r * src.width + c
    ensures i < |FeatureTable(src)|
    ensures forall b :: 0 <= b < src.count ==>
      FeatureTable(src)[i][b] ==
        if src.nodata == Some(src.bands[b][r][c]) then None else Some(src.bands[b][r][c] * ScaleFactor)
  {
    RowMajor.CellToIndex(r, c, src.height, src.width);
  }

  /** Without a declared nodata value nothing is remapped, so every cell is kept. */
  lemma NoNodataKeepsAllCells(src: RasterStack)
    requires src.Valid() && src.nodata == None
    ensures forall i :: 0 <= i < |Prepare(src).mask| ==> Prepare(src).mask[i]
    ensures |Prepare(src).cleaned| == src.height * src.width
  {
    var t := FeatureTable(src);
    var m := Prepare(src).mask;
    assert m == ValidMask(t);
    forall i | 0 <= i < |m|
      ensures m[i]
    {
      var r, c := RowMajor.CellOf(i, src.height, src.width);
      FeatureTableAt(src, r, c, i);
      assert forall b :: 0 <= b < |t[i]| ==> t[i][b] != None;
    }
    AllTrueCount(m);
  }

  lemma {:induction false} AllTrueCount(m: seq<bool>)
    requires forall i :: 0 <= i < |m| ==> m[i]
    ensures CountTrue(m) == |m|
  {
    if |m| > 0 {
      AllTrueCount(m[..|m| - 1]);
    }
  }

  /** Cell (r, c), at flat index i = r * width + c, is valid exactly when no band holds the
      nodata value there. */
  lemma MaskMarksCompleteCells(src: RasterStack, r: nat, c: nat, i: nat)
    requires src.Valid()
    requires r < src.height && c < src.width && i == r * src.width + c
    ensures i < |Prepare(src).mask|
    ensures Prepare(src).mask[i] <==>
      forall b :: 0 <= b < src.count ==> src.nodata != Some(src.bands[b][r][c])
  {
    FeatureTableAt(src, r, c, i);
  }

  /** The cleaned table is the order-preserving subsequence of valid rows, and none of its
      entries is missing. */
  lemma CleanedRowsAreValidRows(src: RasterStack)
    requires src.Valid()
    ensures forall k :: 0 <= k < |Prepare(src).cleaned| ==>
      Prepare(src).cleaned[k] == FeatureTable(src)[TruePositions(Prepare(src).mask)[k]]
    ensures forall k, b :: 0 <= k < |Prepare(src).cleaned| && 0 <= b < |Prepare(src).cleaned[k]| ==>
      Prepare(src).cleaned[k][b] != None
  {
    FilterSelectsTruePositions(FeatureTable(src), Prepare(src).mask);
  }

  /** A valid row i of the feature table is row CountTrue(mask[..i]) of the cleaned table. */
  lemma CleanedRowAtRank(src: RasterStack, i: nat)
    requires src.Valid()
    requires i < |Prepare(src).mask| && Prepare(src).mask[i]
    ensures CountTrue(Prepare(src).mask[..i]) < |Prepare(src).cleaned|
    ensures Prepare(src).cleaned[CountTrue(Prepare(src).mask[..i])] == FeatureTable(src)[i]
  {
    FilterRank(FeatureTable(src), Prepare(src).mask, i);
  }

  /** The feature row of a cell with no nodata band: each band's value there, times 1000. */
  function ScaledCell(src: RasterStack, r: nat, c: nat): (row: seq<Cell>)
    requires src.Valid()
    requires r < src.height && c < src.width
    ensures |row| == src.count
    ensures forall b :: 0 <= b < src.count ==> row[b] == Some(src.bands[b][r][c] * ScaleFactor)
  {
    seq(src.count, b requires 0 <= b < src.count => Some(src.bands[b][r][c] * ScaleFactor))
  }

  /** Row i = r * width + c of the feature table of a cell with no nodata band is that cell's
      scaled values. */
  lemma CompleteCellRow(src: RasterStack, r: nat, c: nat, i: nat)
    requires src.Valid()
    requires r < src.height && c < src.width && i == r * src.width + c
    requires forall b :: 0 <= b < src.count ==> src.nodata != Some(src.bands[b][r][c])
    ensures i < |FeatureTable(src)|
    ensures FeatureTable(src)[i] == ScaledCell(src, r, c)
  {
    FeatureTableAt(src, r, c, i);
    var row := FeatureTable(src)[i];
    var want := ScaledCell(src, r, c);
    assert |row| == |want|;
    forall b | 0 <= b < |row|
      ensures row[b] == want[b]
    {
    }
  }

  /** A cell (r, c) with no nodata band, at flat index i = r * width + c, is valid and becomes row
      CountTrue(mask[..i]) of the cleaned table, and that row is the cell's band values, each
      times 1000. */
  lemma CleanedRowOfCell(src: RasterStack, r: nat, c: nat, i: nat)
    requires src.Valid()
    requires r < src.height && c < src.width && i == r * src.width + c
    requires forall b :: 0 <= b < src.count ==> src.nodata != Some(src.bands[b][r][c])
    ensures i < |Prepare(src).mask| && Prepare(src).mask[i]
    ensures CountTrue(Prepare(src).mask[..i]) < |Prepare(src).cleaned|
    ensures Prepare(src).cleaned[CountTrue(Prepare(src).mask[..i])] == ScaledCell(src, r, c)
  {
    CompleteCellRow(src, r, c, i);
    MaskMarksCompleteCells(src, r, c, i);
    CleanedRowAtRank(src, i);
  }

  /** The object that reads the stack remembers the original grid shape for the write-back. */
  class DataPreparation {
    const rasterStackPath: string
    var originalShape: Option<(nat, nat)>

    constructor (rasterStackPath: string)
      ensures this.rasterStackPath == rasterStackPath
      ensures originalShape == None
    {
      this.rasterStackPath := rasterStackPath;
      originalShape := None;
    }

    /** `src` is the stack opened from `rasterStackPath`. */
    method PrepareData(src: RasterStack) returns (cleanedData: Table, validDataMask: seq<bool>)
      requires src.Valid()
      modifies this
      ensures originalShape == Some((src.height, src.width))
      ensures Prepared(cleanedData, validDataMask) == Prepare(src)
    {
      originalShape := Some((src.height, src.width));
      var p := Prepare(src);
      cleanedData, validDataMask := p.cleaned, p.mask;
    }
  }
}
