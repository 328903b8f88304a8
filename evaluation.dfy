/**
 * The pixel selection of `analyze_stacked_raster`: band 1 holds the actual
 * zone and band 2 the predicted one. A pixel is kept when neither band is the
 * nodata value and both are among the five main zones; the kept pixels, read
 * in row-major order, become the aligned sequences `y_true` and `y_pred`.
 */
module Evaluation {
  import opened Options
  import opened Masking
  import RowMajor

  /** `LABELS_TO_KEEP`: the five main zones; noise (0) and mixed zones (6) are not among them. */
  const LabelsToKeep: set<int> := {1, 2, 3, 4, 5}

  /** `band != nodata_value`; a raster without a nodata value compares unequal everywhere. */
  predicate DiffersFromNodata(v: int, nodata: Option<int>)
  {
    nodata.None? || v != nodata.value
  }

  /** One pixel of `final_mask = mask_nodata & mask_labels_actual & mask_labels_predicted`. */
  function KeepPixel(actual: int, predicted: int, nodata: Option<int>): (keep: bool)
    ensures keep <==> ((nodata == None || (actual != nodata.value && predicted != nodata.value)) &&
                       1 <= actual <= 5 && 1 <= predicted <= 5)
  {
    DiffersFromNodata(actual, nodata) && DiffersFromNodata(predicted, nodata) &&
    actual in LabelsToKeep && predicted in LabelsToKeep
  }

  /** `final_mask` over the whole grid. */
  function FinalMask(actual: seq<seq<int>>, predicted: seq<seq<int>>, nodata: Option<int>, height: nat, width: nat)
    : (mask: seq<seq<bool>>)
    requires RowMajor.IsGrid(actual, height, width) && RowMajor.IsGrid(predicted, height, width)
    ensures RowMajor.IsGrid(mask, height, width)
  {
    seq(height, r requires 0 <= r < height =>
      seq(width, c requires 0 <= c < width => KeepPixel(actual[r][c], predicted[r][c], nodata)))
  }

  /** The samples handed to the metrics. */
  datatype Samples = Samples(yTrue: seq<int>, yPred: seq<int>)

  /** `band1_actual[final_mask]` and `band2_predicted[final_mask]`: boolean indexing of a 2-D
      array reads the kept pixels in row-major order. */
  function ExtractSamples(actual: seq<seq<int>>, predicted: seq<seq<int>>, nodata: Option<int>, height: nat, width: nat)
    : (s: Samples)
    requires RowMajor.IsGrid(actual, height, width) && RowMajor.IsGrid(predicted, height, width)
    ensures |s.yTrue| == |s.yPred| <= height * width
  {
    var mask := FlatMask(actual, predicted, nodata, height, width);
    Samples(Filter(RowMajor.Flatten(actual, height, width), mask),
            Filter(RowMajor.Flatten(predicted, height, width), mask))
  }

  /** The flattened final mask. */
  function FlatMask(actual: seq<seq<int>>, predicted: seq<seq<int>>, nodata: Option<int>, height: nat, width: nat)
    : (m: seq<bool>)
    requires RowMajor.IsGrid(actual, height, width) && RowMajor.IsGrid(predicted, height, width)
    ensures |m| == height * width
  {
    RowMajor.Flatten(FinalMask(actual, predicted, nodata, height, width), height, width)
  }

  /** Flat position r * width + c of the final mask is set exactly when neither band is nodata
      at (r, c) and both bands hold one of the zones 1..5 there. */
  lemma PixelKeptIff(actual: seq<seq<int>>, predicted: seq<seq<int>>, nodata: Option<int>,
                     height: nat, width: nat, r: nat, c: nat)
    requires RowMajor.IsGrid(actual, height, width) && RowMajor.IsGrid(predicted, height, width)
    requires r < height && c < width
    ensures r * width + c < height * width
    ensures FlatMask(actual, predicted, nodata, height, width)[r * width + c] <==>
      (nodata == None || (actual[r][c] != nodata.value && predicted[r][c] != nodata.value)) &&
      1 <= actual[r][c] <= 5 && 1 <= predicted[r][c] <= 5
  {
    RowMajor.FlattenAt(FinalMask(actual, predicted, nodata, height, width), height, width, r, c);
  }

  /** Pixel (r, c) is one of the sampled pixels exactly when it passes every test of the final
      mask. */
  lemma PixelSampledIff(actual: seq<seq<int>>, predicted: seq<seq<int>>, nodata: Option<int>,
                        height: nat, width: nat, r: nat, c: nat)
    requires RowMajor.IsGrid(actual, height, width) && RowMajor.IsGrid(predicted, height, width)
    requires r < height && c < width
    ensures r * width + c in TruePositions(FlatMask(actual, predicted, nodata, height, width)) <==>
      KeepPixel(actual[r][c], predicted[r][c], nodata)
  {
    PixelKeptIff(actual, predicted, nodata, height, width, r, c);
  }

  /** `y_true` and `y_pred` have one entry per set entry of the final mask, and index k of both
      is the same pixel: the k-th kept one in row-major order. */
  lemma SamplesAligned(actual: seq<seq<int>>, predicted: seq<seq<int>>, nodata: Option<int>, height: nat, width: nat)
    requires RowMajor.IsGrid(actual, height, width) && RowMajor.IsGrid(predicted, height, width)
    ensures |ExtractSamples(actual, predicted, nodata, height, width).yTrue|
      == CountTrue(FlatMask(actual, predicted, nodata, height, width))
    ensures forall k, r, c ::
      (0 <= k < |ExtractSamples(actual, predicted, nodata, height, width).yTrue| &&
       0 <= r < height && 0 <= c < width &&
       TruePositions(FlatMask(actual, predicted, nodata, height, width))[k] == r * width + c) ==>
      (ExtractSamples(actual, predicted, nodata, height, width).yTrue[k] == actual[r][c] &&
       ExtractSamples(actual, predicted, nodata, height, width).yPred[k] == predicted[r][c])
  {
    var m := FlatMask(actual, predicted, nodata, height, width);
    var s := ExtractSamples(actual, predicted, nodata, height, width);
    FilterSelectsTruePositions(RowMajor.Flatten(actual, height, width), m);
    FilterSelectsTruePositions(RowMajor.Flatten(predicted, height, width), m);
    forall k, r, c | 0 <= k < |s.yTrue| && 0 <= r < height && 0 <= c < width && TruePositions(m)[k] == r * width + c
      ensures s.yTrue[k] == actual[r][c] && s.yPred[k] == predicted[r][c]
    {
      RowMajor.FlattenAt(actual, height, width, r, c);
      RowMajor.FlattenAt(predicted, height, width, r, c);
    }
  }

  /** Every kept value, actual or predicted, is one of the zones 1..5 and not the nodata value. */
  lemma KeptValuesAreZones(actual: seq<seq<int>>, predicted: seq<seq<int>>, nodata: Option<int>, height: nat, width: nat)
    requires RowMajor.IsGrid(actual, height, width) && RowMajor.IsGrid(predicted, height, width)
    ensures forall k :: 0 <= k < |ExtractSamples(actual, predicted, nodata, height, width).yTrue| ==>
      1 <= ExtractSamples(actual, predicted, nodata, height, width).yTrue[k] <= 5 &&
      1 <= ExtractSamples(actual, predicted, nodata, height, width).yPred[k] <= 5 &&
      DiffersFromNodata(ExtractSamples(actual, predicted, nodata, height, width).yTrue[k], nodata) &&
      DiffersFromNodata(ExtractSamples(actual, predicted, nodata, height, width).yPred[k], nodata)
  {
    var m := FlatMask(actual, predicted, nodata, height, width);
    var s := ExtractSamples(actual, predicted, nodata, height, width);
    SamplesAligned(actual, predicted, nodata, height, width);
    forall k | 0 <= k < |s.yTrue|
      ensures 1 <= s.yTrue[k] <= 5 && 1 <= s.yPred[k] <= 5
      ensures DiffersFromNodata(s.yTrue[k], nodata) && DiffersFromNodata(s.yPred[k], nodata)
    {
      var r, c := RowMajor.CellOf(TruePositions(m)[k], height, width);
      PixelKeptIff(actual, predicted, nodata, height, width, r, c);
    }
  }
}
