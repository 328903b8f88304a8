# Climate-zone clustering: the grid / table round trip

This project models, in Dafny, the core of a pipeline that clusters a
multi-band climate raster into zones. The pipeline has three steps:

1. `DataPreparation.prepare_data` turns a band x height x width stack into a
   feature table. Each grid cell becomes one row (row `r * width + c` holds cell
   `(r, c)`) and each band becomes one column. Cells equal to the nodata value
   become missing. Every value is multiplied by 1000. Rows with a missing
   column are masked out, and the remaining rows keep their order.
2. `HdbscanRun.run_clustering` shifts the clusterer's labels up by one, so
   that noise (-1) becomes 0 and clusters start at 1.
3. `SaveResults.save_to_tif` scatters the labels back. The valid cells get
   their labels and every other cell gets the sentinel -9999. The flat buffer
   is then reshaped row-major to (height, width).

Two utility scripts are modelled as well:

- the per-pixel zone reclassification (`np.select` with a default);
- the evaluation pixel filter, which builds the aligned `y_true` / `y_pred`
  samples.

Modules, one per file:

- `Options`: the optional value used for missing cells.
- `RowMajor`: the index arithmetic of flatten and reshape, with its inverse lemmas.
- `Masking`: what a boolean mask selects (count, true positions, `values[mask]`).
- `Preparation`: the data preparation, including the `DataPreparation` class.
- `Clustering`: the relabel step.
- `SaveResults`: the sentinel scatter, with an array method and its specification function.
- `Pipeline`: the end-to-end round trip.
- `Reclassification`: the zone reclassification.
- `Evaluation`: the evaluation pixel filter.

The clusterer (standardisation followed by HDBSCAN) is a function parameter.
The model knows only its contract: one label per row, each at least -1.
Raster files are not read; the opened stack is a parameter value (`RasterStack`).

Points where the code does something other than its own comments or names suggest:

- The comment on scripts/classes.py:37 says 100, but the code on the next line multiplies by 1000.
  The model uses 1000.
- The cluster count that the driver prints (scripts/main.py:21) tests for -1 after the +1 shift, so it counts the noise bucket.
  The model states the count as the code computes it (`Clustering.ReportedCountIncludesNoise`).
- A label count that does not match the mask is a numpy error in `output_raster[valid_data_mask] = cluster_labels`.
  The model makes it a precondition of `Scatter`.
- A stack has at least one band: with zero bands, `reshape(-1, src.count)` (scripts/classes.py:41) cannot infer its row count and numpy raises an error.
  `RasterStack.Valid` requires `count >= 1`.

## Model

| member | source | states |
|---|---|---|
| `RowMajor.CellToIndex` | scripts/classes.py:41 | cell (r, c) has flat index r*width+c < height*width, and that index divides back to (r, c) |
| `RowMajor.IndexToCell` | scripts/classes.py:101 | every flat index i < height*width lands on cell (i / width, i % width) inside the grid, and that cell's index is i again |
| `RowMajor.Flatten` | scripts/method_evaluation.py:34-35 | row-major flattening of a 2-D grid yields height*width entries |
| `RowMajor.Reshape` | scripts/classes.py:101 | reshaping a buffer of height*width entries gives a height x width grid |
| `RowMajor.FlattenAt` | scripts/method_evaluation.py:34-35 | entry r*width+c of the flattened grid is cell (r, c) |
| `RowMajor.ReshapeAt` | scripts/classes.py:101 | flat entry i appears at output cell (i / width, i % width) |
| `RowMajor.ReshapeFlatten` | scripts/classes.py:41 | reshaping the row-major flattening gives back the original grid |
| `RowMajor.FlattenReshape` | scripts/classes.py:101 | flattening the reshaped buffer gives back the buffer |
| `Masking.TruePositions` | scripts/classes.py:47 | the true positions of a mask: as many as the true entries, each in range and true, strictly increasing, and every true index among them |
| `Masking.Filter` | scripts/classes.py:47 | `values[mask]` has exactly as many entries as the mask has true entries |
| `Masking.FilterSelectsTruePositions` | scripts/classes.py:47 | the k-th kept entry is the entry at the k-th true position, so kept rows keep their order |
| `Masking.PositionRank` | scripts/classes.py:98 | a true index i is the CountTrue(mask[..i])-th true position |
| `Masking.RankOfPosition` | scripts/classes.py:98 | the j-th true position is preceded by exactly j true entries |
| `Masking.FilterRank` | scripts/classes.py:47 | the row at a true index i is at index CountTrue(mask[..i]) of the filtered table |
| `Preparation.RemapNodata` | scripts/classes.py:34-35 | keeps the shape; a cell becomes missing exactly when it equals the declared nodata value, and any other cell keeps its value |
| `Preparation.ScaleGrid` | scripts/classes.py:38 | keeps the shape; missing stays missing and every present value is multiplied by 1000 |
| `Preparation.ToTable` | scripts/classes.py:41 | the transposed and reshaped table has height*width rows of `count` columns |
| `Preparation.ValidMask` | scripts/classes.py:44 | the mask has one entry per table row |
| `Preparation.FeatureTable` | scripts/classes.py:31-41 | the feature table of a stack has height*width rows of `count` columns |
| `Preparation.Prepare` | scripts/classes.py:19-49 | the mask has height*width entries, and the cleaned table has as many rows as the mask has true entries |
| `Preparation.FeatureTableAt` | scripts/classes.py:34-41 | table entry [i][b], for i = r*width+c, is missing when band b is nodata at (r, c), and band b's value there times 1000 otherwise |
| `Preparation.NoNodataKeepsAllCells` | scripts/classes.py:34-35 | with no declared nodata value nothing is remapped: every mask entry is true and all height*width rows are kept |
| `Preparation.AllTrueCount` | scripts/classes.py:47 | an all-true mask keeps every row |
| `Preparation.MaskMarksCompleteCells` | scripts/classes.py:44 | mask[i], for i = r*width+c, holds exactly when no band holds the nodata value at (r, c) |
| `Preparation.CleanedRowsAreValidRows` | scripts/classes.py:47 | cleaned row k is the table row at the k-th true mask position, and no cleaned entry is missing |
| `Preparation.CleanedRowAtRank` | scripts/classes.py:47 | a valid table row i is cleaned row CountTrue(mask[..i]) |
| `Preparation.CompleteCellRow` | scripts/classes.py:34-41 | for a cell (r, c) with no nodata band, table row r*width+c is its band values, each times 1000 |
| `Preparation.CleanedRowOfCell` | scripts/classes.py:41-47 | a cell (r, c) with no nodata band is valid at i = r*width+c, and is cleaned row CountTrue(mask[..i]), made of its band values times 1000 |
| `Preparation.DataPreparation.constructor` | scripts/classes.py:11-17 | stores the stack path and starts with no recorded shape |
| `Preparation.DataPreparation.PrepareData` | scripts/classes.py:19-49 | records (height, width) as the original shape and returns the cleaned table and the mask of `Prepare` |
| `Clustering.RunClustering` | scripts/classes.py:75-78 | one adjusted label per raw label, each exactly one more than the raw label at the same index |
| `Clustering.RelabelSeparatesNoise` | scripts/classes.py:75-77 | under the clusterer's contract, one label per row, none negative, and 0 exactly where the clusterer said noise (-1) |
| `Clustering.RelabelKeepsGroups` | scripts/classes.py:77 | two rows share an adjusted label exactly when they shared a raw label |
| `Clustering.ShiftedMembers` | scripts/classes.py:77 | a value is a distinct adjusted label exactly when one less is a distinct raw label |
| `Clustering.ShiftKeepsDistinctCount` | scripts/classes.py:77 | the shift maps the distinct raw labels one-to-one onto the distinct adjusted labels, so their number is unchanged |
| `Clustering.ReportedClusterCount` | scripts/main.py:21 | the printed count is the number of distinct labels other than -1, between 0 and the number of labels |
| `Clustering.ReportedCountIncludesNoise` | scripts/main.py:21 | no adjusted label is -1, so the printed count subtracts nothing and equals the number of distinct raw labels, the noise bucket included |
| `SaveResults.Scatter` | scripts/classes.py:94-98 | the scattered buffer has one entry per mask entry |
| `SaveResults.ScatterAt` | scripts/classes.py:94-98 | position i holds -9999 when masked out, and otherwise the label whose index is the number of true entries before i |
| `SaveResults.ScatterPlacesLabels` | scripts/classes.py:94-98 | every masked-out position holds -9999, and the j-th true position holds labels[j] |
| `SaveResults.FilterScatter` | scripts/classes.py:98 | gathering the true positions of the scattered buffer gives back exactly the labels |
| `SaveResults.ScatterFilter` | scripts/classes.py:47 | scattering the filtered values restores them at the true positions and puts -9999 elsewhere |
| `SaveResults.SentinelMarksExactlyExcluded` | scripts/classes.py:94 | with non-negative labels, a position holds -9999 exactly when it is masked out, and a kept position holds a label >= 0 |
| `SaveResults.ScatterLabels` | scripts/classes.py:95-98 | a newly allocated array, filled with -9999 and written at the true positions with a label cursor, equals `Scatter` |
| `SaveResults.GridCellAt` | scripts/classes.py:94-101 | output cell (r, c) is -9999 when row i = r*width+c was masked out, and otherwise that row's label, chosen by its rank among the valid rows |
| `SaveResults.SaveToTif` | scripts/classes.py:90-101 | the output is a height x width grid equal to the reshaped scatter of the labels |
| `Pipeline.ClusterRaster` | scripts/main.py:13-32 | preparing, clustering and saving a stack gives a height x width grid |
| `Pipeline.SentinelMarksNodataCells` | scripts/classes.py:34-44 | an output cell holds -9999 exactly when some band holds the nodata value at that cell |
| `Pipeline.LabelLandsOnItsCell` | scripts/classes.py:41-101 | for a cell (r, c) with no nodata band, at i = r*width+c, the cleaned row of rank CountTrue(mask[..i]) is that cell's scaled band values, and the label the clusterer gave that row, plus one, lands at (r, c) and is >= 0 |
| `Pipeline.ValidCellsReadBackLabels` | scripts/classes.py:98-101 | reading the output grid row-major through the mask gives back exactly the shifted labels, in clusterer order |
| `Reclassification.Select` | scripts/raster_reclassification.py:49 | the default when no rule holds x; otherwise the value of the first rule that holds x |
| `Reclassification.DisjointAnyMatch` | scripts/raster_reclassification.py:34-42 | with pairwise disjoint rules, any rule that holds x decides the result |
| `Reclassification.ZoneRulesDisjoint` | scripts/raster_reclassification.py:34-42 | the seven value sets are pairwise disjoint |
| `Reclassification.ZoneTable` | scripts/raster_reclassification.py:34-49 | 0->0, {6,8}->1, 5->2, 7->3, 4->4, {1,3}->5, 2->6, and any value outside 0..8 -> nodata |
| `Reclassification.ReclassifyPixel` | scripts/raster_reclassification.py:34-49 | every cluster id 0..8 lands on a zone 0..6, and every other value on the nodata value |
| `Reclassification.ReclassifyRaster` | scripts/raster_reclassification.py:49 | same shape as the input, and every pixel is reclassified on its own |
| `Evaluation.KeepPixel` | scripts/method_evaluation.py:27-32 | a pixel is kept exactly when neither band is nodata (no nodata value excludes nothing) and both bands hold a zone in 1..5 |
| `Evaluation.FinalMask` | scripts/method_evaluation.py:27-32 | the final mask has the shape of the bands |
| `Evaluation.ExtractSamples` | scripts/method_evaluation.py:34-35 | `y_true` and `y_pred` have equal length, at most height*width |
| `Evaluation.FlatMask` | scripts/method_evaluation.py:32 | the flattened final mask has height*width entries |
| `Evaluation.PixelKeptIff` | scripts/method_evaluation.py:17-32 | the mask at (r, c) holds exactly when neither band is nodata there and both bands hold a zone in 1..5 |
| `Evaluation.PixelSampledIff` | scripts/method_evaluation.py:27-35 | pixel (r, c) is among the sampled positions exactly when it passes every test of the final mask |
| `Evaluation.SamplesAligned` | scripts/method_evaluation.py:34-35 | there are as many samples as set mask entries, and index k of `y_true` and of `y_pred` is the same pixel: the k-th kept one in row-major order |
| `Evaluation.KeptValuesAreZones` | scripts/method_evaluation.py:16-17 | every kept value, actual or predicted, lies in 1..5 and differs from nodata, so noise (0) and mixed zones (6) never appear |

## Left out

- Raster I/O and metadata are not modelled. This covers `rasterio.open`, reading and writing bands, `profile`, `profile.update` and `meta.update`.
  The opened stack is a parameter value, and `SaveToTif` returns the grid it would write.
- The `profile` attribute of `DataPreparation` and of `SaveResults` is not modelled, for the same reason. Only `original_shape` is kept as state.
- The clusterer is not modelled. Standardisation (`StandardScaler`) and HDBSCAN are opaque float numerics and run in parallel internally.
  They are one function parameter whose contract is one label per row, each >= -1. Its hyperparameters are therefore absent too.
- Floating point is not modelled: there is no float32 cast, rounding or NaN comparison.
  Values are reals and "missing" is `None`. A NaN already present in the input file, which the source would also mask out, is not represented.
- `SaveResults.ScatterLabels`: does not model the int32 width of the output buffer. Labels are unbounded integers, and a label too large for int32 would wrap in the source.
- `Pipeline.ClusterRaster`: on a stack where every cell is nodata, the model writes a grid of -9999, but the program writes nothing.
  There the cleaned table is empty, `StandardScaler().fit_transform` (scripts/classes.py:72) rejects a table with no rows, and the run stops before `save_to_tif`.
  The model's clusterer is only required to return one label per row, so on an empty table it returns no labels.
  The same holds for `Pipeline.SentinelMarksNodataCells` and `Pipeline.ValidCellsReadBackLabels`.
  `Pipeline.LabelLandsOnItsCell` is not affected, because it requires a cell with no nodata band, so the table has a row.
- `SaveResults.Scatter`: requires the label count to equal the number of true mask entries.
  numpy raises an error on a mismatch, and broadcasts a single label to every true position; neither case is modelled.
- The driver's prints and file paths are not modelled; of the driver only the order of the three steps and the printed cluster count are.
- In the reclassification, the nodata value is an integer.
  A raster without a nodata value (a `None` default in `np.select`) and the int16 cast done while writing are left out with the file output.
- The evaluation metrics are not modelled: confusion matrix, classification report, AUC and plots (scripts/method_evaluation.py:37-64).
  They are library float computations.
- The clipping, alignment and stacking scripts are not modelled. They are file and geometry plumbing (reprojection, polygon masking, band copying).
  The data exploration script is not modelled either.
