# NDVI cloud-segmentation data preparation, in Dafny

This project models the data-preparation pipeline of an NDVI cloud-segmentation
repository and proves properties of that model. The pipeline has three parts:

- **The mask remapper** (`preprocess_cm1_masks`). It reads every raw cloud
  mask of a batch. It remaps the raw codes with a fixed table
  (0 clear → 0, 1 thick cloud → 1, 2 thin cloud → 0, 3 shadow → 2).
  It writes the result as `GT_<stem>.tif` with an updated profile, and keeps
  a raw-class and a new-class histogram over the batch. A file whose
  processing raises is skipped.
- **The patch sampler.** `get_file_pairs` pairs each NDVI raster with the
  ground truth named after the second `_` token of its stem.
  `generate_patches` then slides a `size`-pixel window with step `stride`
  over each pair. It keeps a window whose mask holds enough cloud or shadow,
  or more than one class. The kept NDVI window goes through the preprocessor,
  and the result becomes a training record; a window whose preprocessing
  raises is dropped.
- **The NDVI preprocessor** (`CrossSensorNDVIPreprocessor`). Its steps are
  run in this order:
  1. clip to [-1, 1];
  2. augment: a horizontal flip, a vertical flip, a quarter turn, or nothing,
     chosen by a uniform draw;
  3. rescale [-1, 1] onto [0, 1];
  4. replicate into three channels for SAM.

Layout, one module per file:

| file | module | contents |
|---|---|---|
| `wrappers.dfy` | `Wrappers` | `Option`; `None` stands for a Python exception |
| `raster.dfy` | `Raster` | `Matrix<T>`, a 2-D array with an explicit shape; element-wise maps, pixel counts, distinct values, and numpy window slicing (clipped to the array as numpy does) |
| `preprocessor.dfy` | `Preprocessor` | the preprocessor, as pure functions, with the augmentation draw `p` as a parameter |
| `mask_converter.dfy` | `MaskConverter` | the remapper: a specification (`Step`, `Batch`) and the imperative batch loop proved against it |
| `patch_generator.dfy` | `PatchGenerator` | pairing and sampling: specification functions and the imperative loops proved against them |

Details of the imperative parts:

- **Remapper ground truth.** `RemapRaster` fills a zero-initialised
  `array2<int>` by one masked assignment per table entry, in the table's
  order. Each assignment is a call to `RemapPass`, which is built on
  `AssignWhere`.
- **Remapper batch.** `PreprocessCm1Masks` updates the two histogram maps,
  the processed count and the list of written files, file by file. After
  the loop it returns `None` (the batch raises) when the raw total is 0.
- **Sampler.** The nested `for i` / `for j` loops of `generate_patches` are
  split into `RowPatches` (the `j` loop) and `PairPatches` (the `i` loop),
  called from `GeneratePatches` (the loop over pairs). All three append
  records in the order the source does.

## Model

| member | source | states |
|---|---|---|
| MaskConverter.MapPixel | preprocessing/cm1_mask_converter.py:10-15 | raw 0 and 2 become 0, 1 becomes 1, 3 becomes 2; a code outside the table keeps the zero of the freshly allocated ground truth; every output is in 0..2 |
| MaskConverter.AssignWhere | preprocessing/cm1_mask_converter.py:36-38 | `ground_truth[cm1_data == old] = new` sets exactly the pixels equal to `old` and leaves every other pixel as it was; the returned count is the number of pixels equal to `old` (`np.sum(mask)`) |
| MaskConverter.RemapPass | preprocessing/cm1_mask_converter.py:35-38 | one table entry: after the first q+1 entries every pixel whose raw code is below q+1 holds its mapped class and the rest are 0, and the new histogram has been updated by the first q+1 entries |
| MaskConverter.RemapRaster | preprocessing/cm1_mask_converter.py:34-38 | the filled array has the input's shape and equals the cell-wise remapping of the raw mask; the new histogram ends up with class 0 += #0 + #2, class 1 += #1, class 2 += #3 |
| MaskConverter.AllPassesRemap | preprocessing/cm1_mask_converter.py:34-37 | once all four entries are applied, the array is the remapped mask |
| MaskConverter.AfterPassesStep | preprocessing/cm1_mask_converter.py:35-37 | applying entry q changes exactly the pixels with raw code q to the table's value for q; after all entries each pixel is the mapped value |
| MaskConverter.NewTalliedPassesComplete | preprocessing/cm1_mask_converter.py:35-38 | the four per-entry updates, in table order, add up to new[0] += #0 + #2, new[1] += #1, new[2] += #3 |
| MaskConverter.RemapCounts | preprocessing/cm1_mask_converter.py:34-38 | in the written ground truth, class 1 pixels are the raw 1s, class 2 pixels the raw 3s, and class 0 pixels the raw 0s, the raw 2s and every code outside the table |
| MaskConverter.TallyRaw | preprocessing/cm1_mask_converter.py:29-32 | the `np.unique` loop adds to each histogram key the number of pixels equal to it and ignores every other value |
| MaskConverter.OutputNameInverse | preprocessing/cm1_mask_converter.py:40 | the output name is 7 characters longer than the stem, and the stem sits at positions 3.. of it |
| MaskConverter.OutputNameInjective | preprocessing/cm1_mask_converter.py:40 | two different stems never write the same output file |
| MaskConverter.OutputProfile | preprocessing/cm1_mask_converter.py:43-47 | the written profile has dtype `uint8`, count 1 and compress `lzw`; every other key of the input profile is unchanged and no other key is added |
| MaskConverter.Output | preprocessing/cm1_mask_converter.py:40-50 | the file written for a read mask is named `GT_` + stem + `.tif` (7 characters longer, the stem at positions 3..); its raster has the raw raster's height and width and each pixel is the table mapping of the raw pixel; its profile has the raw profile's keys plus dtype, count and compress, set to `uint8`, 1 and `lzw`, and every other key keeps its value |
| MaskConverter.Step | preprocessing/cm1_mask_converter.py:23-57 | one file: a failed read leaves all counters and outputs unchanged; otherwise the new histogram grows by exactly as many pixels as the raw one (also when the write fails), and only a successful write appends its output and increments the processed count |
| MaskConverter.Batch | preprocessing/cm1_mask_converter.py:19-57 | the state after a batch keeps raw keys 0..3, new keys 0..2 and a processed count equal to the number of files written |
| MaskConverter.BatchConservation | preprocessing/cm1_mask_converter.py:29-38 | after any batch, sum(new histogram) == sum(raw histogram), whatever files failed |
| MaskConverter.BatchHistograms | preprocessing/cm1_mask_converter.py:29-38 | after a batch, raw[v] is the number of pixels equal to v over all readable files; new[0] = #0 + #2, new[1] = #1, new[2] = #3 over the same files |
| MaskConverter.BatchRawHistogram | preprocessing/cm1_mask_converter.py:29-32 | the raw half of BatchHistograms |
| MaskConverter.BatchNewHistogram | preprocessing/cm1_mask_converter.py:35-38 | the new-class half of BatchHistograms |
| MaskConverter.Successes | preprocessing/cm1_mask_converter.py:49-52 | the files that count as processed are exactly the files of the batch that were read and written: every listed file was read and written, every read-and-written file is listed, and there are no more of them than files |
| MaskConverter.BatchOutputs | preprocessing/cm1_mask_converter.py:40-52 | the processed count is the number of files read and written, and the written outputs are, in batch order, the outputs of exactly those files |
| MaskConverter.PreprocessCm1Masks | preprocessing/cm1_mask_converter.py:5-71 | the loop writes the files of the batch specification; it then raises (`None`) exactly when the raw histogram sums to zero, the divisor of the first percentage, and otherwise returns the new-class histogram of the specification (keys 0..2); with BatchHistograms, BatchConservation and BatchOutputs this gives the counts, the conservation law and the outputs |
| MaskConverter.UnreadableBatch | preprocessing/cm1_mask_converter.py:19-62 | a batch none of whose files can be read writes nothing and leaves every counter at zero, so the raw total is 0 and the printout divides by zero |
| PatchGenerator.Split | preprocessing/patch_generator.py:14 | `str.split(sep)` yields at least one piece and no piece holds the separator |
| PatchGenerator.SplitJoin | preprocessing/patch_generator.py:14 | joining the pieces with the separator gives the stem back |
| PatchGenerator.SplitCount | preprocessing/patch_generator.py:14 | there is more than one piece exactly when the string holds the separator |
| PatchGenerator.PairingIdDefined | preprocessing/patch_generator.py:14 | `split('_')[1]` exists exactly when the stem holds an underscore |
| PatchGenerator.PairingIdOf | preprocessing/patch_generator.py:14 | a stem `<prefix>_<id>` or `<prefix>_<id>_<rest>` with `_`-free prefix and id pairs on `id` |
| PatchGenerator.SplitPrefix | preprocessing/patch_generator.py:14 | the first piece of `prefix + sep + rest` is `prefix` when the prefix holds no separator |
| PatchGenerator.SplitFirst | preprocessing/patch_generator.py:14 | the first piece of `token + suffix` is `token` when the suffix starts with the separator |
| PatchGenerator.FilePairsFail | preprocessing/patch_generator.py:13-15 | pairing raises exactly when some NDVI stem holds no underscore |
| PatchGenerator.Matched | preprocessing/patch_generator.py:16-17 | the indices of the stems whose ground truth exists, strictly increasing, each index present iff that stem's ground truth exists |
| PatchGenerator.FilePairsMatched | preprocessing/patch_generator.py:13-17 | the pairs are exactly the stems whose `GT_CM1_<id>.tif` exists, in listing order, each with that name |
| PatchGenerator.MatchedPrefix | preprocessing/patch_generator.py:13 | the matches among the first n stems depend only on those n stems |
| PatchGenerator.NoRepeatedPairs | preprocessing/patch_generator.py:10-17 | a listing without repeated files yields no NDVI stem twice |
| PatchGenerator.FilePairsNonePropagates | preprocessing/patch_generator.py:13-14 | once a stem raises, the whole pairing raises |
| PatchGenerator.GetFilePairs | preprocessing/patch_generator.py:6-19 | the appending loop returns the pairing of the specification, and `None` as soon as a stem has no underscore |
| PatchGenerator.RangeFromAt | preprocessing/patch_generator.py:38-39 | the k-th element of the range is start + k*step |
| PatchGenerator.RangeFromLength | preprocessing/patch_generator.py:38-39 | the range has (stop - start - 1) / step + 1 elements, and none when stop <= start |
| PatchGenerator.RangeFromBelow | preprocessing/patch_generator.py:38-39 | every element of the range lies in [start, stop) |
| PatchGenerator.OffsetsShape | preprocessing/patch_generator.py:37-40 | for axis length n, window size and stride, there are (n-size)/stride + 1 offsets when n >= size and none otherwise; the k-th is k*stride, and every window fits inside the axis |
| PatchGenerator.OffsetsMembership | preprocessing/patch_generator.py:37-40 | x is an offset iff x >= 0, x is a multiple of the stride and x + size <= n |
| PatchGenerator.OffsetsIncreasing | preprocessing/patch_generator.py:38-39 | offsets are strictly increasing |
| PatchGenerator.KeepThresholds | preprocessing/patch_generator.py:48 | when size >= 100, so that 100 pixels are at most 1% of the window, 100 cloud (or shadow) pixels in a one-class window are dropped and 101 are kept |
| PatchGenerator.FullWindowDropped | preprocessing/patch_generator.py:43-48 | a full size x size window is dropped iff all of its pixels hold one value that is neither cloud (1) nor shadow (2) |
| PatchGenerator.AllClearDiscarded | preprocessing/patch_generator.py:43-48 | a window whose mask is all 0 is always discarded |
| PatchGenerator.MixedKept | preprocessing/patch_generator.py:48 | a window whose mask holds two different values is always kept |
| PatchGenerator.Candidate | preprocessing/patch_generator.py:40-60 | a window yields a record iff the keep policy holds on its mask window and the preprocessor does not raise; the record holds the SAM input, the mask window at the same (i, j), the NDVI stem, (i, j), and the 1- and 2-counts used by the test |
| PatchGenerator.RecordShape | preprocessing/patch_generator.py:50-52 | with `preprocess_single_image_array` (augmentation on) as the preprocessor, a record's SAM input has three size x size channels, every value in [0, 1] |
| PatchGenerator.FilterMapAppend | preprocessing/patch_generator.py:49-60 | the records of two runs of windows are the records of the first run followed by those of the second |
| PatchGenerator.FilterMapMembers | preprocessing/patch_generator.py:49-60 | a record is listed iff some window of the run produces it |
| PatchGenerator.RowWindows | preprocessing/patch_generator.py:39 | the windows of row i are (i, j) for each column offset j, left to right |
| PatchGenerator.WindowsFrom | preprocessing/patch_generator.py:38-39 | each window pairs a row offset with a column offset |
| PatchGenerator.WindowsOrdered | preprocessing/patch_generator.py:38-39 | with increasing offsets, windows come in strictly increasing (row, column) order |
| PatchGenerator.WindowsCover | preprocessing/patch_generator.py:38-39 | every combination of a row offset and a column offset is visited |
| PatchGenerator.CollectOrdered | preprocessing/patch_generator.py:38-58 | records of windows visited in increasing order come in increasing order of their coordinates |
| PatchGenerator.LabelledOrdered | preprocessing/patch_generator.py:38-58 | the same for any sampler that labels a record with its window |
| PatchGenerator.PairRecordsOrdered | preprocessing/patch_generator.py:38-58 | within one pair, records come with row offset ascending, then column offset ascending |
| PatchGenerator.PairRecordsSound | preprocessing/patch_generator.py:37-58 | every record of a pair comes from a window lying fully inside the NDVI raster, and is the outcome of that window |
| PatchGenerator.PairRecordsComplete | preprocessing/patch_generator.py:37-58 | every grid window that is kept and preprocessed without raising contributes its record |
| PatchGenerator.RowPatches | preprocessing/patch_generator.py:39-60 | the `j` loop (crop both windows, count 1s and 2s, apply the keep test, preprocess a kept window and skip it when that raises) extends the records gathered so far with the row's outcomes, left to right |
| PatchGenerator.PairPatches | preprocessing/patch_generator.py:37-60 | the two offset loops of one pair produce exactly that pair's records |
| PatchGenerator.GeneratePatches | preprocessing/patch_generator.py:27-62 | the training data is the records of every pair, pair by pair, in the specification's order |
| Preprocessor.FlipLeftRight | preprocessing/preprocessor_module.py:13-14 | shape (H, W) is kept and out[r][c] = in[r][W-1-c] |
| Preprocessor.FlipUpDown | preprocessing/preprocessor_module.py:15-16 | shape (H, W) is kept and out[r][c] = in[H-1-r][c] |
| Preprocessor.Rotate90 | preprocessing/preprocessor_module.py:17-18 | shape becomes (W, H) and out[r][c] = in[c][W-1-r] |
| Preprocessor.FlipLeftRightInvolution | preprocessing/preprocessor_module.py:13-14 | flipping left-right twice gives the patch back |
| Preprocessor.FlipUpDownInvolution | preprocessing/preprocessor_module.py:15-16 | flipping up-down twice gives the patch back |
| Preprocessor.Rotate90Twice | preprocessing/preprocessor_module.py:17-18 | two quarter turns equal both flips composed |
| Preprocessor.Rotate90FourTimes | preprocessing/preprocessor_module.py:17-18 | four quarter turns give the patch back |
| Preprocessor.Augment | preprocessing/preprocessor_module.py:10-19 | disabled: unchanged; otherwise p < 0.25 flips left-right, p < 0.5 flips up-down, p < 0.75 turns a quarter, and any other draw leaves the patch unchanged; each with its shape and index formula |
| Preprocessor.Clip | preprocessing/preprocessor_module.py:6 | `np.clip` on one value: the result lies in [lo, hi], equals x inside and the nearer bound outside |
| Preprocessor.NormalizeValue | preprocessing/preprocessor_module.py:21-25 | the result lies in [0, 1]; it equals (x + 1) / 2 on [-1, 1] (so -1 → 0, 0 → 1/2, 1 → 1), 0 below -1 and 1 above 1 |
| Preprocessor.NormalizeMonotone | preprocessing/preprocessor_module.py:21-25 | normalisation never reorders values |
| Preprocessor.ToSam | preprocessing/preprocessor_module.py:27-29 | three channels, each equal to the input, shape (3, H, W) |
| Preprocessor.PreprocessSingleImageArray | preprocessing/preprocessor_module.py:31-42 | every returned stage is a well-shaped array: the cleaned, augmented and normalized arrays, and each of the three SAM channels |
| Preprocessor.AugmentCommutes | preprocessing/preprocessor_module.py:10-19 | the augmentation only moves pixels, so any element-wise step commutes with it |
| Preprocessor.PipelineSemantics | preprocessing/preprocessor_module.py:31-42 | the cleaned stage has the input's shape with each pixel clip(x, -1, 1), so in [-1, 1]; the augmented stage is the augmentation of the cleaned one; the normalized stage has its shape and normalises it pixel by pixel; it equals the augmentation of normalise(clean(x)) over the input pixels, every value in [0, 1]; the SAM input holds three copies of it |
| Preprocessor.PipelineWithoutAugmentation | preprocessing/preprocessor_module.py:31-42 | without augmentation each channel keeps the input's shape and each pixel x becomes (clip(x, -1, 1) + 1) / 2 |
| Raster.MapCells | preprocessing/preprocessor_module.py:6 | an element-wise operation keeps the shape and applies the function at every index |
| Raster.Values | preprocessing/patch_generator.py:48 | `np.unique(mask_patch)`: the set holds every pixel value and nothing else |
| Raster.SliceLength | preprocessing/patch_generator.py:40-41 | a numpy slice start:start+size on an axis of length n has length size when it fits, n - start when it runs past the end, and 0 when start >= n |
| Raster.Crop | preprocessing/patch_generator.py:40-41 | the window at (r0, c0) has the clipped shape and its pixel (r, c) is the array's pixel (r0 + r, c0 + c) |
| Raster.CountAbsent | preprocessing/patch_generator.py:43-44 | a raster holding no pixel equal to v counts zero of it |
| Raster.CountAll | preprocessing/patch_generator.py:43-45 | a raster all of whose pixels equal v counts height * width of it |
| Raster.SameMatrix | preprocessing/preprocessor_module.py:13-18 | arrays of equal shape and equal pixels are equal |

## Left out

- File I/O: rasterio reads and writes, `Path.glob`, `mkdir` and `exists`
  are not modelled. A mask file is given in memory as its stem, what reading
  it yields (`None` when reading raises) and a flag telling whether writing
  its output succeeds. A ground-truth folder is given as the set of its file
  names. An NDVI/ground-truth pair is given as two rasters.
- Any failure while remapping a read file, other than the write, is not
  modelled. The remapping itself cannot raise on an in-memory integer raster.
- The sort of the NDVI listing (`preprocessing/patch_generator.py:10`) is not
  modelled: the listing is given already sorted.
- Progress and distribution printing is left out
  (`preprocessing/cm1_mask_converter.py:53-54`, `59-69`). Only its one
  failure is kept: the raw total is a divisor at line 62, so the batch
  raises after writing every output when that total is 0. This happens when
  no file could be read, when every read raster is empty, or when every
  pixel holds a code outside 0..3.
- `create_train_val_split` is not modelled
  (`preprocessing/patch_generator.py:21-25`): it only calls scikit-learn's
  shuffling split.
- `np.random.rand()` is not modelled. The augmentation draw `p` is a
  parameter.
- GeneratePatches: the sampler's preprocessor is a function parameter
  (`None` = raised). Calling it twice on one patch therefore gives one
  answer, while successive calls of the real preprocessor draw fresh
  augmentations. `RecordShape` states what holds for every draw.
- NaN replacement and the `float32` cast in the preprocessor are not
  modelled (`preprocessing/preprocessor_module.py:7`, `28`). Clipping and
  normalisation are stated over `real`, not IEEE floats.
- The 1% test `meaningful > total_pixels * 0.01` is idealised as the integer
  test `100 * meaningful > size * size`.
- The `uint8` casts of the ground truth and of the stored mask window are not
  modelled: pixel values are unbounded integers. The remapper only produces
  0..2, so the cast does not change them.
- GeneratePatches: requires `stride > 0`. Neither other case is modelled:
  - `range` with step 0 raises.
  - With a negative stride, `range(0, h - size + 1, stride)` is empty
    whenever h >= size - 1, so such a pair yields no windows. Only when
    h < size - 1 does it give 0, stride, 2 * stride, …, and numpy then
    reads those negative offsets from the far end of the raster.
- GeneratePatches: the patch size is a `nat`, so a negative patch size is
  excluded. Python would accept one: the offset range grows, and the slice
  `i:i+size` then has a negative stop, which numpy counts from the far end.
- The rasters' own dtypes and the profile's other metadata values
  (transform, CRS) are opaque: a profile value is text, a number or an
  opaque tag.
- The unused `skimage.exposure` import is left out.
