/**
 * The per-patch NDVI preprocessor (CrossSensorNDVIPreprocessor): clean,
 * augment, normalise and replicate into three channels. Values are
 * idealised as reals; the augmentation draw `p` is a parameter.
 */
module Preprocessor {
  import opened Raster

  /** `np.fliplr`: mirror every row. */
  function FlipLeftRight<T>(m: Matrix<T>): (f: Matrix<T>)
    requires m.Valid()
    ensures f.Valid() && f.height == m.height && f.width == m.width
    ensures forall r, c :: 0 <= r < f.height && 0 <= c < f.width ==> f.cells[r][c] == m.cells[r][m.width - 1 - c]
  {
    Matrix(m.height, m.width,
      seq(m.height, r requires 0 <= r < m.height =>
        seq(m.width, c requires 0 <= c < m.width => m.cells[r][m.width - 1 - c])))
  }

  /** `np.flipud`: reverse the order of the rows. */
  function FlipUpDown<T>(m: Matrix<T>): (f: Matrix<T>)
    requires m.Valid()
    ensures f.Valid() && f.height == m.height && f.width == m.width
    ensures forall r, c :: 0 <= r < f.height && 0 <= c < f.width ==> f.cells[r][c] == m.cells[m.height - 1 - r][c]
  {
    Matrix(m.height, m.width,
      seq(m.height, r requires 0 <= r < m.height =>
        seq(m.width, c requires 0 <= c < m.width => m.cells[m.height - 1 - r][c])))
  }

  /** `np.rot90(m)` (k = 1): a quarter turn counter-clockwise, shape (w, h). */
  function Rotate90<T>(m: Matrix<T>): (q: Matrix<T>)
    requires m.Valid()
    ensures q.Valid() && q.height == m.width && q.width == m.height
    ensures forall r, c :: 0 <= r < q.height && 0 <= c < q.width ==> q.cells[r][c] == m.cells[c][m.width - 1 - r]
  {
    Matrix(m.width, m.height,
      seq(m.width, r requires 0 <= r < m.width =>
        seq(m.height, c requires 0 <= c < m.height => m.cells[c][m.width - 1 - r])))
  }

  /** Mirroring the columns twice gives the patch back. */
  lemma FlipLeftRightInvolution<T>(m: Matrix<T>)
    requires m.Valid()
    ensures FlipLeftRight(FlipLeftRight(m)) == m
  {
    SameMatrix(FlipLeftRight(FlipLeftRight(m)), m);
  }

  /** Mirroring the rows twice gives the patch back. */
  lemma FlipUpDownInvolution<T>(m: Matrix<T>)
    requires m.Valid()
    ensures FlipUpDown(FlipUpDown(m)) == m
  {
    SameMatrix(FlipUpDown(FlipUpDown(m)), m);
  }

  /** Two quarter turns are a half turn: both flips composed. */
  lemma Rotate90Twice<T>(m: Matrix<T>)
    requires m.Valid()
    ensures Rotate90(Rotate90(m)) == FlipUpDown(FlipLeftRight(m))
  {
    SameMatrix(Rotate90(Rotate90(m)), FlipUpDown(FlipLeftRight(m)));
  }

  /** Four quarter turns give the patch back. */
  lemma Rotate90FourTimes<T>(m: Matrix<T>)
    requires m.Valid()
    ensures Rotate90(Rotate90(Rotate90(Rotate90(m)))) == m
  {
    var half := Rotate90(Rotate90(m));
    Rotate90Twice(m);
    Rotate90Twice(half);
    SameMatrix(FlipUpDown(FlipLeftRight(half)), m);
  }

  /** The augmentation with draw `p` from [0, 1): exactly one of a
      horizontal flip, a vertical flip, a quarter turn or nothing, each on a
      quarter of the draws; with augmentation disabled the patch is unchanged. */
  function Augment<T>(m: Matrix<T>, enabled: bool, p: real): (a: Matrix<T>)
    requires m.Valid()
    ensures a.Valid()
    ensures !enabled ==> a == m
    ensures enabled && p < 0.25 ==>
      a.height == m.height && a.width == m.width &&
      forall r, c :: 0 <= r < a.height && 0 <= c < a.width ==> a.cells[r][c] == m.cells[r][m.width - 1 - c]
    ensures enabled && 0.25 <= p < 0.5 ==>
      a.height == m.height && a.width == m.width &&
      forall r, c :: 0 <= r < a.height && 0 <= c < a.width ==> a.cells[r][c] == m.cells[m.height - 1 - r][c]
    ensures enabled && 0.5 <= p < 0.75 ==>
      a.height == m.width && a.width == m.height &&
      forall r, c :: 0 <= r < a.height && 0 <= c < a.width ==> a.cells[r][c] == m.cells[c][m.width - 1 - r]
    ensures enabled && 0.75 <= p ==> a == m
  {
    if !enabled then m
    else if p < 0.25 then FlipLeftRight(m)
    else if p < 0.5 then FlipUpDown(m)
    else if p < 0.75 then Rotate90(m)
    else m
  }

  /** `np.clip(x, lo, hi)` on one value. */
  function Clip(x: real, lo: real, hi: real): (y: real)
    requires lo <= hi
    ensures lo <= y <= hi
    ensures lo <= x <= hi ==> y == x
    ensures x < lo ==> y == lo
    ensures hi < x ==> y == hi
  {
    if x < lo then lo else if hi < x then hi else x
  }

  /** The cleaning step on one value: clip to the NDVI range [-1, 1]. */
  function CleanValue(x: real): real
  {
    Clip(x, -1.0, 1.0)
  }

  /** The normalisation on one value: rescale the fixed domain [-1, 1]
      onto [0, 1], then clip to [0, 1]. */
  function NormalizeValue(x: real): (y: real)
    ensures 0.0 <= y <= 1.0
    ensures -1.0 <= x <= 1.0 ==> y == (x + 1.0) / 2.0
    ensures x < -1.0 ==> y == 0.0
    ensures 1.0 < x ==> y == 1.0
  {
    var lo, hi := -1.0, 1.0;
    Clip((x - lo) / (hi - lo), 0.0, 1.0)
  }

  /** Normalisation never reorders values. */
  lemma NormalizeMonotone(x: real, y: real)
    requires x <= y
    ensures NormalizeValue(x) <= NormalizeValue(y)
  {
  }

  /** `clean_invalid_values` over reals (not-a-number is not modelled). */
  function Clean(m: Matrix<real>): Matrix<real>
    requires m.Valid()
  {
    MapCells(m, CleanValue)
  }

  /** `normalize_for_cross_sensor`. */
  function Normalize(m: Matrix<real>): Matrix<real>
    requires m.Valid()
  {
    MapCells(m, NormalizeValue)
  }

  /** `convert_to_sam_format`: three channels, channel axis first, each the
      input itself, so the shape is (3, h, w). */
  function ToSam(m: Matrix<real>): (s: seq<Matrix<real>>)
    ensures |s| == 3
    ensures forall k :: 0 <= k < |s| ==> s[k] == m
  {
    [m, m, m]
  }

  /** What `preprocess_single_image_array` returns: every intermediate stage. */
  datatype Stages = Stages(cleaned: Matrix<real>, augmented: Matrix<real>,
                           normalized: Matrix<real>, samInput: seq<Matrix<real>>)

  /** clean, then augment, then normalise, then convert; each stage is fed
      the previous one's output. */
  function PreprocessSingleImageArray(m: Matrix<real>, augment: bool, p: real): (s: Stages)
    requires m.Valid()
    ensures s.cleaned.Valid() && s.augmented.Valid() && s.normalized.Valid()
    ensures |s.samInput| == 3 && forall k :: 0 <= k < 3 ==> s.samInput[k].Valid()
  {
    var cleaned := Clean(m);
    var augmented := Augment(cleaned, augment, p);
    var normalized := Normalize(augmented);
    Stages(cleaned, augmented, normalized, ToSam(normalized))
  }

  /** An element-wise step commutes with the augmentation: the
      augmentation only moves pixels, it never changes their values. */
  lemma AugmentCommutes<T, U>(m: Matrix<T>, f: T -> U, enabled: bool, p: real)
    requires m.Valid()
    ensures Augment(MapCells(m, f), enabled, p) == MapCells(Augment(m, enabled, p), f)
  {
    var a := Augment(MapCells(m, f), enabled, p);
    var b := MapCells(Augment(m, enabled, p), f);
    SameMatrix(a, b);
  }

  /** The whole pipeline: the SAM input holds three identical channels, each
      the augmented patch of `NormalizeValue(CleanValue(x))` over the input
      pixels x; every value lies in [0, 1]. */
  lemma PipelineSemantics(m: Matrix<real>, augment: bool, p: real)
    requires m.Valid()
    ensures var s := PreprocessSingleImageArray(m, augment, p);
      && |s.samInput| == 3
      && (forall k :: 0 <= k < 3 ==> s.samInput[k] == s.normalized)
      && s.cleaned.height == m.height && s.cleaned.width == m.width
      && (forall r, c :: 0 <= r < m.height && 0 <= c < m.width ==>
            s.cleaned.cells[r][c] == Clip(m.cells[r][c], -1.0, 1.0) && -1.0 <= s.cleaned.cells[r][c] <= 1.0)
      && s.augmented == Augment(s.cleaned, augment, p)
      && s.normalized.height == s.augmented.height && s.normalized.width == s.augmented.width
      && (forall r, c :: 0 <= r < s.normalized.height && 0 <= c < s.normalized.width ==>
            s.normalized.cells[r][c] == NormalizeValue(s.augmented.cells[r][c]))
      && s.normalized == Augment(MapCells(m, x => NormalizeValue(CleanValue(x))), augment, p)
      && forall r, c :: 0 <= r < s.normalized.height && 0 <= c < s.normalized.width ==>
           0.0 <= s.normalized.cells[r][c] <= 1.0
  {
    var s := PreprocessSingleImageArray(m, augment, p);
    var g := x => NormalizeValue(CleanValue(x));
    AugmentCommutes(m, CleanValue, augment, p);
    AugmentCommutes(m, g, augment, p);
    AugmentCommutes(Augment(m, augment, p), NormalizeValue, false, p);
    SameMatrix(Normalize(MapCells(Augment(m, augment, p), CleanValue)),
               MapCells(Augment(m, augment, p), g));
  }

  /** Without augmentation each pixel becomes (clip(x, -1, 1) + 1) / 2 in
      place, in each of the three channels. */
  lemma PipelineWithoutAugmentation(m: Matrix<real>, p: real)
    requires m.Valid()
    ensures var s := PreprocessSingleImageArray(m, false, p);
      && |s.samInput| == 3
      && forall k, r, c :: 0 <= k < 3 && 0 <= r < m.height && 0 <= c < m.width ==>
           s.samInput[k].height == m.height && s.samInput[k].width == m.width &&
           s.samInput[k].cells[r][c] == (Clip(m.cells[r][c], -1.0, 1.0) + 1.0) / 2.0
  {
  }
}
