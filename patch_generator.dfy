/**
 * The patch sampler: pairing NDVI rasters with their ground truth by file
 * name (`get_file_pairs`) and cutting paired rasters into training patches
 * (`generate_patches`). Rasters are given in memory; the preprocessor is a
 * function parameter whose `None` stands for a preprocessing exception.
 */
module PatchGenerator {
  import opened Wrappers
  import opened Raster
  import Preprocessor

  // ---------------------------------------------------------------------
  // File pairing
  // ---------------------------------------------------------------------

  /** `s.split(sep)`: the pieces between occurrences of `sep`; there is
      always at least one piece. */
  function Split(s: string, sep: char): (pieces: seq<string>)
    ensures |pieces| >= 1
    ensures forall k :: 0 <= k < |pieces| ==> sep !in pieces[k]
  {
    if s == [] then [""]
    else
      var rest := Split(s[1..], sep);
      if s[0] == sep then [""] + rest
      else [[s[0]] + rest[0]] + rest[1..]
  }

  /** `sep.join(pieces)`. */
  function Join(pieces: seq<string>, sep: char): string
    requires |pieces| >= 1
  {
    if |pieces| == 1 then pieces[0] else pieces[0] + [sep] + Join(pieces[1..], sep)
  }

  /** Splitting loses nothing: joining the pieces gives the string back. */
  lemma {:induction false} SplitJoin(s: string, sep: char)
    ensures Join(Split(s, sep), sep) == s
  {
    if s != [] {
      SplitJoin(s[1..], sep);
      var rest := Split(s[1..], sep);
      if s[0] != sep && |rest| > 1 {
        assert ([s[0]] + rest[0]) + [sep] + Join(rest[1..], sep) == [s[0]] + (rest[0] + [sep] + Join(rest[1..], sep));
      }
    }
  }

  /** A string splits into more than one piece exactly when it holds `sep`. */
  lemma {:induction false} SplitCount(s: string, sep: char)
    ensures |Split(s, sep)| > 1 <==> sep in s
  {
    if s != [] {
      SplitCount(s[1..], sep);
      assert sep in s <==> s[0] == sep || sep in s[1..];
    }
  }

  /** `stem.split('_')[1]`; `None` when the index raises (no `_` in the stem). */
  function PairingId(stem: string): Option<string>
  {
    var tokens := Split(stem, '_');
    if |tokens| < 2 then None else Some(tokens[1])
  }

  /** The id exists exactly when the stem holds an underscore. */
  lemma PairingIdDefined(stem: string)
    ensures PairingId(stem).Some? <==> '_' in stem
  {
    SplitCount(stem, '_');
  }

  lemma {:induction false} SplitPrefix(prefix: string, rest: string, sep: char)
    requires sep !in prefix
    ensures Split(prefix + [sep] + rest, sep) == [prefix] + Split(rest, sep)
  {
    if prefix == [] {
      assert prefix + [sep] + rest == [sep] + rest;
    } else {
      var s := prefix + [sep] + rest;
      assert s[0] == prefix[0] && s[1..] == prefix[1..] + [sep] + rest;
      SplitPrefix(prefix[1..], rest, sep);
      assert [prefix[0]] + prefix[1..] == prefix;
    }
  }

  lemma {:induction false} SplitFirst(token: string, suffix: string, sep: char)
    requires sep !in token
    requires suffix == [] || suffix[0] == sep
    ensures Split(token + suffix, sep)[0] == token
  {
    if token == [] {
      if suffix != [] {
        assert Split(suffix, sep) == [""] + Split(suffix[1..], sep);
      }
    } else {
      assert (token + suffix)[1..] == token[1..] + suffix;
      SplitFirst(token[1..], suffix, sep);
    }
  }

  /** A stem of the form `<prefix>_<id>` or `<prefix>_<id>_<anything>` pairs
      on `id`. */
  lemma PairingIdOf(prefix: string, id: string, suffix: string)
    requires '_' !in prefix && '_' !in id
    requires suffix == [] || suffix[0] == '_'
    ensures PairingId(prefix + "_" + id + suffix) == Some(id)
  {
    assert prefix + "_" + id + suffix == prefix + ['_'] + (id + suffix);
    SplitPrefix(prefix, id + suffix, '_');
    SplitFirst(id, suffix, '_');
  }

  /** The ground-truth file name looked up for an id. */
  function GtName(id: string): string
  {
    "GT_CM1_" + id + ".tif"
  }

  /** A pair of an NDVI raster (by stem) and its ground-truth file name. */
  datatype FilePair = FilePair(ndviStem: string, gtName: string)

  /** Whether an NDVI stem has its ground truth among `gtNames`. */
  predicate HasGroundTruth(stem: string, gtNames: set<string>)
  {
    PairingId(stem).Some? && GtName(PairingId(stem).value) in gtNames
  }

  /** The pairs of a sorted NDVI listing, in listing order; `None` when a
      stem without `_` makes the id extraction raise. */
  function FilePairs(ndviStems: seq<string>, gtNames: set<string>): Option<seq<FilePair>>
  {
    if ndviStems == [] then Some([])
    else
      var stem := ndviStems[|ndviStems| - 1];
      match FilePairs(ndviStems[..|ndviStems| - 1], gtNames)
      case None => None
      case Some(pairs) =>
        match PairingId(stem)
        case None => None
        case Some(id) =>
          if GtName(id) in gtNames then Some(pairs + [FilePair(stem, GtName(id))]) else Some(pairs)
  }

  /** Every stem of the listing holds an underscore. */
  ghost predicate AllSeparated(ndviStems: seq<string>)
  {
    forall k :: 0 <= k < |ndviStems| ==> '_' in ndviStems[k]
  }

  /** Pairing fails exactly when some stem holds no underscore. */
  lemma {:induction false} FilePairsFail(ndviStems: seq<string>, gtNames: set<string>)
    ensures FilePairs(ndviStems, gtNames).None? <==> !AllSeparated(ndviStems)
  {
    if ndviStems != [] {
      var n := |ndviStems|;
      var init := ndviStems[..n - 1];
      FilePairsFail(init, gtNames);
      PairingIdDefined(ndviStems[n - 1]);
      assert forall k :: 0 <= k < n - 1 ==> init[k] == ndviStems[k];
      assert AllSeparated(ndviStems) <==> AllSeparated(init) && '_' in ndviStems[n - 1];
    }
  }

  /** Indices, below `n`, of the stems whose ground truth exists. */
  function Matched(ndviStems: seq<string>, gtNames: set<string>, n: nat): (idx: seq<nat>)
    requires n <= |ndviStems|
    ensures forall a :: 0 <= a < |idx| ==> idx[a] < n
    ensures forall a, b :: 0 <= a < b < |idx| ==> idx[a] < idx[b]
    ensures forall k :: 0 <= k < n ==> (k in idx <==> HasGroundTruth(ndviStems[k], gtNames))
  {
    if n == 0 then []
    else Matched(ndviStems, gtNames, n - 1) + (if HasGroundTruth(ndviStems[n - 1], gtNames) then [n - 1] else [])
  }

  /** A pair built from `stem`: the stem itself and the name of its existing
      ground truth. */
  predicate PairOf(p: FilePair, stem: string, gtNames: set<string>)
  {
    && p.ndviStem == stem
    && PairingId(stem).Some?
    && p.gtName == GtName(PairingId(stem).value)
    && p.gtName in gtNames
  }

  /** The pairs are exactly the stems with an existing ground truth, each
      with that ground truth's name, in listing order. */
  lemma {:induction false} FilePairsMatched(ndviStems: seq<string>, gtNames: set<string>)
    requires FilePairs(ndviStems, gtNames).Some?
    ensures var pairs := FilePairs(ndviStems, gtNames).value;
      var idx := Matched(ndviStems, gtNames, |ndviStems|);
      && |pairs| == |idx|
      && forall a :: 0 <= a < |pairs| ==> PairOf(pairs[a], ndviStems[idx[a]], gtNames)
  {
    if ndviStems != [] {
      var n := |ndviStems|;
      var init := ndviStems[..n - 1];
      var stem := ndviStems[n - 1];
      assert FilePairs(init, gtNames).Some? && PairingId(stem).Some?;
      FilePairsMatched(init, gtNames);
      MatchedPrefix(ndviStems, gtNames, n - 1);
      var before := FilePairs(init, gtNames).value;
      var idxBefore := Matched(init, gtNames, n - 1);
      var pairs := FilePairs(ndviStems, gtNames).value;
      var idx := Matched(ndviStems, gtNames, n);
      var extra := HasGroundTruth(stem, gtNames);
      if extra {
        assert pairs == before + [FilePair(stem, GtName(PairingId(stem).value))];
        assert idx == idxBefore + [n - 1];
      } else {
        assert pairs == before;
        assert idx == idxBefore;
      }
      PairsExtend(ndviStems, gtNames, before, idxBefore, pairs, idx, extra);
    }
  }

  /** The induction step of `FilePairsMatched`, on the sequences alone. */
  lemma PairsExtend(stems: seq<string>, gtNames: set<string>, before: seq<FilePair>, idxBefore: seq<nat>,
                    pairs: seq<FilePair>, idx: seq<nat>, extra: bool)
    requires stems != [] && |before| == |idxBefore|
    requires forall a :: 0 <= a < |idxBefore| ==> idxBefore[a] < |stems| - 1
    requires forall a :: 0 <= a < |before| ==> PairOf(before[a], stems[..|stems| - 1][idxBefore[a]], gtNames)
    requires extra ==> HasGroundTruth(stems[|stems| - 1], gtNames)
    requires extra ==> pairs == before + [FilePair(stems[|stems| - 1], GtName(PairingId(stems[|stems| - 1]).value))]
    requires extra ==> idx == idxBefore + [|stems| - 1]
    requires !extra ==> pairs == before && idx == idxBefore
    ensures |pairs| == |idx|
    ensures forall a :: 0 <= a < |pairs| ==> PairOf(pairs[a], stems[idx[a]], gtNames)
  {
    forall a | 0 <= a < |pairs|
      ensures PairOf(pairs[a], stems[idx[a]], gtNames)
    {
      if a < |before| {
        var k := idxBefore[a];
        assert pairs[a] == before[a] && idx[a] == k;
        assert stems[..|stems| - 1][k] == stems[k];
      }
    }
  }

  lemma {:induction false} MatchedPrefix(ndviStems: seq<string>, gtNames: set<string>, n: nat)
    requires n <= |ndviStems|
    ensures Matched(ndviStems[..n], gtNames, n) == Matched(ndviStems, gtNames, n)
  {
    if n > 0 {
      MatchedPrefix(ndviStems, gtNames, n - 1);
      assert ndviStems[..n][..n - 1] == ndviStems[..n - 1];
      MatchedPrefixShift(ndviStems[..n], ndviStems, gtNames, n - 1);
    }
  }

  lemma {:induction false} MatchedPrefixShift(s: seq<string>, t: seq<string>, gtNames: set<string>, n: nat)
    requires n <= |s| && n <= |t| && s[..n] == t[..n]
    ensures Matched(s, gtNames, n) == Matched(t, gtNames, n)
  {
    if n > 0 {
      assert s[..n - 1] == t[..n - 1];
      assert s[n - 1] == s[..n][n - 1];
      MatchedPrefixShift(s, t, gtNames, n - 1);
    }
  }

  /** A listing without repeated files yields no NDVI file twice. */
  lemma NoRepeatedPairs(ndviStems: seq<string>, gtNames: set<string>)
    requires FilePairs(ndviStems, gtNames).Some?
    requires forall i, j :: 0 <= i < j < |ndviStems| ==> ndviStems[i] != ndviStems[j]
    ensures var pairs := FilePairs(ndviStems, gtNames).value;
      forall a, b :: 0 <= a < b < |pairs| ==> pairs[a].ndviStem != pairs[b].ndviStem
  {
    FilePairsMatched(ndviStems, gtNames);
  }

  lemma {:induction false} FilePairsNonePropagates(ndviStems: seq<string>, gtNames: set<string>, n: nat)
    requires n <= |ndviStems|
    requires FilePairs(ndviStems[..n], gtNames).None?
    ensures FilePairs(ndviStems, gtNames).None?
    decreases |ndviStems| - n
  {
    if n < |ndviStems| {
      assert ndviStems[..n + 1][..n] == ndviStems[..n];
      FilePairsNonePropagates(ndviStems, gtNames, n + 1);
    } else {
      assert ndviStems[..n] == ndviStems;
    }
  }

  /** `get_file_pairs` over a sorted listing of NDVI stems and the set of
      file names present in the ground-truth folder. */
  method GetFilePairs(ndviStems: seq<string>, gtNames: set<string>) returns (pairs: Option<seq<FilePair>>)
    ensures pairs == FilePairs(ndviStems, gtNames)
  {
    var filePairs: seq<FilePair> := [];
    for k := 0 to |ndviStems|
      invariant FilePairs(ndviStems[..k], gtNames) == Some(filePairs)
    {
      var stem := ndviStems[k];
      assert ndviStems[..k + 1][..k] == ndviStems[..k];
      var tokens := Split(stem, '_');
      if |tokens| < 2 {
        FilePairsNonePropagates(ndviStems, gtNames, k + 1);
        return None;
      }
      var gtFile := GtName(tokens[1]);
      if gtFile in gtNames {
        filePairs := filePairs + [FilePair(stem, gtFile)];
      }
    }
    assert ndviStems[..|ndviStems|] == ndviStems;
    return Some(filePairs);
  }

  // ---------------------------------------------------------------------
  // Window offsets
  // ---------------------------------------------------------------------

  /** `range(start, stop, step)` for a positive step. */
  function RangeFrom(start: nat, stop: int, step: nat): (r: seq<nat>)
    requires step > 0
    decreases stop - start
  {
    if start >= stop then [] else [start] + RangeFrom(start + step, stop, step)
  }

  /** Window offsets along an axis of length `n`:
      `range(0, n - size + 1, stride)`. */
  function Offsets(n: nat, size: nat, stride: nat): seq<nat>
    requires stride > 0
  {
    RangeFrom(0, n - size + 1, stride)
  }

  lemma {:induction false} RangeFromAt(start: nat, stop: int, step: nat, k: nat)
    requires step > 0 && k < |RangeFrom(start, stop, step)|
    ensures RangeFrom(start, stop, step)[k] == start + k * step
    decreases stop - start
  {
    if k > 0 {
      RangeFromAt(start + step, stop, step, k - 1);
      assert (start + step) + (k - 1) * step == start + k * step;
    }
  }

  lemma DivStep(x: int, d: nat)
    requires d > 0 && x >= d
    ensures x / d == (x - d) / d + 1
  {
    var q, r := (x - d) / d, (x - d) % d;
    assert x - d == q * d + r && 0 <= r < d;
    assert x == (q + 1) * d + r;
    DivUnique(x, d, q + 1, r);
  }

  lemma DivUnique(x: int, d: nat, q: int, r: int)
    requires d > 0 && x == q * d + r && 0 <= r < d
    ensures x / d == q
  {
    var q', r' := x / d, x % d;
    assert x == q' * d + r' && 0 <= r' < d;
    if q > q' {
      MulAtLeast(q - q', d);
      Distribute(q, q', d);
    } else if q < q' {
      MulAtLeast(q' - q, d);
      Distribute(q', q, d);
    }
  }

  lemma Distribute(a: int, b: int, d: int)
    ensures (a - b) * d == a * d - b * d
  {
  }

  lemma {:induction false} MulAtLeast(a: int, d: nat)
    requires a >= 1
    ensures a * d >= d
    decreases a
  {
    if a > 1 {
      MulAtLeast(a - 1, d);
      Distribute(a, 1, d);
    }
  }

  lemma {:induction false} RangeFromLength(start: nat, stop: int, step: nat)
    requires step > 0
    ensures |RangeFrom(start, stop, step)| == if start >= stop then 0 else (stop - start - 1) / step + 1
    decreases stop - start
  {
    if start < stop {
      RangeFromLength(start + step, stop, step);
      if start + step < stop {
        DivStep(stop - start - 1, step);
      } else {
        DivUnique(stop - start - 1, step, 0, stop - start - 1);
      }
    }
  }

  /** The offsets along an axis are 0, stride, 2*stride, ... as long as the
      window fits: there are (n - size) / stride + 1 of them when n >= size
      and none otherwise, the k-th is k*stride, and every window ends
      inside the axis. */
  lemma OffsetsShape(n: nat, size: nat, stride: nat)
    requires stride > 0
    ensures |Offsets(n, size, stride)| == if n >= size then (n - size) / stride + 1 else 0
    ensures forall k :: 0 <= k < |Offsets(n, size, stride)| ==>
      Offsets(n, size, stride)[k] == k * stride && Offsets(n, size, stride)[k] + size <= n
  {
    RangeFromLength(0, n - size + 1, stride);
    forall k | 0 <= k < |Offsets(n, size, stride)|
      ensures Offsets(n, size, stride)[k] == k * stride && Offsets(n, size, stride)[k] + size <= n
    {
      RangeFromAt(0, n - size + 1, stride, k);
      RangeFromBelow(0, n - size + 1, stride, k);
    }
  }

  lemma {:induction false} RangeFromBelow(start: nat, stop: int, step: nat, k: nat)
    requires step > 0 && k < |RangeFrom(start, stop, step)|
    ensures start <= RangeFrom(start, stop, step)[k] < stop
    decreases stop - start
  {
    if k > 0 {
      RangeFromBelow(start + step, stop, step, k - 1);
    }
  }

  /** An offset is a multiple of the stride whose window fits, and every
      such multiple is an offset. */
  lemma OffsetsMembership(n: nat, size: nat, stride: nat, x: int)
    requires stride > 0
    ensures x in Offsets(n, size, stride) <==> 0 <= x && x % stride == 0 && x + size <= n
  {
    var offs := Offsets(n, size, stride);
    OffsetsShape(n, size, stride);
    if x in offs {
      var k :| 0 <= k < |offs| && offs[k] == x;
      DivUnique(x, stride, k, 0);
    }
    if 0 <= x && x % stride == 0 && x + size <= n {
      var k := x / stride;
      assert x == k * stride;
      DivMonotone(x, n - size, stride);
      assert k < |offs|;
      assert offs[k] == x;
    }
  }

  lemma DivMonotone(x: int, y: int, d: nat)
    requires d > 0 && 0 <= x <= y
    ensures x / d <= y / d
  {
    var qx, rx := x / d, x % d;
    var qy, ry := y / d, y % d;
    assert x == qx * d + rx && y == qy * d + ry;
    if qx > qy {
      MulAtLeast(qx - qy, d);
      Distribute(qx, qy, d);
    }
  }

  /** Offsets grow strictly. */
  lemma OffsetsIncreasing(n: nat, size: nat, stride: nat)
    requires stride > 0
    ensures forall a, b :: 0 <= a < b < |Offsets(n, size, stride)| ==> Offsets(n, size, stride)[a] < Offsets(n, size, stride)[b]
  {
    OffsetsShape(n, size, stride);
    forall a, b | 0 <= a < b < |Offsets(n, size, stride)|
      ensures Offsets(n, size, stride)[a] < Offsets(n, size, stride)[b]
    {
      MulAtLeast(b - a, stride);
      Distribute(b, a, stride);
    }
  }

  // ---------------------------------------------------------------------
  // Patch extraction
  // ---------------------------------------------------------------------

  /** A pair as read: the NDVI stem, band 1 of the NDVI raster and band 1
      of its ground truth. */
  datatype PairData = PairData(stem: string, ndvi: Matrix<real>, gt: Matrix<int>)

  ghost predicate PairValid(d: PairData)
  {
    d.ndvi.Valid() && d.gt.Valid()
  }

  /** One training sample. */
  datatype PatchRecord = PatchRecord(ndviSam: seq<Matrix<real>>, gtMask: Matrix<int>, sourceFile: string,
                                     patchCoords: (nat, nat), cloudPixels: nat, shadowPixels: nat)

  /** The preprocessor as seen by the sampler: `None` when it raises. */
  type Preprocess = Matrix<real> -> Option<Preprocessor.Stages>

  /** The keep policy on a patch of side `size` holding `cloud` 1s, `shadow`
      2s and `distinct` distinct values: more than 1% cloud or shadow, more
      than 100 cloud pixels, more than 100 shadow pixels, or more than one
      class. */
  predicate Keep(cloud: nat, shadow: nat, distinct: nat, size: nat)
  {
    100 * (cloud + shadow) > size * size || cloud > 100 || shadow > 100 || distinct > 1
  }

  /** The keep policy on a ground-truth window. */
  predicate KeepPatch(mask: Matrix<int>, size: nat)
    requires mask.Valid()
  {
    Keep(Count(mask, 1), Count(mask, 2), |Values(mask)|, size)
  }

  /** The 100-pixel thresholds are strict: one class with 100 cloud pixels
      and at most 1% cloud is dropped, 101 cloud pixels are kept. */
  lemma KeepThresholds(size: nat)
    requires 100 * 100 <= size * size
    ensures !Keep(100, 0, 1, size)
    ensures Keep(101, 0, 1, size)
    ensures !Keep(0, 100, 1, size) && Keep(0, 101, 1, size)
  {
  }

  /** Every pixel of `mask` holds `v`. */
  predicate Uniform(mask: Matrix<int>, v: int)
    requires mask.Valid()
  {
    forall r, c :: 0 <= r < mask.height && 0 <= c < mask.width ==> mask.cells[r][c] == v
  }

  /** For a full `size` x `size` window the keep policy reduces to one
      rule: the window is dropped exactly when all of its pixels hold the
      same class and that class is neither cloud (1) nor shadow (2). */
  lemma FullWindowDropped(mask: Matrix<int>, size: nat)
    requires mask.Valid() && mask.height == size && mask.width == size
    ensures !KeepPatch(mask, size) <==> exists v :: v != 1 && v != 2 && Uniform(mask, v)
  {
    if size == 0 {
      assert Uniform(mask, 0);
      assert Values(mask) == {};
    } else if !KeepPatch(mask, size) {
      var v := mask.cells[0][0];
      forall r, c | 0 <= r < size && 0 <= c < size
        ensures mask.cells[r][c] == v
      {
        if mask.cells[r][c] != v {
          MixedKept(mask, size, r, c, 0, 0);
        }
      }
      assert Uniform(mask, v);
      if v == 1 || v == 2 {
        CountAll(mask, v);
      }
    } else {
      forall v | v != 1 && v != 2
        ensures !Uniform(mask, v)
      {
        if Uniform(mask, v) {
          CountAbsent(mask, 1);
          CountAbsent(mask, 2);
          SubsetCardinality(Values(mask), {v});
        }
      }
    }
  }

  /** An all-clear window (every pixel 0) is always discarded. */
  lemma AllClearDiscarded(mask: Matrix<int>, size: nat)
    requires mask.Valid()
    requires forall r, c :: 0 <= r < mask.height && 0 <= c < mask.width ==> mask.cells[r][c] == 0
    ensures !KeepPatch(mask, size)
  {
    CountAbsent(mask, 1);
    CountAbsent(mask, 2);
    SubsetCardinality(Values(mask), {0});
  }

  /** A window holding two different classes is always kept. */
  lemma MixedKept(mask: Matrix<int>, size: nat, r1: nat, c1: nat, r2: nat, c2: nat)
    requires mask.Valid()
    requires r1 < mask.height && c1 < mask.width && r2 < mask.height && c2 < mask.width
    requires mask.cells[r1][c1] != mask.cells[r2][c2]
    ensures KeepPatch(mask, size)
  {
    var x, y := mask.cells[r1][c1], mask.cells[r2][c2];
    assert {x, y} <= Values(mask);
    assert |{x, y}| == 2;
    SubsetCardinality({x, y}, Values(mask));
  }

  lemma SubsetCardinality<T>(a: set<T>, b: set<T>)
    requires a <= b
    ensures |a| <= |b|
  {
    assert b == a + (b - a);
  }

  /** What the window at (i, j) yields: `None` when the keep policy
      drops it or the preprocessor raises, otherwise its record. */
  function Candidate(d: PairData, w: (nat, nat), size: nat, pre: Preprocess): (o: Option<PatchRecord>)
    requires PairValid(d)
    ensures o.Some? <==> KeepPatch(Crop(d.gt, w.0, w.1, size), size) && pre(Crop(d.ndvi, w.0, w.1, size)).Some?
    ensures o.Some? ==>
      && o.value.patchCoords == w
      && o.value.sourceFile == d.stem
      && o.value.gtMask == Crop(d.gt, w.0, w.1, size)
      && o.value.cloudPixels == Count(o.value.gtMask, 1)
      && o.value.shadowPixels == Count(o.value.gtMask, 2)
      && o.value.ndviSam == pre(Crop(d.ndvi, w.0, w.1, size)).value.samInput
  {
    var ndviPatch := Crop(d.ndvi, w.0, w.1, size);
    var maskPatch := Crop(d.gt, w.0, w.1, size);
    if !KeepPatch(maskPatch, size) then None
    else
      match pre(ndviPatch)
      case None => None
      case Some(processed) =>
        Some(PatchRecord(processed.samInput, maskPatch, d.stem, w, Count(maskPatch, 1), Count(maskPatch, 2)))
  }

  /** The sampler's preprocessor: `preprocess_single_image_array` with
      augmentation on, for a given augmentation draw. */
  function WithAugmentation(p: real): Preprocess
  {
    (m: Matrix<real>) => if m.Valid() then Some(Preprocessor.PreprocessSingleImageArray(m, true, p)) else None
  }

  /** With that preprocessor, a window inside the NDVI raster yields a
      record whose SAM input has three size x size channels with every value
      in [0, 1]. */
  lemma RecordShape(d: PairData, w: (nat, nat), size: nat, p: real)
    requires PairValid(d)
    requires w.0 + size <= d.ndvi.height && w.1 + size <= d.ndvi.width
    requires Candidate(d, w, size, WithAugmentation(p)).Some?
    ensures var sam := Candidate(d, w, size, WithAugmentation(p)).value.ndviSam;
      && |sam| == 3
      && forall k :: 0 <= k < 3 ==>
           && sam[k].height == size && sam[k].width == size
           && forall r, c :: 0 <= r < size && 0 <= c < size ==> 0.0 <= sam[k].cells[r][c] <= 1.0
  {
    var patch := Crop(d.ndvi, w.0, w.1, size);
    var s := Preprocessor.PreprocessSingleImageArray(patch, true, p);
    assert WithAugmentation(p)(patch) == Some(s);
    Preprocessor.PipelineSemantics(patch, true, p);
    assert s.augmented == Preprocessor.Augment(s.cleaned, true, p);
    assert s.augmented.height == size && s.augmented.width == size;
  }

  /** What an optional value contributes to a list. */
  function Emitted<R>(o: Option<R>): seq<R>
  {
    match o
    case None => []
    case Some(x) => [x]
  }

  /** The present outcomes of `f` over `ws`, in order. */
  function FilterMap<W, R>(f: W -> Option<R>, ws: seq<W>): seq<R>
  {
    if ws == [] then []
    else FilterMap(f, ws[..|ws| - 1]) + Emitted(f(ws[|ws| - 1]))
  }

  lemma {:induction false} FilterMapAppend<W, R>(f: W -> Option<R>, a: seq<W>, b: seq<W>)
    ensures FilterMap(f, a + b) == FilterMap(f, a) + FilterMap(f, b)
  {
    if b == [] {
      assert a + b == a;
    } else {
      var n := |b|;
      var ab := a + b;
      assert ab[..|ab| - 1] == a + b[..n - 1];
      assert ab[|ab| - 1] == b[n - 1];
      FilterMapAppend(f, a, b[..n - 1]);
    }
  }

  /** An outcome is listed exactly when some element produces it. */
  lemma {:induction false} FilterMapMembers<W, R>(f: W -> Option<R>, ws: seq<W>, r: R)
    ensures r in FilterMap(f, ws) <==> exists k :: 0 <= k < |ws| && f(ws[k]) == Some(r)
  {
    if ws != [] {
      var n := |ws|;
      FilterMapMembers(f, ws[..n - 1], r);
      assert forall k :: 0 <= k < n - 1 ==> ws[..n - 1][k] == ws[k];
      if exists k :: 0 <= k < n && f(ws[k]) == Some(r) {
        var k :| 0 <= k < n && f(ws[k]) == Some(r);
        if k < n - 1 {
          assert f(ws[..n - 1][k]) == Some(r);
        }
      }
    }
  }

  /** What the sampler does with each window of a pair. */
  function Outcomes(d: PairData, size: nat, pre: Preprocess): ((nat, nat)) -> Option<PatchRecord>
    requires PairValid(d)
  {
    w => Candidate(d, w, size, pre)
  }

  /** Lexicographic order on window coordinates. */
  predicate Before(a: (nat, nat), b: (nat, nat))
  {
    a.0 < b.0 || (a.0 == b.0 && a.1 < b.1)
  }

  /** Records in increasing order of their window coordinates. */
  predicate RecordsOrdered(rs: seq<PatchRecord>)
  {
    forall a, b :: 0 <= a < b < |rs| ==> Before(rs[a].patchCoords, rs[b].patchCoords)
  }

  /** The records of windows given in increasing order come in increasing
      order of their coordinates. */
  lemma CollectOrdered(d: PairData, ws: seq<(nat, nat)>, size: nat, pre: Preprocess)
    requires PairValid(d)
    requires forall a, b :: 0 <= a < b < |ws| ==> Before(ws[a], ws[b])
    ensures RecordsOrdered(FilterMap(Outcomes(d, size, pre), ws))
  {
    var f := Outcomes(d, size, pre);
    forall w | f(w).Some?
      ensures f(w).value.patchCoords == w
    {
      assert f(w) == Candidate(d, w, size, pre);
    }
    LabelledOrdered(f, ws);
  }

  /** The same, for any sampler that labels a record with its window. */
  lemma {:induction false} LabelledOrdered(f: ((nat, nat)) -> Option<PatchRecord>, ws: seq<(nat, nat)>)
    requires forall w :: f(w).Some? ==> f(w).value.patchCoords == w
    requires forall a, b :: 0 <= a < b < |ws| ==> Before(ws[a], ws[b])
    ensures RecordsOrdered(FilterMap(f, ws))
  {
    if ws != [] {
      var n := |ws|;
      var init := ws[..n - 1];
      LabelledOrdered(f, init);
      var rest := FilterMap(f, init);
      assert FilterMap(f, ws) == rest + Emitted(f(ws[n - 1]));
      if f(ws[n - 1]).Some? {
        var x := f(ws[n - 1]).value;
        forall a | 0 <= a < |rest|
          ensures Before(rest[a].patchCoords, x.patchCoords)
        {
          EarlierBefore(f, ws, rest[a]);
        }
        AppendOrdered(rest, x);
      } else {
        assert FilterMap(f, ws) == rest;
      }
    }
  }

  /** A record of an earlier window lies before the last window. */
  lemma EarlierBefore(f: ((nat, nat)) -> Option<PatchRecord>, ws: seq<(nat, nat)>, r: PatchRecord)
    requires forall w :: f(w).Some? ==> f(w).value.patchCoords == w
    requires forall a, b :: 0 <= a < b < |ws| ==> Before(ws[a], ws[b])
    requires ws != [] && r in FilterMap(f, ws[..|ws| - 1])
    ensures Before(r.patchCoords, ws[|ws| - 1])
  {
    var init := ws[..|ws| - 1];
    FilterMapMembers(f, init, r);
    var k :| 0 <= k < |init| && f(init[k]) == Some(r);
    assert init[k] == ws[k];
  }

  /** Ordered records, all placed before `x`, stay ordered with `x`
      appended. */
  lemma AppendOrdered(rest: seq<PatchRecord>, x: PatchRecord)
    requires RecordsOrdered(rest)
    requires forall a :: 0 <= a < |rest| ==> Before(rest[a].patchCoords, x.patchCoords)
    ensures RecordsOrdered(rest + [x])
  {
  }

  /** The windows of one row, left to right. */
  function RowWindows(i: nat, cols: seq<nat>): (ws: seq<(nat, nat)>)
    ensures |ws| == |cols|
    ensures forall k :: 0 <= k < |cols| ==> ws[k] == (i, cols[k])
  {
    seq(|cols|, k requires 0 <= k < |cols| => (i, cols[k]))
  }

  /** All windows, row by row, each row left to right. */
  function Windows(rows: seq<nat>, cols: seq<nat>): seq<(nat, nat)>
  {
    if rows == [] then []
    else Windows(rows[..|rows| - 1], cols) + RowWindows(rows[|rows| - 1], cols)
  }

  /** Each window is made of one row offset and one column offset. */
  lemma {:induction false} WindowsFrom(rows: seq<nat>, cols: seq<nat>)
    ensures forall k :: 0 <= k < |Windows(rows, cols)| ==> Windows(rows, cols)[k].0 in rows && Windows(rows, cols)[k].1 in cols
  {
    if rows != [] {
      var n := |rows|;
      var init := rows[..n - 1];
      WindowsFrom(init, cols);
      var before := Windows(init, cols);
      var row := RowWindows(rows[n - 1], cols);
      var ws: seq<(nat, nat)> := before + row;
      assert Windows(rows, cols) == ws;
      forall k | 0 <= k < |ws|
        ensures ws[k].0 in rows && ws[k].1 in cols
      {
        if k < |before| {
          assert ws[k] == before[k];
          assert before[k].0 in init;
        } else {
          assert ws[k] == row[k - |before|];
        }
      }
    }
  }

  /** Windows of increasing rows and columns come in row-major order. */
  lemma {:induction false} WindowsOrdered(rows: seq<nat>, cols: seq<nat>)
    requires forall a, b :: 0 <= a < b < |rows| ==> rows[a] < rows[b]
    requires forall a, b :: 0 <= a < b < |cols| ==> cols[a] < cols[b]
    ensures forall a, b :: 0 <= a < b < |Windows(rows, cols)| ==> Before(Windows(rows, cols)[a], Windows(rows, cols)[b])
  {
    if rows != [] {
      var n := |rows|;
      var init := rows[..n - 1];
      WindowsOrdered(init, cols);
      WindowsFrom(init, cols);
      var before := Windows(init, cols);
      var row := RowWindows(rows[n - 1], cols);
      var ws := before + row;
      assert Windows(rows, cols) == ws;
      forall a, b | 0 <= a < b < |ws|
        ensures Before(ws[a], ws[b])
      {
        if b < |before| {
          assert ws[a] == before[a] && ws[b] == before[b];
        } else if a >= |before| {
          assert ws[a] == row[a - |before|] && ws[b] == row[b - |before|];
        } else {
          assert ws[a] == before[a] && ws[b] == row[b - |before|];
          var x := before[a].0;
          assert x in init;
          var t :| 0 <= t < n - 1 && init[t] == x;
          assert rows[t] == x;
        }
      }
    }
  }

  /** The records of one pair: every window of the NDVI raster's offset
      grid, row by row. */
  function PairRecords(d: PairData, size: nat, stride: nat, pre: Preprocess): seq<PatchRecord>
    requires PairValid(d) && stride > 0
  {
    FilterMap(Outcomes(d, size, pre), Windows(Offsets(d.ndvi.height, size, stride), Offsets(d.ndvi.width, size, stride)))
  }

  /** The records of all pairs, pair by pair. */
  function AllRecords(pairs: seq<PairData>, size: nat, stride: nat, pre: Preprocess): seq<PatchRecord>
    requires forall d :: d in pairs ==> PairValid(d)
    requires stride > 0
  {
    if pairs == [] then []
    else AllRecords(pairs[..|pairs| - 1], size, stride, pre) + PairRecords(pairs[|pairs| - 1], size, stride, pre)
  }

  /** Within one pair, records come in increasing (row, column) order. */
  lemma PairRecordsOrdered(d: PairData, size: nat, stride: nat, pre: Preprocess)
    requires PairValid(d) && stride > 0
    ensures RecordsOrdered(PairRecords(d, size, stride, pre))
  {
    var rows := Offsets(d.ndvi.height, size, stride);
    var cols := Offsets(d.ndvi.width, size, stride);
    OffsetsIncreasing(d.ndvi.height, size, stride);
    OffsetsIncreasing(d.ndvi.width, size, stride);
    WindowsOrdered(rows, cols);
    CollectOrdered(d, Windows(rows, cols), size, pre);
  }

  /** Every record of a pair comes from a window lying inside the raster
      that the sampler keeps, and is the record the sampler builds there. */
  lemma PairRecordsSound(d: PairData, size: nat, stride: nat, pre: Preprocess)
    requires PairValid(d) && stride > 0
    ensures var rs := PairRecords(d, size, stride, pre);
      forall k :: 0 <= k < |rs| ==>
        && rs[k].patchCoords.0 + size <= d.ndvi.height
        && rs[k].patchCoords.1 + size <= d.ndvi.width
        && Candidate(d, rs[k].patchCoords, size, pre) == Some(rs[k])
  {
    var rows := Offsets(d.ndvi.height, size, stride);
    var cols := Offsets(d.ndvi.width, size, stride);
    OffsetsShape(d.ndvi.height, size, stride);
    OffsetsShape(d.ndvi.width, size, stride);
    var ws := Windows(rows, cols);
    WindowsFrom(rows, cols);
    var f := Outcomes(d, size, pre);
    var rs := FilterMap(f, ws);
    forall k | 0 <= k < |rs|
      ensures && rs[k].patchCoords.0 + size <= d.ndvi.height
              && rs[k].patchCoords.1 + size <= d.ndvi.width
              && Candidate(d, rs[k].patchCoords, size, pre) == Some(rs[k])
    {
      FilterMapMembers(f, ws, rs[k]);
      var t :| 0 <= t < |ws| && f(ws[t]) == Some(rs[k]);
      assert f(ws[t]) == Candidate(d, ws[t], size, pre);
      assert ws[t].0 in rows && ws[t].1 in cols;
    }
  }

  /** A window of the grid that is kept and preprocessed yields a record. */
  lemma PairRecordsComplete(d: PairData, size: nat, stride: nat, pre: Preprocess, i: nat, j: nat)
    requires PairValid(d) && stride > 0
    requires i in Offsets(d.ndvi.height, size, stride) && j in Offsets(d.ndvi.width, size, stride)
    requires Candidate(d, (i, j), size, pre).Some?
    ensures Candidate(d, (i, j), size, pre).value in PairRecords(d, size, stride, pre)
  {
    var rows := Offsets(d.ndvi.height, size, stride);
    var cols := Offsets(d.ndvi.width, size, stride);
    WindowsCover(rows, cols, i, j);
    var k :| 0 <= k < |Windows(rows, cols)| && Windows(rows, cols)[k] == (i, j);
    FilterMapMembers(Outcomes(d, size, pre), Windows(rows, cols), Candidate(d, (i, j), size, pre).value);
    assert Outcomes(d, size, pre)(Windows(rows, cols)[k]) == Candidate(d, (i, j), size, pre);
  }

  lemma {:induction false} WindowsCover(rows: seq<nat>, cols: seq<nat>, i: nat, j: nat)
    requires i in rows && j in cols
    ensures (i, j) in Windows(rows, cols)
  {
    var n := |rows|;
    var row := RowWindows(rows[n - 1], cols);
    var b :| 0 <= b < |cols| && cols[b] == j;
    if rows[n - 1] == i {
      assert row[b] == (i, j);
    } else {
      assert i in rows[..n - 1];
      WindowsCover(rows[..n - 1], cols, i, j);
    }
  }

  /** One more column of a row adds that window's outcome. */
  lemma RowStep(d: PairData, size: nat, pre: Preprocess, done: seq<(nat, nat)>, i: nat, cols: seq<nat>, b: nat)
    requires PairValid(d) && b < |cols|
    ensures FilterMap(Outcomes(d, size, pre), done + RowWindows(i, cols[..b + 1]))
         == FilterMap(Outcomes(d, size, pre), done + RowWindows(i, cols[..b])) + Emitted(Candidate(d, (i, cols[b]), size, pre))
  {
    var f := Outcomes(d, size, pre);
    var ws := done + RowWindows(i, cols[..b]);
    assert RowWindows(i, cols[..b + 1]) == RowWindows(i, cols[..b]) + [(i, cols[b])];
    assert done + RowWindows(i, cols[..b + 1]) == ws + [(i, cols[b])];
    FilterMapAppend(f, ws, [(i, cols[b])]);
    assert [(i, cols[b])][..0] == [];
  }

  /** One more pair adds that pair's records. */
  lemma PairsStep(pairs: seq<PairData>, size: nat, stride: nat, pre: Preprocess, p: nat)
    requires forall d :: d in pairs ==> PairValid(d)
    requires stride > 0 && p < |pairs|
    ensures AllRecords(pairs[..p + 1], size, stride, pre)
         == AllRecords(pairs[..p], size, stride, pre) + PairRecords(pairs[p], size, stride, pre)
  {
    assert pairs[..p + 1][..p] == pairs[..p];
  }

  /** One more row adds that row's windows. */
  lemma RowsStep(rows: seq<nat>, cols: seq<nat>, a: nat)
    requires a < |rows|
    ensures Windows(rows[..a + 1], cols) == Windows(rows[..a], cols) + RowWindows(rows[a], cols)
  {
    assert rows[..a + 1][..a] == rows[..a];
  }

  /** The inner `for j` loop of `generate_patches` for one row offset `i`:
      the records gathered so far for this pair (those of the windows
      `before`) are extended with the row's kept windows, left to right. */
  method RowPatches(d: PairData, pre: Preprocess, size: nat, i: nat, cols: seq<nat>,
                    ghost before: seq<(nat, nat)>, gathered: seq<PatchRecord>)
    returns (records: seq<PatchRecord>)
    requires PairValid(d)
    requires gathered == FilterMap(Outcomes(d, size, pre), before)
    ensures records == FilterMap(Outcomes(d, size, pre), before + RowWindows(i, cols))
  {
    ghost var f := Outcomes(d, size, pre);
    records := gathered;
    assert before + RowWindows(i, cols[..0]) == before;
    for b := 0 to |cols|
      invariant records == FilterMap(f, before + RowWindows(i, cols[..b]))
    {
      var j := cols[b];
      RowStep(d, size, pre, before, i, cols, b);
      // cut both windows, count cloud and shadow pixels, apply the keep
      // policy and preprocess a kept window; a raising preprocessor skips it
      var ndviPatch := Crop(d.ndvi, i, j, size);
      var maskPatch := Crop(d.gt, i, j, size);
      var cloudPixels := Count(maskPatch, 1);
      var shadowPixels := Count(maskPatch, 2);
      if Keep(cloudPixels, shadowPixels, |Values(maskPatch)|, size) {
        match pre(ndviPatch) {
          case None =>
          case Some(processed) =>
            records := records + [PatchRecord(processed.samInput, maskPatch, d.stem, (i, j), cloudPixels, shadowPixels)];
        }
      }
    }
    assert cols[..|cols|] == cols;
  }

  /** The two nested offset loops of `generate_patches` for one pair. */
  method PairPatches(d: PairData, pre: Preprocess, size: nat, stride: nat)
    returns (records: seq<PatchRecord>)
    requires PairValid(d)
    requires stride > 0
    ensures records == PairRecords(d, size, stride, pre)
  {
    var rows := RangeFrom(0, d.ndvi.height - size + 1, stride);
    var cols := RangeFrom(0, d.ndvi.width - size + 1, stride);
    assert rows == Offsets(d.ndvi.height, size, stride);
    assert cols == Offsets(d.ndvi.width, size, stride);
    records := [];
    for a := 0 to |rows|
      invariant records == FilterMap(Outcomes(d, size, pre), Windows(rows[..a], cols))
    {
      RowsStep(rows, cols, a);
      records := RowPatches(d, pre, size, rows[a], cols, Windows(rows[..a], cols), records);
    }
    assert rows[..|rows|] == rows;
  }

  /** `generate_patches` over pairs already read into memory: for each
      pair, row offsets ascending and, within a row, column offsets
      ascending; a kept and preprocessed window appends its record. */
  method GeneratePatches(pairs: seq<PairData>, pre: Preprocess, size: nat, stride: nat)
    returns (trainingData: seq<PatchRecord>)
    requires forall d :: d in pairs ==> PairValid(d)
    requires stride > 0
    ensures trainingData == AllRecords(pairs, size, stride, pre)
  {
    trainingData := [];
    for p := 0 to |pairs|
      invariant trainingData == AllRecords(pairs[..p], size, stride, pre)
    {
      PairsStep(pairs, size, stride, pre, p);
      var records := PairPatches(pairs[p], pre, size, stride);
      trainingData := trainingData + records;
    }
    assert pairs[..|pairs|] == pairs;
  }
}
