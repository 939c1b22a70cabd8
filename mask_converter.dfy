/**
 * The cloud-mask remapper (`preprocess_cm1_masks`): every raw mask raster
 * of a batch is remapped to the 3-class ground truth and written as
 * `GT_<stem>.tif`, while two histograms are kept over the batch. A file
 * is given in memory: its stem, what reading it yields (`None` when the
 * read raises) and whether writing its output succeeds.
 */
module MaskConverter {
  import opened Wrappers
  import opened Raster

  /** The fixed class table: clear, thick cloud, thin cloud (as clear), shadow. */
  const ClassMapping: map<int, int> := map[0 := 0, 1 := 1, 2 := 0, 3 := 2]

  /** The table's keys in the order the passes visit them. */
  const RawClasses: seq<int> := [0, 1, 2, 3]

  /** Output class of one raw pixel: the table's value, and 0 (the value
      of the zero-initialised output) for a code outside the table. */
  function MapPixel(v: int): (c: int)
    ensures 0 <= c <= 2
    ensures v == 0 || v == 2 ==> c == 0
    ensures v == 1 ==> c == 1
    ensures v == 3 ==> c == 2
    ensures v !in ClassMapping ==> c == 0
  {
    if v in ClassMapping then ClassMapping[v] else 0
  }

  /** The ground truth of a raw mask. */
  function Remapped(m: Matrix<int>): Matrix<int>
    requires m.Valid()
  {
    MapCells(m, MapPixel)
  }

  /** A value of a raster metadata profile. */
  datatype ProfileValue = Text(text: string) | Number(number: int) | Other(id: nat)

  /** A raster metadata profile (crs, transform, dtype, count, ...). */
  type Profile = map<string, ProfileValue>

  /** A raw mask file as read: band 1 and the profile. */
  datatype RasterData = RasterData(data: Matrix<int>, profile: Profile)

  /** One input file of the batch. */
  datatype MaskFile = MaskFile(stem: string, contents: Option<RasterData>, writeSucceeds: bool)

  /** One ground-truth file written by the batch. */
  datatype OutputRaster = OutputRaster(name: string, data: Matrix<int>, profile: Profile)

  /** The name of the ground truth written for an input stem. */
  function OutputName(stem: string): string
  {
    "GT_" + stem + ".tif"
  }

  /** The stem can be read back from the output name, so distinct inputs
      never write to the same file. */
  lemma OutputNameInverse(stem: string)
    ensures |OutputName(stem)| == |stem| + 7
    ensures OutputName(stem)[3..|stem| + 3] == stem
  {
  }

  lemma OutputNameInjective(s: string, t: string)
    requires OutputName(s) == OutputName(t)
    ensures s == t
  {
    OutputNameInverse(s);
    OutputNameInverse(t);
  }

  /** The written profile: single-band uint8 with LZW compression; every
      other key of the input profile is kept as it was. */
  function OutputProfile(p: Profile): (q: Profile)
    ensures q.Keys == p.Keys + {"dtype", "count", "compress"}
    ensures q["dtype"] == Text("uint8") && q["count"] == Number(1) && q["compress"] == Text("lzw")
    ensures forall k :: k in p && k != "dtype" && k != "count" && k != "compress" ==> q[k] == p[k]
  {
    p["dtype" := Text("uint8")]["count" := Number(1)]["compress" := Text("lzw")]
  }

  /** The raw histogram after one raster: every key already present gains
      the number of pixels equal to it; other pixel values are ignored. */
  function RawTallied(stats: map<int, nat>, m: Matrix<int>): map<int, nat>
  {
    map v | v in stats :: stats[v] + Count(m, v)
  }

  /** The new-class histogram after one raster. */
  function NewTallied(stats: map<int, nat>, m: Matrix<int>): map<int, nat>
    requires 0 in stats && 1 in stats && 2 in stats
  {
    stats[0 := stats[0] + Count(m, 0) + Count(m, 2)]
         [1 := stats[1] + Count(m, 1)]
         [2 := stats[2] + Count(m, 3)]
  }

  /** The new-class histogram after the first `q` masked passes. */
  function NewTalliedPasses(stats: map<int, nat>, m: Matrix<int>, q: nat): (s: map<int, nat>)
    requires q <= |RawClasses|
    requires 0 in stats && 1 in stats && 2 in stats
    ensures s.Keys == stats.Keys
  {
    if q == 0 then stats
    else
      var s := NewTalliedPasses(stats, m, q - 1);
      var c := ClassMapping[RawClasses[q - 1]];
      s[c := s[c] + Count(m, RawClasses[q - 1])]
  }

  /** One more masked pass adds its mask's size to its new class. */
  lemma NewTalliedPassesStep(stats: map<int, nat>, m: Matrix<int>, q: nat, counts: map<int, nat>, n: nat)
    requires q < |RawClasses|
    requires 0 in stats && 1 in stats && 2 in stats
    requires counts == NewTalliedPasses(stats, m, q) && n == Count(m, RawClasses[q])
    ensures ClassMapping[RawClasses[q]] in counts
    ensures counts[ClassMapping[RawClasses[q]] := counts[ClassMapping[RawClasses[q]]] + n]
         == NewTalliedPasses(stats, m, q + 1)
  {
  }

  /** The four passes over the table add up to the new-class histogram. */
  lemma NewTalliedPassesComplete(stats: map<int, nat>, m: Matrix<int>)
    requires 0 in stats && 1 in stats && 2 in stats
    ensures NewTalliedPasses(stats, m, 4) == NewTallied(stats, m)
  {
    assert RawClasses[0] == 0 && RawClasses[1] == 1 && RawClasses[2] == 2 && RawClasses[3] == 3;
    assert ClassMapping[0] == 0 && ClassMapping[1] == 1 && ClassMapping[2] == 0 && ClassMapping[3] == 2;
    var s1 := NewTalliedPasses(stats, m, 1);
    var s2 := NewTalliedPasses(stats, m, 2);
    var s3 := NewTalliedPasses(stats, m, 3);
    assert NewTalliedPasses(stats, m, 0) == stats;
    assert s1 == stats[0 := stats[0] + Count(m, 0)];
    assert s2 == s1[1 := s1[1] + Count(m, 1)];
    assert s3 == s2[0 := s2[0] + Count(m, 2)];
  }

  /** The file written for a mask that was read: the `GT_` name, the
      remapped raster and the updated profile. */
  function Output(f: MaskFile): (o: OutputRaster)
    requires f.contents.Some? && f.contents.value.data.Valid()
    ensures |o.name| == |f.stem| + 7 && o.name[3..|f.stem| + 3] == f.stem
    ensures o.name[..3] == "GT_" && o.name[|f.stem| + 3..] == ".tif"
    ensures var raw := f.contents.value.data;
      && o.data.Valid() && o.data.height == raw.height && o.data.width == raw.width
      && forall r, c :: 0 <= r < raw.height && 0 <= c < raw.width ==> o.data.cells[r][c] == MapPixel(raw.cells[r][c])
    ensures o.profile.Keys == f.contents.value.profile.Keys + {"dtype", "count", "compress"}
    ensures o.profile["dtype"] == Text("uint8") && o.profile["count"] == Number(1) && o.profile["compress"] == Text("lzw")
    ensures forall k :: k in f.contents.value.profile && k != "dtype" && k != "count" && k != "compress" ==>
      o.profile[k] == f.contents.value.profile[k]
  {
    OutputNameInverse(f.stem);
    OutputRaster(OutputName(f.stem), Remapped(f.contents.value.data), OutputProfile(f.contents.value.profile))
  }

  /** The batch's running state: both histograms, the number of files
      written and the files written. */
  datatype Tallies = Tallies(rawCounts: map<int, nat>, newCounts: map<int, nat>,
                             processed: nat, written: seq<OutputRaster>)

  ghost predicate WellFormed(t: Tallies)
  {
    && t.rawCounts.Keys == {0, 1, 2, 3}
    && t.newCounts.Keys == {0, 1, 2}
    && t.processed == |t.written|
  }

  const Initial: Tallies := Tallies(map[0 := 0, 1 := 0, 2 := 0, 3 := 0], map[0 := 0, 1 := 0, 2 := 0], 0, [])

  function Sum3(s: map<int, nat>): nat
    requires 0 in s && 1 in s && 2 in s
  {
    s[0] + s[1] + s[2]
  }

  function Sum4(s: map<int, nat>): nat
    requires 0 in s && 1 in s && 2 in s && 3 in s
  {
    s[0] + s[1] + s[2] + s[3]
  }

  /** One file of the batch. A failed read changes nothing. Otherwise both
      histograms are updated before the write, so a failed write still
      counts the file's pixels; only a successful write adds an output and
      bumps the processed count. */
  function Step(t: Tallies, f: MaskFile): (u: Tallies)
    requires WellFormed(t)
    requires f.contents.Some? ==> f.contents.value.data.Valid()
    ensures WellFormed(u)
    ensures f.contents.None? ==> u == t
    ensures u.processed == t.processed + (if f.contents.Some? && f.writeSucceeds then 1 else 0)
    ensures Sum3(u.newCounts) - Sum3(t.newCounts) == Sum4(u.rawCounts) - Sum4(t.rawCounts)
    ensures f.contents.Some? && f.writeSucceeds ==>
      u.written == t.written + [Output(f)]
    ensures !(f.contents.Some? && f.writeSucceeds) ==> u.written == t.written
  {
    match f.contents
    case None => t
    case Some(raster) =>
      var raw := RawTallied(t.rawCounts, raster.data);
      var nw := NewTallied(t.newCounts, raster.data);
      if f.writeSucceeds then
        Tallies(raw, nw, t.processed + 1, t.written + [Output(f)])
      else
        Tallies(raw, nw, t.processed, t.written)
  }

  ghost predicate Readable(files: seq<MaskFile>)
  {
    forall f :: f in files && f.contents.Some? ==> f.contents.value.data.Valid()
  }

  /** The state after the files of the batch, in order. */
  function Batch(files: seq<MaskFile>): (t: Tallies)
    requires Readable(files)
    ensures WellFormed(t)
  {
    if files == [] then Initial
    else Step(Batch(files[..|files| - 1]), files[|files| - 1])
  }

  /** Summed over a batch, the new histogram and the raw histogram hold the
      same number of pixels, including files whose write failed. */
  lemma {:induction false} BatchConservation(files: seq<MaskFile>)
    requires Readable(files)
    ensures Sum3(Batch(files).newCounts) == Sum4(Batch(files).rawCounts)
  {
    if files != [] {
      BatchConservation(files[..|files| - 1]);
    }
  }

  /** A batch none of whose files can be read changes nothing: no output,
      no processed file and an all-zero raw histogram, so the final
      printout divides by zero. */
  lemma {:induction false} UnreadableBatch(files: seq<MaskFile>)
    requires forall k :: 0 <= k < |files| ==> files[k].contents.None?
    ensures Readable(files) && Batch(files) == Initial
    ensures Sum4(Batch(files).rawCounts) == 0 && Batch(files).written == []
  {
    if files != [] {
      UnreadableBatch(files[..|files| - 1]);
    }
  }

  /** Pixels equal to `v` over the readable files of a batch. */
  function TotalCount(files: seq<MaskFile>, v: int): nat
  {
    if files == [] then 0
    else
      var last := files[|files| - 1];
      TotalCount(files[..|files| - 1], v) + (if last.contents.Some? then Count(last.contents.value.data, v) else 0)
  }

  /** The histograms count exactly the pixels of every file that could be
      read: raw class v the pixels equal to v; new class 0 the raw 0s and
      2s, new class 1 the raw 1s, new class 2 the raw 3s. */
  lemma BatchHistograms(files: seq<MaskFile>)
    requires Readable(files)
    ensures forall v :: v in Batch(files).rawCounts ==> Batch(files).rawCounts[v] == TotalCount(files, v)
    ensures Batch(files).newCounts[0] == TotalCount(files, 0) + TotalCount(files, 2)
    ensures Batch(files).newCounts[1] == TotalCount(files, 1)
    ensures Batch(files).newCounts[2] == TotalCount(files, 3)
  {
    BatchRawHistogram(files);
    BatchNewHistogram(files);
  }

  /** The last file of a batch, read or not, seen from the batch before it. */
  lemma BatchLast(files: seq<MaskFile>)
    requires Readable(files) && files != []
    ensures Readable(files[..|files| - 1])
    ensures files[|files| - 1].contents.Some? ==>
      && Batch(files).rawCounts == RawTallied(Batch(files[..|files| - 1]).rawCounts, files[|files| - 1].contents.value.data)
      && Batch(files).newCounts == NewTallied(Batch(files[..|files| - 1]).newCounts, files[|files| - 1].contents.value.data)
    ensures files[|files| - 1].contents.None? ==> Batch(files) == Batch(files[..|files| - 1])
  {
    var init, last := files[..|files| - 1], files[|files| - 1];
    assert forall f :: f in init ==> f in files;
    var t := Batch(init);
    assert Batch(files) == Step(t, last);
    match last.contents
    case None =>
    case Some(raster) =>
      assert Step(t, last).rawCounts == RawTallied(t.rawCounts, raster.data);
  }

  lemma {:induction false} BatchRawHistogram(files: seq<MaskFile>)
    requires Readable(files)
    ensures forall v :: v in Batch(files).rawCounts ==> Batch(files).rawCounts[v] == TotalCount(files, v)
  {
    if files != [] {
      var init, last := files[..|files| - 1], files[|files| - 1];
      BatchLast(files);
      BatchRawHistogram(init);
    }
  }

  lemma {:induction false} BatchNewHistogram(files: seq<MaskFile>)
    requires Readable(files)
    ensures Batch(files).newCounts[0] == TotalCount(files, 0) + TotalCount(files, 2)
    ensures Batch(files).newCounts[1] == TotalCount(files, 1)
    ensures Batch(files).newCounts[2] == TotalCount(files, 3)
  {
    if files != [] {
      var init, last := files[..|files| - 1], files[|files| - 1];
      BatchLast(files);
      BatchNewHistogram(init);
    }
  }

  /** The files written are, in order, one per input that was read and
      written successfully. */
  function Successes(files: seq<MaskFile>): (ok: seq<MaskFile>)
    ensures forall g :: g in ok ==> g in files && g.contents.Some? && g.writeSucceeds
    ensures forall k :: 0 <= k < |files| && files[k].contents.Some? && files[k].writeSucceeds ==> files[k] in ok
    ensures |ok| <= |files|
  {
    if files == [] then []
    else
      var last := files[|files| - 1];
      Successes(files[..|files| - 1]) + (if last.contents.Some? && last.writeSucceeds then [last] else [])
  }

  lemma {:induction false} BatchOutputs(files: seq<MaskFile>)
    requires Readable(files)
    ensures Batch(files).processed == |Successes(files)|
    ensures WrittenFor(Batch(files).written, Successes(files))
  {
    if files != [] {
      var init, last := files[..|files| - 1], files[|files| - 1];
      BatchLast(files);
      BatchOutputs(init);
      var t := Batch(init);
      assert Batch(files) == Step(t, last);
      if last.contents.Some? && last.writeSucceeds {
        assert Successes(files) == Successes(init) + [last];
        WrittenForAppend(t.written, Successes(init), last);
      } else {
        assert Successes(files) == Successes(init);
      }
    }
  }

  /** `written` holds, in order, the output of each file of `ok`. */
  ghost predicate WrittenFor(written: seq<OutputRaster>, ok: seq<MaskFile>)
  {
    && |written| == |ok|
    && forall k :: 0 <= k < |ok| ==>
         && ok[k].contents.Some? && ok[k].contents.value.data.Valid()
         && written[k] == Output(ok[k])
  }

  lemma WrittenForAppend(written: seq<OutputRaster>, ok: seq<MaskFile>, f: MaskFile)
    requires WrittenFor(written, ok)
    requires f.contents.Some? && f.contents.value.data.Valid()
    ensures WrittenFor(written + [Output(f)], ok + [f])
  {
    var w, o := written + [Output(f)], ok + [f];
    forall k | 0 <= k < |o|
      ensures o[k].contents.Some? && o[k].contents.value.data.Valid() && w[k] == Output(o[k])
    {
      if k < |ok| {
        assert o[k] == ok[k] && w[k] == written[k];
      }
    }
  }

  /** Counting output classes in a ground truth: class 1 and class 2 are the
      raw 1s and 3s, but class 0 also holds every pixel whose raw code is
      outside the table, which the new histogram does not count. */
  function CountUnknownRow(row: seq<int>): nat
  {
    if row == [] then 0
    else CountUnknownRow(row[..|row| - 1]) + (if row[|row| - 1] !in ClassMapping then 1 else 0)
  }

  lemma {:induction false} RemapRowCounts(row: seq<int>, out: seq<int>)
    requires |out| == |row|
    requires forall k :: 0 <= k < |row| ==> out[k] == MapPixel(row[k])
    ensures CountRow(out, 0) == CountRow(row, 0) + CountRow(row, 2) + CountUnknownRow(row)
    ensures CountRow(out, 1) == CountRow(row, 1)
    ensures CountRow(out, 2) == CountRow(row, 3)
  {
    if row != [] {
      RemapRowCounts(row[..|row| - 1], out[..|out| - 1]);
    }
  }

  /** Pixels of `m` whose raw code is outside the table. */
  function CountUnknown(m: Matrix<int>): nat
  {
    CountUnknownRows(m.cells)
  }

  function CountUnknownRows(rows: seq<seq<int>>): nat
  {
    if rows == [] then 0 else CountUnknownRows(rows[..|rows| - 1]) + CountUnknownRow(rows[|rows| - 1])
  }

  lemma {:induction false} RemapRowsCounts(rows: seq<seq<int>>, out: seq<seq<int>>)
    requires |out| == |rows|
    requires forall r :: 0 <= r < |rows| ==> |out[r]| == |rows[r]|
    requires forall r, c :: 0 <= r < |rows| && 0 <= c < |rows[r]| ==> out[r][c] == MapPixel(rows[r][c])
    ensures CountRows(out, 0) == CountRows(rows, 0) + CountRows(rows, 2) + CountUnknownRows(rows)
    ensures CountRows(out, 1) == CountRows(rows, 1)
    ensures CountRows(out, 2) == CountRows(rows, 3)
  {
    if rows != [] {
      var n := |rows|;
      RemapRowsCounts(rows[..n - 1], out[..n - 1]);
      RemapRowCounts(rows[n - 1], out[n - 1]);
    }
  }

  lemma RemapCounts(m: Matrix<int>)
    requires m.Valid()
    ensures Count(Remapped(m), 0) == Count(m, 0) + Count(m, 2) + CountUnknown(m)
    ensures Count(Remapped(m), 1) == Count(m, 1)
    ensures Count(Remapped(m), 2) == Count(m, 3)
  {
    RemapRowsCounts(m.cells, Remapped(m).cells);
  }

  /** The raster as a value. */
  function Snapshot(a: array2<int>): (m: Matrix<int>)
    reads a
    ensures m.Valid() && m.height == a.Length0 && m.width == a.Length1
    ensures forall r, c :: 0 <= r < a.Length0 && 0 <= c < a.Length1 ==> m.cells[r][c] == a[r, c]
  {
    Matrix(a.Length0, a.Length1,
      seq(a.Length0, r requires 0 <= r < a.Length0 reads a =>
        seq(a.Length1, c requires 0 <= c < a.Length1 reads a => a[r, c])))
  }

  /** `np.unique` + the `if val in class_statistics` loop: every pixel whose
      value is a key of the histogram adds one to that key. */
  method TallyRaw(stats: map<int, nat>, m: Matrix<int>) returns (s: map<int, nat>)
    requires m.Valid()
    ensures s == RawTallied(stats, m)
  {
    s := stats;
    for r := 0 to m.height
      invariant s.Keys == stats.Keys
      invariant forall v :: v in s ==> s[v] == stats[v] + CountRows(m.cells[..r], v)
    {
      ghost var before := s;
      for c := 0 to m.width
        invariant s.Keys == stats.Keys
        invariant forall v :: v in s ==> s[v] == before[v] + CountRow(m.cells[r][..c], v)
      {
        var v := m.cells[r][c];
        assert m.cells[r][..c + 1][..c] == m.cells[r][..c];
        if v in s {
          s := s[v := s[v] + 1];
        }
      }
      assert m.cells[r][..m.width] == m.cells[r];
      assert m.cells[..r + 1][..r] == m.cells[..r];
    }
    assert m.cells[..m.height] == m.cells;
  }

  /** `ground_truth[cm1_data == from] = to`, returning `np.sum(mask)`. */
  method AssignWhere(gt: array2<int>, m: Matrix<int>, from: int, to: int) returns (n: nat)
    requires m.Valid() && gt.Length0 == m.height && gt.Length1 == m.width
    modifies gt
    ensures n == Count(m, from)
    ensures forall r, c :: 0 <= r < m.height && 0 <= c < m.width ==>
      gt[r, c] == if m.cells[r][c] == from then to else old(gt[r, c])
  {
    n := 0;
    for r := 0 to m.height
      invariant n == CountRows(m.cells[..r], from)
      invariant forall i, j :: 0 <= i < m.height && 0 <= j < m.width ==>
        gt[i, j] == if i < r && m.cells[i][j] == from then to else old(gt[i, j])
    {
      for c := 0 to m.width
        invariant n == CountRows(m.cells[..r], from) + CountRow(m.cells[r][..c], from)
        invariant forall i, j :: 0 <= i < m.height && 0 <= j < m.width ==>
          gt[i, j] == if (i < r || (i == r && j < c)) && m.cells[i][j] == from then to else old(gt[i, j])
      {
        assert m.cells[r][..c + 1][..c] == m.cells[r][..c];
        if m.cells[r][c] == from {
          gt[r, c] := to;
          n := n + 1;
        }
      }
      assert m.cells[r][..m.width] == m.cells[r];
      assert m.cells[..r + 1][..r] == m.cells[..r];
    }
    assert m.cells[..m.height] == m.cells;
  }

  /** A pixel of the ground truth after the first `q` masked assignments. */
  function AfterPasses(v: int, q: nat): int
  {
    if 0 <= v < q then MapPixel(v) else 0
  }

  /** One more masked assignment; after all four, every pixel is mapped. */
  lemma AfterPassesStep(q: nat)
    requires q < |RawClasses|
    ensures forall v :: AfterPasses(v, q + 1) == if v == RawClasses[q] then ClassMapping[RawClasses[q]] else AfterPasses(v, q)
    ensures forall v :: AfterPasses(v, |RawClasses|) == MapPixel(v)
  {
    assert RawClasses[q] == q && q in ClassMapping;
    forall v
      ensures AfterPasses(v, q + 1) == if v == RawClasses[q] then ClassMapping[RawClasses[q]] else AfterPasses(v, q)
    {
      if v == q {
        assert MapPixel(v) == ClassMapping[q];
      }
    }
  }

  /** One entry `old_class -> new_class` of the table: the masked assignment
      and the histogram update. */
  method RemapPass(gt: array2<int>, data: Matrix<int>, newCounts: map<int, nat>, q: nat, counts: map<int, nat>)
    returns (next: map<int, nat>)
    requires data.Valid() && gt.Length0 == data.height && gt.Length1 == data.width
    requires newCounts.Keys == {0, 1, 2} && q < |RawClasses|
    requires counts == NewTalliedPasses(newCounts, data, q)
    requires forall i, j :: 0 <= i < data.height && 0 <= j < data.width ==>
      gt[i, j] == AfterPasses(data.cells[i][j], q)
    modifies gt
    ensures next == NewTalliedPasses(newCounts, data, q + 1)
    ensures forall i, j :: 0 <= i < data.height && 0 <= j < data.width ==>
      gt[i, j] == AfterPasses(data.cells[i][j], q + 1)
  {
    AfterPassesStep(q);
    assert RawClasses[q] == q && q in ClassMapping;
    var from := RawClasses[q];
    var to := ClassMapping[from];
    var n := AssignWhere(gt, data, from, to);
    NewTalliedPassesStep(newCounts, data, q, counts, n);
    next := counts[to := counts[to] + n];
  }

  /** Build the ground truth of one raw mask: a zero-initialised uint8
      raster and one masked assignment per table entry, each adding its mask's
      size to the new-class histogram. */
  method RemapRaster(data: Matrix<int>, newCounts: map<int, nat>) returns (gt: array2<int>, counts: map<int, nat>)
    requires data.Valid()
    requires newCounts.Keys == {0, 1, 2}
    ensures fresh(gt)
    ensures Snapshot(gt) == Remapped(data)
    ensures counts == NewTallied(newCounts, data)
  {
    gt := new int[data.height, data.width]((i, j) => 0);
    counts := newCounts;
    for q := 0 to |RawClasses|
      invariant counts == NewTalliedPasses(newCounts, data, q)
      invariant forall i, j :: 0 <= i < data.height && 0 <= j < data.width ==>
        gt[i, j] == AfterPasses(data.cells[i][j], q)
    {
      counts := RemapPass(gt, data, newCounts, q, counts);
    }
    NewTalliedPassesComplete(newCounts, data);
    AllPassesRemap(gt, data);
  }

  /** After the four masked assignments the array holds the remapped mask. */
  lemma AllPassesRemap(gt: array2<int>, data: Matrix<int>)
    requires data.Valid() && gt.Length0 == data.height && gt.Length1 == data.width
    requires forall i, j :: 0 <= i < data.height && 0 <= j < data.width ==>
      gt[i, j] == AfterPasses(data.cells[i][j], |RawClasses|)
    ensures Snapshot(gt) == Remapped(data)
  {
    AfterPassesStep(0);
    SameMatrix(Snapshot(gt), Remapped(data));
  }

  /** The batch loop. Every output is written file by file; afterwards the
      distribution printout divides by the raw total, which raises when no
      pixel of the batch was tallied (`None`). Otherwise the new-class
      histogram is returned (the raw histogram and the processed count are
      only printed). */
  method PreprocessCm1Masks(files: seq<MaskFile>) returns (result: Option<map<int, nat>>, written: seq<OutputRaster>)
    requires Readable(files)
    ensures written == Batch(files).written
    ensures result.None? <==> Sum4(Batch(files).rawCounts) == 0
    ensures result.Some? ==> result.value == Batch(files).newCounts && result.value.Keys == {0, 1, 2}
  {
    var rawCounts: map<int, nat> := map[0 := 0, 1 := 0, 2 := 0, 3 := 0];
    var newCounts: map<int, nat> := map[0 := 0, 1 := 0, 2 := 0];
    var processed: nat := 0;
    written := [];
    for k := 0 to |files|
      invariant Tallies(rawCounts, newCounts, processed, written) == Batch(files[..k])
    {
      var f := files[k];
      assert files[..k + 1][..k] == files[..k];
      match f.contents {
        case None =>
          // reading raised: the file is skipped
        case Some(raster) =>
          rawCounts := TallyRaw(rawCounts, raster.data);
          var gt;
          gt, newCounts := RemapRaster(raster.data, newCounts);
          if f.writeSucceeds {
            written := written + [OutputRaster(OutputName(f.stem), Snapshot(gt), OutputProfile(raster.profile))];
            processed := processed + 1;
          }
      }
    }
    assert files[..|files|] == files;
    // total_original == 0 makes the first percentage a division by zero;
    // by BatchConservation total_new is then the only other divisor, and
    // it equals total_original
    if rawCounts[0] + rawCounts[1] + rawCounts[2] + rawCounts[3] == 0 {
      result := None;
    } else {
      result := Some(newCounts);
    }
  }
}
