/**
 * MergeTifTool.SaveTiffs: every batch of single-page containers is merged
 * into one TIFF, written to folder + timestamp + "_" + key + ".tif", and then
 * written again over the same path with the Tiff1Bpp profile.
 */
module Consolidation {
  import opened Wrappers
  import opened EncodingFormats
  import opened Codec
  import opened Containers
  import opened Tiffs
  import Naming
  import Batching

  /** string.Format("{0}_{1}.tif", stamp, key) appended to the folder by plain concatenation. */
  function BatchPath(folder: string, stamp: string, key: int): string
  {
    folder + stamp + "_" + Naming.FormatD(key, 0) + ".tif"
  }

  /** The batch of each key, in enumeration order. */
  function Batches(splitDic: map<int, seq<Arg>>, keys: seq<int>): (r: seq<seq<Arg>>)
    requires forall i :: 0 <= i < |keys| ==> keys[i] in splitDic
    ensures |r| == |keys| && forall i :: 0 <= i < |keys| ==> r[i] == splitDic[keys[i]]
  {
    seq(|keys|, i requires 0 <= i < |keys| => splitDic[keys[i]])
  }

  /** The file of each key, in enumeration order. */
  function Paths(folder: string, stamps: seq<string>, keys: seq<int>): (r: seq<string>)
    requires |keys| <= |stamps|
    ensures |r| == |keys| && forall i :: 0 <= i < |keys| ==> r[i] == BatchPath(folder, stamps[i], keys[i])
  {
    seq(|keys|, i requires 0 <= i < |keys| => BatchPath(folder, stamps[i], keys[i]))
  }

  /** What the disk holds after a run, and whether the run completed or what it threw. */
  datatype Saved = Saved(files: Files, result: Result<()>)

  /**
   * One batch: the static Merge of its images, then the two saves. The first
   * exception ends it.
   */
  function SaveBatch(files: Files, batch: seq<Arg>, dest: string): Saved
  {
    StaticMergeValid(files, batch);
    match StaticMerge(files, batch)
    case Failure(e) => Saved(files, Failure(e))
    case Success(st) => SaveTwice(st, files, dest)
  }

  /** SaveTo(path), then SaveTo(Tiff1Bpp, path), on the merged container; Dispose touches no file. */
  function SaveTwice(st: Fields, files: Files, dest: string): Saved
    requires st.Valid()
  {
    var s1 := SaveToStep(InMemory, TiffRegularProfile, st, files, dest);
    if s1.result.Failure? then Saved(s1.files, s1.result)
    else
      var s2 := SaveToFormatStep(InMemory, s1.after, s1.files, Tiff1BppProfile, dest);
      Saved(s2.files, s2.result)
  }

  /** The loop body: what one batch does to the disk. */
  type BatchStep = (Files, seq<Arg>, string) -> Saved

  /**
   * The first n batches, each saved by `step` to its own path; an exception
   * stops the loop. SaveTiffs runs it with SaveBatch.
   */
  function SaveAll(step: BatchStep, files: Files, batches: seq<seq<Arg>>, paths: seq<string>, n: nat): Saved
    requires n <= |batches| == |paths|
  {
    if n == 0 then Saved(files, Success(()))
    else
      var prev := SaveAll(step, files, batches, paths, n - 1);
      if prev.result.Failure? then prev
      else step(prev.files, batches[n - 1], paths[n - 1])
  }

  /** `step` is SaveBatch, stated point by point so that only SaveBatch's own terms unfold it. */
  ghost predicate IsSaveBatch(step: BatchStep)
  {
    forall files, batch, dest {:trigger SaveBatch(files, batch, dest)} :: step(files, batch, dest) == SaveBatch(files, batch, dest)
  }

  /** One pass of the loop body: Merge, SaveTo(path), SaveTo(Tiff1Bpp, path), Dispose. */
  method SaveOne(ghost step: BatchStep, disk: Disk, batch: seq<Arg>, dest: string) returns (r: Result<()>)
    requires IsSaveBatch(step)
    modifies disk
    ensures Saved(disk.files, r) == step(old(disk.files), batch, dest)
  {
    assert step(disk.files, batch, dest) == SaveBatch(disk.files, batch, dest);
    var merged := MergeImages(disk, TiffRegularProfile, batch);
    if merged.Failure? {
      return Failure(merged.error);
    }
    var tiff := merged.value;
    StaticMergeValid(disk.files, batch);
    var raw := tiff.SaveTo(disk, dest);
    if raw.Failure? {
      return Failure(raw.error);
    }
    var bpp1 := tiff.SaveToFormat(disk, Tiff1BppProfile, dest);
    if bpp1.Failure? {
      return Failure(bpp1.error);
    }
    tiff.Dispose();
    r := Success(());
  }

  /**
   * SaveTiffs(splitDic, folder). `keys` is the order in which the dictionary
   * enumerates its keys and `stamps[i]` is DateTime.Now.ToString("yyyyMMddHHmmss")
   * when key i is reached. The TiffEncodingFormat built for each batch is not
   * allocated: Merge does not read it.
   */
  method SaveTiffs(disk: Disk, splitDic: map<int, seq<Arg>>, keys: seq<int>, folder: string, stamps: seq<string>)
    returns (r: Result<()>)
    requires |keys| <= |stamps| && forall i :: 0 <= i < |keys| ==> keys[i] in splitDic
    modifies disk
    ensures Saved(disk.files, r) == SaveAll(SaveBatch, old(disk.files), Batches(splitDic, keys), Paths(folder, stamps, keys), |keys|)
  {
    r := SaveEvery(SaveBatch, disk, splitDic, keys, folder, stamps);
  }

  /** The loop of SaveTiffs, with its body `step` kept abstract. */
  method SaveEvery(ghost step: BatchStep, disk: Disk, splitDic: map<int, seq<Arg>>, keys: seq<int>, folder: string, stamps: seq<string>)
    returns (r: Result<()>)
    requires |keys| <= |stamps| && forall i :: 0 <= i < |keys| ==> keys[i] in splitDic
    requires IsSaveBatch(step)
    modifies disk
    ensures Saved(disk.files, r) == SaveAll(step, old(disk.files), Batches(splitDic, keys), Paths(folder, stamps, keys), |keys|)
  {
    ghost var batches, paths := Batches(splitDic, keys), Paths(folder, stamps, keys);
    r := Success(());
    var k := 0;
    while k < |keys| && r.Success?
      invariant 0 <= k <= |keys|
      invariant SaveAll(step, old(disk.files), batches, paths, k) == Saved(disk.files, r)
    {
      var key := keys[k];
      r := SaveOne(step, disk, splitDic[key], BatchPath(folder, stamps[k], key));
      k := k + 1;
    }
    if r.Failure? {
      SaveAllStops(step, old(disk.files), batches, paths, k, |keys|);
    }
  }

  /** Once a batch has thrown, later batches change nothing. */
  lemma {:induction false} SaveAllStops(step: BatchStep, files: Files, batches: seq<seq<Arg>>, paths: seq<string>, n: nat, m: nat)
    requires n <= m <= |batches| == |paths|
    requires SaveAll(step, files, batches, paths, n).result.Failure?
    ensures SaveAll(step, files, batches, paths, m) == SaveAll(step, files, batches, paths, n)
    decreases m - n
  {
    if m > n {
      SaveAllStops(step, files, batches, paths, n, m - 1);
    }
  }

  /**
   * A batch of images with at least one page leaves its file holding the
   * Tiff1Bpp encoding of all its pages, in order: the second write replaces
   * the first. No other file changes.
   */
  lemma SaveBatchMeaning(files: Files, batch: seq<Arg>, dest: string)
    requires AllImages(batch) && |Frames(batch)| > 0
    ensures SaveBatch(files, batch, dest) == Saved(files[dest := Cells(MergeTrace(Tiff1BppProfile, Frames(batch)))], Success(()))
  {
    StaticMergeMeaning(files, batch);
    SaveTwiceMeaning(StaticMerge(files, batch).value, files, dest, Frames(batch));
  }

  /**
   * The buffer of a merge is written out whole, then the file is recreated
   * with the Tiff1Bpp encoding of the pages it decodes to.
   */
  lemma SaveTwiceMeaning(st: Fields, files: Files, dest: string, f: seq<Page>)
    requires st.Valid() && st.image.None? && |f| > 0
    requires st.memoryStream.Some? && st.memoryStream.value.data == MergeTrace(TiffRegularProfile, f)
    requires Load(InMemory, st, files).arg == Img(f)
    ensures SaveTwice(st, files, dest) == Saved(files[dest := Cells(MergeTrace(Tiff1BppProfile, f))], Success(()))
  {
    var ms := st.memoryStream.value;
    assert |MergeTrace(TiffRegularProfile, f)| > 0 by { MergeTraceShape(TiffRegularProfile, f); }
    assert ms.open && ms.capacity > 0;
    SaveToMeaning(InMemory, TiffRegularProfile, st, files, dest);
    var files1 := files[dest := GetBuffer(ms)];
    var l := Load(InMemory, st, files1[dest := []]);
    assert l == Load(InMemory, st, files);
    LoadCaches(InMemory, st, files1[dest := []], files1[dest := []]);
    assert Frames([]) == [] && f + [] == f;
    MergeIntoFile(InMemory, Tiff1BppProfile, l.after, files1, dest, []);
    assert files1[dest := Cells(MergeTrace(Tiff1BppProfile, f))] == files[dest := Cells(MergeTrace(Tiff1BppProfile, f))];
  }

  /** A step that throws, and writes nothing, on a batch without images. */
  ghost predicate StopsOnEmpty(step: BatchStep)
  {
    forall files, dest :: step(files, [], dest) == Saved(files, Failure(EmptyInput))
  }

  /** A batch without pages throws in First() before anything is written. */
  lemma SaveBatchEmpty()
    ensures StopsOnEmpty(SaveBatch)
  {
    forall files, dest
      ensures SaveBatch(files, [], dest) == Saved(files, Failure(EmptyInput))
    {
    }
  }

  /** Different keys give different paths when the timestamps have the same length. */
  lemma BatchPathsDistinct(folder: string, s: string, t: string, a: int, b: int)
    requires |s| == |t| && a != b
    ensures BatchPath(folder, s, a) != BatchPath(folder, t, b)
  {
    if BatchPath(folder, s, a) == BatchPath(folder, t, b) {
      var da, db := Naming.FormatD(a, 0), Naming.FormatD(b, 0);
      var p, q := BatchPath(folder, s, a), BatchPath(folder, t, b);
      var head := |folder| + |s| + 1;
      assert p[head..|p| - 4] == da;
      assert q[head..|q| - 4] == db;
      Naming.FormatDInjective(a, b, 0);
      assert false;
    }
  }

  /** "yyyyMMddHHmmss": fourteen characters for every year from 1000 to 9999. */
  predicate Stamped(stamps: seq<string>)
  {
    forall i :: 0 <= i < |stamps| ==> |stamps[i]| == 14
  }

  /** Dictionary keys: no key twice. */
  predicate DistinctKeys(keys: seq<int>)
  {
    forall i, j :: 0 <= i < j < |keys| ==> keys[i] != keys[j]
  }

  predicate DistinctPaths(paths: seq<string>)
  {
    forall i, j :: 0 <= i < j < |paths| ==> paths[i] != paths[j]
  }

  /** Distinct keys give distinct files when every timestamp has the same length. */
  lemma PathsDistinct(folder: string, stamps: seq<string>, keys: seq<int>)
    requires |keys| <= |stamps| && Stamped(stamps) && DistinctKeys(keys)
    ensures DistinctPaths(Paths(folder, stamps, keys))
  {
    var paths := Paths(folder, stamps, keys);
    forall i, j | 0 <= i < j < |paths|
      ensures paths[i] != paths[j]
    {
      BatchPathsDistinct(folder, stamps[i], stamps[j], keys[i], keys[j]);
    }
  }

  /** Every batch is a non-empty list of images. */
  predicate Mergeable(batches: seq<seq<Arg>>)
  {
    forall i :: 0 <= i < |batches| ==> AllImages(batches[i]) && |Frames(batches[i])| > 0
  }

  /** A step that writes each non-empty batch of images to its own path, as SaveBatchMeaning shows of SaveBatch. */
  ghost predicate WritesBatches(step: BatchStep)
  {
    forall files, batch, dest :: AllImages(batch) && |Frames(batch)| > 0 ==>
      step(files, batch, dest) == Saved(files[dest := Cells(MergeTrace(Tiff1BppProfile, Frames(batch)))], Success(()))
  }

  lemma SaveBatchWrites()
    ensures WritesBatches(SaveBatch)
  {
    forall files, batch, dest | AllImages(batch) && |Frames(batch)| > 0
      ensures SaveBatch(files, batch, dest) == Saved(files[dest := Cells(MergeTrace(Tiff1BppProfile, Frames(batch)))], Success(()))
    {
      SaveBatchMeaning(files, batch, dest);
    }
  }

  /** The loop with such a step completes, and a file none of the batches names keeps its content. */
  lemma {:induction false} SaveAllKeeps(step: BatchStep, files: Files, batches: seq<seq<Arg>>, paths: seq<string>, n: nat)
    requires n <= |batches| == |paths|
    requires WritesBatches(step) && Mergeable(batches)
    ensures var s := SaveAll(step, files, batches, paths, n);
      && s.result.Success?
      && (forall p :: p in files && (forall i :: 0 <= i < n ==> p != paths[i]) ==> p in s.files && s.files[p] == files[p])
  {
    if n > 0 {
      SaveAllKeeps(step, files, batches, paths, n - 1);
      var prev := SaveAll(step, files, batches, paths, n - 1);
      var batch, dest := batches[n - 1], paths[n - 1];
      var written := Cells(MergeTrace(Tiff1BppProfile, Frames(batch)));
      assert SaveAll(step, files, batches, paths, n) == Saved(prev.files[dest := written], Success(()));
      forall p | p in files && (forall i :: 0 <= i < n ==> p != paths[i])
        ensures p in prev.files[dest := written] && prev.files[dest := written][p] == files[p]
      {
        assert p != dest;
        OtherKey(prev.files, dest, written, p);
      }
    }
  }

  /** With distinct paths, no later batch overwrites an earlier one's file. */
  lemma {:induction false} SaveAllWrites(step: BatchStep, files: Files, batches: seq<seq<Arg>>, paths: seq<string>, n: nat)
    requires n <= |batches| == |paths|
    requires WritesBatches(step) && Mergeable(batches) && DistinctPaths(paths)
    ensures var s := SaveAll(step, files, batches, paths, n);
      forall i :: 0 <= i < n ==> paths[i] in s.files && s.files[paths[i]] == Cells(MergeTrace(Tiff1BppProfile, Frames(batches[i])))
  {
    if n > 0 {
      SaveAllWrites(step, files, batches, paths, n - 1);
      SaveAllKeeps(step, files, batches, paths, n - 1);
      var prev := SaveAll(step, files, batches, paths, n - 1);
      var batch, dest := batches[n - 1], paths[n - 1];
      var written := Cells(MergeTrace(Tiff1BppProfile, Frames(batch)));
      assert SaveAll(step, files, batches, paths, n) == Saved(prev.files[dest := written], Success(()));
      forall i | 0 <= i < n - 1
        ensures paths[i] in prev.files[dest := written]
        ensures prev.files[dest := written][paths[i]] == Cells(MergeTrace(Tiff1BppProfile, Frames(batches[i])))
      {
        OtherKey(prev.files, dest, written, paths[i]);
      }
    }
  }

  /**
   * When every batch is a non-empty list of images, SaveTiffs completes; the
   * file of key keys[i] holds the Tiff1Bpp encoding of its batch (distinct
   * keys never share a file, so a later batch never overwrites it) and every
   * other file is unchanged.
   */
  lemma SaveAllMeaning(files: Files, splitDic: map<int, seq<Arg>>, keys: seq<int>, folder: string, stamps: seq<string>)
    requires |keys| <= |stamps| && forall i :: 0 <= i < |keys| ==> keys[i] in splitDic
    requires Stamped(stamps) && DistinctKeys(keys)
    requires forall i :: 0 <= i < |keys| ==> AllImages(splitDic[keys[i]]) && |Frames(splitDic[keys[i]])| > 0
    ensures var s := SaveAll(SaveBatch, files, Batches(splitDic, keys), Paths(folder, stamps, keys), |keys|);
      && s.result.Success?
      && (forall i :: 0 <= i < |keys| ==>
            var p := BatchPath(folder, stamps[i], keys[i]);
            p in s.files && s.files[p] == Cells(MergeTrace(Tiff1BppProfile, Frames(splitDic[keys[i]]))))
      && (forall p :: p in files && (forall i :: 0 <= i < |keys| ==> p != BatchPath(folder, stamps[i], keys[i])) ==>
            p in s.files && s.files[p] == files[p])
  {
    var batches, paths := Batches(splitDic, keys), Paths(folder, stamps, keys);
    SaveBatchWrites();
    PathsDistinct(folder, stamps, keys);
    SaveAllKeeps(SaveBatch, files, batches, paths, |keys|);
    SaveAllWrites(SaveBatch, files, batches, paths, |keys|);
  }

  /** A batch without pages makes its Merge throw in First(), and nothing after it is written. */
  lemma EmptyBatchStops(step: BatchStep, files: Files, batches: seq<seq<Arg>>, paths: seq<string>, j: nat)
    requires j < |batches| == |paths|
    requires StopsOnEmpty(step)
    requires SaveAll(step, files, batches, paths, j).result.Success?
    requires batches[j] == []
    ensures var prev := SaveAll(step, files, batches, paths, j);
      SaveAll(step, files, batches, paths, |batches|) == Saved(prev.files, Failure(EmptyInput))
  {
    SaveAllStops(step, files, batches, paths, j + 1, |batches|);
  }

  /**
   * As written, MergeTiffFromMemories followed by SaveTiffs saves nothing when
   * the first page alone is over the cap (or there is no page): batch 0 is
   * empty and its Merge throws before any file is written.
   */
  lemma OversizedFirstPageSavesNothing(memories: seq<Arg>, size: Arg -> nat, files: Files, folder: string, stamps: seq<string>)
    requires |memories| == 0 || Batching.IsOverload(size(memories[0]))
    requires |Batching.Run(memories, size).batches| <= |stamps|
    ensures var b := Batching.Run(memories, size).batches;
      var keys := Range(|b|);
      SaveAll(SaveBatch, files, Batches(Batching.AsMap(b), keys), Paths(folder, stamps, keys), |b|) == Saved(files, Failure(EmptyInput))
  {
    var b := Batching.Run(memories, size).batches;
    var keys := Range(|b|);
    Batching.FirstBatchEmpty(memories, size);
    SaveBatchEmpty();
    EmptyBatchStops(SaveBatch, files, Batches(Batching.AsMap(b), keys), Paths(folder, stamps, keys), 0);
  }
}
