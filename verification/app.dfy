/** The page controller: it holds the selection, the converted files and the
    step the page is on (`upload`, `processing`, `done`), starts a batch,
    computes the statistics shown when it is done, hands the converted files
    to the archive writer and resets. */
module App {
  import opened CompressionTypes
  import ImageCompression
  import WebpName
  import DropZone

  /** The `step` state. */
  datatype Phase = Upload | Processing | Done

  /** Everything the page holds, together with the compression hook's state. */
  datatype AppState = AppState(
    files: seq<File>,
    processedFiles: seq<File>,
    step: Phase,
    quality: real,
    maxSize: real,
    hook: ImageCompression.Hook)

  /** The page as it is first shown: nothing selected, quality 0.8, 1 MB. */
  const InitialState: AppState :=
    AppState([], [], Upload, 0.8, 1.0, ImageCompression.InitialHook)

  /** `handleFilesSelected`: the new selection replaces the old one. */
  function HandleFilesSelected(app: AppState, selected: seq<File>): (r: AppState)
    ensures r.files == selected
    ensures r.processedFiles == app.processedFiles && r.step == app.step && r.hook == app.hook
    ensures r.quality == app.quality && r.maxSize == app.maxSize
  {
    app.(files := selected)
  }

  /** The drop zone's `onFilesSelected` is wired to `handleFilesSelected`; a
      handler that does not call it leaves the page as it was. */
  function Deliver(app: AppState, e: DropZone.Effect): (r: AppState)
    ensures e.selected.None? ==> r == app
    ensures e.selected.Some? ==> r.files == e.selected.value && r == app.(files := r.files)
  {
    match e.selected
    case Some(selected) => HandleFilesSelected(app, selected)
    case None => app
  }

  /** A drop that leaves no image, or that lands on a disabled area, keeps
      the previous selection; any other drop replaces it with its images. */
  lemma DropKeepsOrReplacesSelection(app: AppState, dz: DropZone.DropZoneState, disabled: bool, dropped: seq<File>)
    ensures (disabled || DropZone.FilterImages(dropped) == [])
              ==> Deliver(app, DropZone.HandleDrop(dz, disabled, dropped)) == app
    ensures (!disabled && DropZone.FilterImages(dropped) != [])
              ==> Deliver(app, DropZone.HandleDrop(dz, disabled, dropped)).files == DropZone.FilterImages(dropped)
  {
  }

  /** The configuration `handleStart` builds from the page's settings. */
  function StartConfig(app: AppState): (c: CompressionConfig)
    ensures c.maxSizeMB == app.maxSize
    ensures c.initialQuality == Some(app.quality)
    ensures c.useWebWorker
    ensures c.maxWidthOrHeight == None
  {
    CompressionConfig(app.maxSize, None, true, Some(app.quality))
  }

  /** The page while the codec works on file `k` of a non-empty selection:
      the step is `processing`, files `0..k-1` have settled entries, file `k`
      has its pending entry, and progress is where the last finished file
      left it. */
  function InFlight(app: AppState, outcomes: ImageCompression.Outcomes, k: nat): (r: AppState)
    requires |outcomes| == |app.files| && k < |app.files|
    ensures r.step == Processing
    ensures r.files == app.files && r.processedFiles == app.processedFiles
    ensures r.hook.isCompressing && |r.hook.logs| == k + 1
    ensures r.hook.progress == if k == 0 then 0 else ImageCompression.Percent(k, |app.files|)
    ensures forall i :: 0 <= i < k ==>
              ImageCompression.Describes(r.hook.logs[i], i, app.files[i], outcomes[i])
    ensures r.hook.logs[k] == CompressionLog(k, ImageCompression.ProcessingMessage(app.files[k].name),
                                             Pending, Some(app.files[k].size), None)
  {
    var run := ImageCompression.RunUpTo(app.files, outcomes, k);
    ImageCompression.RunUpToHook(app.files, outcomes, k);
    var next := ImageCompression.Announce(run, app.files[k]);
    assert forall i :: 0 <= i < k ==> next.hook.logs[i] == next.hook.logs[..k][i];
    app.(step := Processing, hook := next.hook)
  }

  /** The codec options a batch started from the page runs with: the page's
      size limit, no dimension limit, a web worker, and its quality unless
      that is 0, which falls back to 0.8. */
  lemma StartOptions(app: AppState)
    ensures ImageCompression.OptionsFor(StartConfig(app))
              == ImageCompression.CodecOptions(app.maxSize, None, true,
                   if app.quality != 0.0 then app.quality else ImageCompression.DefaultQuality)
  {
  }

  /** `handleStart`, run to completion. With nothing selected it does
      nothing; otherwise the batch runs over the selection, the codec (run
      with the options `StartOptions` describes) answers `outcomes`, and the
      page shows the result. */
  function HandleStart(app: AppState, outcomes: ImageCompression.Outcomes): (r: AppState)
    requires |outcomes| == |app.files|
    ensures |app.files| == 0 ==> r == app
    ensures |app.files| > 0 ==>
              && r.step == Done
              && r.files == app.files
              && ImageCompression.ListsSuccesses(r.processedFiles, app.files, outcomes, |app.files|)
              && !r.hook.isCompressing
              && r.hook.progress == 100
              && |r.hook.logs| == |app.files|
    ensures r.quality == app.quality && r.maxSize == app.maxSize
  {
    if |app.files| == 0 then app
    else
      var result := ImageCompression.CompressBatch(app.files, outcomes);
      app.(processedFiles := result.files, step := Done, hook := result.hook)
  }

  /** The statistics shown when a batch is done. */
  datatype Stats = Stats(totalFiles: nat, originalSize: nat, compressedSize: nat)

  /** `files.reduce((acc, file) => acc + file.size, 0)`. */
  function TotalSize(fs: seq<File>): (t: nat)
    ensures |fs| == 0 ==> t == 0
    ensures forall i :: 0 <= i < |fs| ==> fs[i].size <= t
    decreases |fs|
  {
    if |fs| == 0 then 0 else TotalSize(fs[..|fs| - 1]) + fs[|fs| - 1].size
  }

  /** The bytes the codec produced for the files below `k` it converted. */
  function ConvertedBytes(outcomes: ImageCompression.Outcomes, k: nat): nat
    requires k <= |outcomes|
    decreases k
  {
    if k == 0 then 0
    else ConvertedBytes(outcomes, k - 1) + (if outcomes[k - 1].Some? then outcomes[k - 1].value else 0)
  }

  /** `calculateStats`. The original size counts every selected file, also
      those the codec rejected. */
  function CalculateStats(app: AppState): (s: Stats)
    ensures s.totalFiles == |app.processedFiles|
    ensures s.originalSize == TotalSize(app.files)
    ensures s.compressedSize == TotalSize(app.processedFiles)
  {
    Stats(|app.processedFiles|, TotalSize(app.files), TotalSize(app.processedFiles))
  }

  /** The collected files weigh exactly what the codec produced for them. */
  lemma {:induction false} CollectedSize(files: seq<File>, outcomes: ImageCompression.Outcomes, k: nat)
    requires |outcomes| == |files| && k <= |files|
    ensures TotalSize(ImageCompression.RunUpTo(files, outcomes, k).compressed) == ConvertedBytes(outcomes, k)
  {
    if k > 0 {
      CollectedSize(files, outcomes, k - 1);
      ImageCompression.CollectedStep(files, outcomes, k);
      var prev := ImageCompression.RunUpTo(files, outcomes, k - 1).compressed;
      var cur := ImageCompression.RunUpTo(files, outcomes, k).compressed;
      if outcomes[k - 1].Some? {
        var c := ImageCompression.Converted(files[k - 1], outcomes[k - 1].value);
        assert cur == prev + [c];
        TotalSizeAppend(prev, c);
        assert c.size == outcomes[k - 1].value;
      } else {
        assert cur == prev;
      }
    }
  }

  /** Adding a file adds its size. */
  lemma TotalSizeAppend(fs: seq<File>, f: File)
    ensures TotalSize(fs + [f]) == TotalSize(fs) + f.size
  {
    assert (fs + [f])[..|fs|] == fs;
  }

  /** After a batch the statistics count the converted files, the bytes the
      codec produced for them, and the bytes of the whole selection. */
  lemma StatsAfterStart(app: AppState, outcomes: ImageCompression.Outcomes)
    requires 0 < |app.files| && |outcomes| == |app.files|
    ensures var s := CalculateStats(HandleStart(app, outcomes));
            && s.totalFiles == |ImageCompression.SuccessIndices(outcomes, |app.files|)|
            && s.totalFiles <= |app.files|
            && s.originalSize == TotalSize(app.files)
            && s.compressedSize == ConvertedBytes(outcomes, |app.files|)
  {
    CollectedSize(app.files, outcomes, |app.files|);
  }

  /** The `(name, file)` pairs `generateAndDownloadZip` hands to the archive
      writer: every converted file under its own name. */
  function ZipEntries(app: AppState): (entries: seq<(string, File)>)
    ensures |entries| == |app.processedFiles|
    ensures forall i :: 0 <= i < |entries| ==>
              entries[i].1 == app.processedFiles[i] && entries[i].0 == app.processedFiles[i].name
  {
    seq(|app.processedFiles|, i requires 0 <= i < |app.processedFiles| =>
      (app.processedFiles[i].name, app.processedFiles[i]))
  }

  /** After a batch the archive receives one WebP file per converted input,
      in input order, each named after its input with `.webp`. */
  lemma ArchiveAfterStart(app: AppState, outcomes: ImageCompression.Outcomes)
    requires 0 < |app.files| && |outcomes| == |app.files|
    ensures var entries := ZipEntries(HandleStart(app, outcomes));
            var idx := ImageCompression.SuccessIndices(outcomes, |app.files|);
            && |entries| == |idx|
            && forall j :: 0 <= j < |entries| ==>
                 && entries[j].0 == WebpName.OutputName(app.files[idx[j]].name)
                 && entries[j].1.mime == ImageCompression.WebpMime
                 && entries[j].1.size == outcomes[idx[j]].value
  {
  }

  /** Two selected images `a.png` and `a.jpg` that both convert reach the
      archive writer under the same name `a.webp`. */
  lemma ArchiveNameClash(app: AppState, png: File, jpg: File, outcomes: ImageCompression.Outcomes)
    requires png.name == "a.png" && jpg.name == "a.jpg"
    requires app.files == [png, jpg] && |outcomes| == 2
    requires outcomes[0].Some? && outcomes[1].Some?
    ensures var entries := ZipEntries(HandleStart(app, outcomes));
            |entries| == 2 && entries[0].0 == entries[1].0 == "a.webp"
  {
    var idx := ImageCompression.SuccessIndices(outcomes, 2);
    assert 0 in idx && 1 in idx;
    assert idx == [0, 1];
    WebpName.OutputNameNotInjective();
    ArchiveAfterStart(app, outcomes);
  }

  /** `handleReset`: selection and results are dropped and the page goes back
      to `upload`; the log stays until the next batch starts. */
  function HandleReset(app: AppState): (r: AppState)
    ensures r.files == [] && r.processedFiles == [] && r.step == Upload
    ensures r.hook == app.hook
    ensures r.quality == app.quality && r.maxSize == app.maxSize
    ensures CalculateStats(r) == Stats(0, 0, 0)
    ensures HandleStart(r, []) == r
  {
    app.(files := [], processedFiles := [], step := Upload)
  }

  /** What the page keeps true whatever the user does: it holds only images
      as its selection and only WebP files named `*.webp` as its results. */
  predicate Consistent(app: AppState) {
    && (forall i :: 0 <= i < |app.files| ==> DropZone.IsImage(app.files[i]))
    && (forall i :: 0 <= i < |app.processedFiles| ==>
          var f := app.processedFiles[i];
          && f.mime == ImageCompression.WebpMime
          && |f.name| >= |WebpName.Suffix|
          && f.name[|f.name| - |WebpName.Suffix|..] == WebpName.Suffix)
  }

  /** A selection handler that only ever passes images on keeps the page
      consistent. */
  lemma DeliverKeepsConsistent(app: AppState, e: DropZone.Effect)
    requires Consistent(app)
    requires e.selected.Some? ==> forall i :: 0 <= i < |e.selected.value| ==> DropZone.IsImage(e.selected.value[i])
    ensures Consistent(Deliver(app, e))
  {
  }

  /** A batch keeps the page consistent: the selection is untouched and the
      results are WebP files. */
  lemma StartKeepsConsistent(app: AppState, outcomes: ImageCompression.Outcomes)
    requires Consistent(app) && |outcomes| == |app.files|
    ensures Consistent(HandleStart(app, outcomes))
  {
    if 0 < |app.files| {
      var r := HandleStart(app, outcomes);
      var idx := ImageCompression.SuccessIndices(outcomes, |app.files|);
      forall i | 0 <= i < |r.processedFiles|
        ensures r.processedFiles[i].mime == ImageCompression.WebpMime
        ensures |r.processedFiles[i].name| >= |WebpName.Suffix|
        ensures r.processedFiles[i].name[|r.processedFiles[i].name| - |WebpName.Suffix|..] == WebpName.Suffix
      {
        assert r.processedFiles[i] == ImageCompression.Converted(app.files[idx[i]], outcomes[idx[i]].value);
      }
    }
  }

  /** Every user action keeps the page consistent, starting from the first
      page shown. */
  lemma ConsistentPreserved(app: AppState, dz: DropZone.DropZoneState, disabled: bool,
                            dropped: seq<File>, chosen: Option<seq<File>>,
                            outcomes: ImageCompression.Outcomes)
    requires Consistent(app) && |outcomes| == |app.files|
    ensures Consistent(InitialState)
    ensures Consistent(Deliver(app, DropZone.HandleDrop(dz, disabled, dropped)))
    ensures Consistent(Deliver(app, DropZone.HandleFileInput(dz, chosen)))
    ensures Consistent(Deliver(app, DropZone.ClearSelection(dz)))
    ensures Consistent(HandleStart(app, outcomes))
    ensures Consistent(HandleReset(app))
  {
    DeliverKeepsConsistent(app, DropZone.HandleDrop(dz, disabled, dropped));
    DeliverKeepsConsistent(app, DropZone.HandleFileInput(dz, chosen));
    DeliverKeepsConsistent(app, DropZone.ClearSelection(dz));
    StartKeepsConsistent(app, outcomes);
  }
}
