/** The batch compressor hook: a sequential loop over the selected files that
    logs each file as pending, asks the codec to convert it, records success
    or failure in the log, keeps the converted files and reports progress.

    The codec is a foreign library. Its answers are an input here: one entry
    per file, `Some(size)` when it produced an image of `size` bytes and
    `None` when it threw. */
module ImageCompression {
  import opened CompressionTypes
  import WebpName

  /** The MIME type every converted file is given. */
  const WebpMime: string := "image/webp"

  /** The quality the codec is asked for when the configuration gives none. */
  const DefaultQuality: real := 0.8

  /** The per-file answers of the codec, one per input file. */
  type Outcomes = seq<Option<nat>>

  /** The options object handed to the codec for every file of a batch. */
  datatype CodecOptions = CodecOptions(
    maxSizeMB: real,
    maxWidthOrHeight: Option<real>,
    useWebWorker: bool,
    initialQuality: real)

  /** The state the hook exposes to the page. */
  datatype Hook = Hook(isCompressing: bool, progress: nat, logs: seq<CompressionLog>)

  /** The hook's state before any batch has run. */
  const InitialHook: Hook := Hook(false, 0, [])

  /** The loop's state: the exposed hook state, the number of files processed
      so far and the converted files collected so far. */
  datatype Run = Run(hook: Hook, processed: nat, compressed: seq<File>)

  /** What a batch hands back: the hook state after the loop and the
      converted files. */
  datatype BatchResult = BatchResult(hook: Hook, files: seq<File>)

  /** The options of lines 19-27: the configuration's fields are passed on,
      and a missing or zero quality falls back to the default, as `||` does. */
  function OptionsFor(config: CompressionConfig): (o: CodecOptions)
    ensures o.maxSizeMB == config.maxSizeMB
    ensures o.maxWidthOrHeight == config.maxWidthOrHeight
    ensures o.useWebWorker == config.useWebWorker
    ensures (config.initialQuality.Some? && config.initialQuality.value != 0.0)
              ==> o.initialQuality == config.initialQuality.value
    ensures (config.initialQuality == None || config.initialQuality == Some(0.0))
              ==> o.initialQuality == DefaultQuality
  {
    var quality :=
      match config.initialQuality
      case Some(q) => if q != 0.0 then q else DefaultQuality
      case None => DefaultQuality;
    CodecOptions(config.maxSizeMB, config.maxWidthOrHeight, config.useWebWorker, quality)
  }

  function ProcessingMessage(name: string): string {
    "Processing " + name + "..."
  }

  function SuccessMessage(name: string, newName: string): string {
    name + " -> " + newName
  }

  function FailureMessage(name: string): string {
    "Failed to compress " + name
  }

  /** The converted file the codec's output of `size` bytes becomes. */
  function Converted(file: File, size: nat): (f: File)
    ensures f.mime == WebpMime
    ensures |f.name| >= |WebpName.Suffix| && f.name[|f.name| - |WebpName.Suffix|..] == WebpName.Suffix
  {
    File(WebpName.OutputName(file.name), WebpMime, size)
  }

  /** Whole-number division by repeated subtraction. Only linear arithmetic
      appears in its definition, which keeps the proofs about the loop
      small. */
  function Div(a: nat, d: nat): nat
    requires 0 < d
    decreases a
  {
    if a < d then 0 else 1 + Div(a - d, d)
  }

  /** `Div(a, d)` is the quotient: the largest `q` with `q * d <= a`. */
  lemma {:induction false} DivBounds(a: nat, d: nat)
    requires 0 < d
    ensures Div(a, d) * d <= a < (Div(a, d) + 1) * d
    decreases a
  {
    if a >= d {
      DivBounds(a - d, d);
      var q := Div(a - d, d);
      assert (q + 1) * d == q * d + d;
      assert (q + 2) * d == (q + 1) * d + d;
    }
  }

  /** Dividing a larger number never gives a smaller quotient. */
  lemma {:induction false} DivMonotone(a: nat, b: nat, d: nat)
    requires 0 < d && a <= b
    ensures Div(a, d) <= Div(b, d)
    decreases a
  {
    if a >= d {
      DivMonotone(a - d, b - d, d);
    }
  }

  /** Multiplying by the same positive number keeps strict order. */
  lemma ScaleLess(a: int, b: int, n: nat)
    requires 0 < n && a * n < b * n
    ensures a < b
  {
  }

  /** `(200n + n) / 2n` is 100. */
  lemma DivHundred(n: nat)
    requires 0 < n
    ensures Div(201 * n, 2 * n) == 100
  {
    var q := Div(201 * n, 2 * n);
    DivBounds(201 * n, 2 * n);
    ScaleLess(q, 101, 2 * n);
    ScaleLess(100, q + 1, 2 * n);
  }

  /** `Math.round((k / n) * 100)`, computed exactly: `floor(100k/n + 1/2)`. */
  function Percent(k: nat, n: nat): (p: nat)
    requires 0 < n && k <= n
    ensures p <= 100
  {
    DivMonotone(200 * k + n, 201 * n, 2 * n);
    DivHundred(n);
    Div(200 * k + n, 2 * n)
  }

  /** The percentage is the integer nearest to `100 * k / n`, with half-way
      cases going up, as `Math.round` does. */
  lemma PercentIsNearest(k: nat, n: nat)
    requires 0 < n && k <= n
    ensures Percent(k, n) * (2 * n) <= 200 * k + n < (Percent(k, n) + 1) * (2 * n)
  {
    DivBounds(200 * k + n, 2 * n);
  }

  /** More files done never shows less progress. */
  lemma PercentMonotone(k: nat, k': nat, n: nat)
    requires 0 < n && k <= k' <= n
    ensures Percent(k, n) <= Percent(k', n)
  {
    DivMonotone(200 * k + n, 200 * k' + n, 2 * n);
  }

  /** No file done shows 0 and every file done shows 100. */
  lemma PercentEnds(n: nat)
    requires 0 < n
    ensures Percent(0, n) == 0
    ensures Percent(n, n) == 100
  {
    DivHundred(n);
  }

  /** The entry appended when a file starts. */
  function StartEntry(id: nat, file: File): CompressionLog {
    CompressionLog(id, ProcessingMessage(file.name), Pending, Some(file.size), None)
  }

  /** The change the codec's answer makes to a file's entry; a failure leaves
      the compressed size as it was. */
  function Settle(e: CompressionLog, file: File, outcome: Option<nat>): CompressionLog {
    match outcome
    case Some(size) =>
      e.(message := SuccessMessage(file.name, WebpName.OutputName(file.name)),
         status := Success,
         compressedSize := Some(Converted(file, size).size))
    case None =>
      e.(message := FailureMessage(file.name), status := Error)
  }

  /** `logs.map(log => log.id === id ? settled : log)`. */
  function SettleLog(logs: seq<CompressionLog>, id: nat, file: File, outcome: Option<nat>)
    : (r: seq<CompressionLog>)
    ensures |r| == |logs|
    ensures forall j :: 0 <= j < |logs| && logs[j].id != id ==> r[j] == logs[j]
    ensures forall j :: 0 <= j < |logs| && logs[j].id == id ==> r[j] == Settle(logs[j], file, outcome)
  {
    seq(|logs|, j requires 0 <= j < |logs| =>
      if logs[j].id == id then Settle(logs[j], file, outcome) else logs[j])
  }

  /** What entry `i` of the log says once file `i` has been through the codec. */
  predicate Describes(e: CompressionLog, i: nat, file: File, outcome: Option<nat>) {
    && e.id == i
    && e.originalSize == Some(file.size)
    && e.compressedSize == outcome
    && match outcome
       case Some(_) =>
         e.status == Success && e.message == SuccessMessage(file.name, WebpName.OutputName(file.name))
       case None =>
         e.status == Error && e.message == FailureMessage(file.name)
  }

  /** The first half of the loop body for the file with index `run.processed`:
      its pending entry is appended before the codec is called. This is the
      state the page shows while the codec works on the file. */
  function Announce(run: Run, file: File): (r: Run)
    ensures |r.hook.logs| == |run.hook.logs| + 1
    ensures r.hook.logs[..|run.hook.logs|] == run.hook.logs
    ensures var e := r.hook.logs[|run.hook.logs|];
            e.id == run.processed && e.status == Pending && e.message == ProcessingMessage(file.name)
              && e.originalSize == Some(file.size) && e.compressedSize == None
    ensures r.processed == run.processed && r.compressed == run.compressed
    ensures r.hook.progress == run.hook.progress && r.hook.isCompressing == run.hook.isCompressing
  {
    run.(hook := run.hook.(logs := run.hook.logs + [StartEntry(run.processed, file)]))
  }

  /** The second half of the loop body: the codec's answer settles the entry
      whose id is the file's, a converted file is collected, and progress is
      recomputed for a batch of `n`. */
  function Conclude(run: Run, file: File, outcome: Option<nat>, n: nat): (r: Run)
    requires run.processed < n
    ensures r.hook.isCompressing == run.hook.isCompressing
    ensures r.processed == run.processed + 1
    ensures r.hook.progress == Percent(run.processed + 1, n)
    ensures |r.hook.logs| == |run.hook.logs|
    ensures forall j :: 0 <= j < |run.hook.logs| && run.hook.logs[j].id != run.processed
              ==> r.hook.logs[j] == run.hook.logs[j]
    ensures outcome.None? ==> r.compressed == run.compressed
    ensures outcome.Some? ==> r.compressed == run.compressed + [Converted(file, outcome.value)]
  {
    var compressed := if outcome.Some? then run.compressed + [Converted(file, outcome.value)] else run.compressed;
    var logs := SettleLog(run.hook.logs, run.processed, file, outcome);
    Run(Hook(run.hook.isCompressing, Percent(run.processed + 1, n), logs), run.processed + 1, compressed)
  }

  /** One pass of the loop body for the file with index `run.processed` of a
      batch of `n`. */
  function Step(run: Run, file: File, outcome: Option<nat>, n: nat): (r: Run)
    requires run.processed < n
    ensures r.hook.isCompressing == run.hook.isCompressing
    ensures r.processed == run.processed + 1
    ensures r.hook.progress == Percent(run.processed + 1, n)
    ensures |r.hook.logs| == |run.hook.logs| + 1
    ensures outcome.None? ==> r.compressed == run.compressed
    ensures outcome.Some? ==> r.compressed == run.compressed + [Converted(file, outcome.value)]
  {
    Conclude(Announce(run, file), file, outcome, n)
  }

  /** When no earlier entry shares the file's id, one pass of the loop leaves
      the earlier entries alone and the new entry ends up settled. */
  lemma StepSettlesOwnEntry(run: Run, file: File, outcome: Option<nat>, n: nat)
    requires run.processed < n
    requires forall j :: 0 <= j < |run.hook.logs| ==> run.hook.logs[j].id != run.processed
    ensures |Step(run, file, outcome, n).hook.logs| == |run.hook.logs| + 1
    ensures Step(run, file, outcome, n).hook.logs[..|run.hook.logs|] == run.hook.logs
    ensures Describes(Step(run, file, outcome, n).hook.logs[|run.hook.logs|], run.processed, file, outcome)
  {
  }

  /** The state right after a batch starts: compressing, progress and logs
      reset, nothing collected. */
  const Started: Run := Run(Hook(true, 0, []), 0, [])

  /** The loop's state after the first `k` files. */
  function RunUpTo(files: seq<File>, outcomes: Outcomes, k: nat): (r: Run)
    requires |outcomes| == |files| && k <= |files|
    ensures r.processed == k
    ensures r.hook.isCompressing && |r.hook.logs| == k
    ensures |r.compressed| <= k
    decreases k
  {
    if k == 0 then Started
    else Step(RunUpTo(files, outcomes, k - 1), files[k - 1], outcomes[k - 1], |files|)
  }

  /** The indices below `k` of the files the codec converted, in increasing
      order. */
  function SuccessIndices(outcomes: Outcomes, k: nat): (idx: seq<nat>)
    requires k <= |outcomes|
    ensures |idx| <= k
    ensures forall j :: 0 <= j < |idx| ==> idx[j] < k && outcomes[idx[j]].Some?
    ensures forall j, j' :: 0 <= j < j' < |idx| ==> idx[j] < idx[j']
    ensures forall i :: 0 <= i < k && outcomes[i].Some? ==> i in idx
    decreases k
  {
    if k == 0 then []
    else SuccessIndices(outcomes, k - 1) + (if outcomes[k - 1].Some? then [k - 1] else [])
  }

  /** `out` holds, in order, the converted form of each file below `k` that
      the codec converted. */
  predicate ListsSuccesses(out: seq<File>, files: seq<File>, outcomes: Outcomes, k: nat)
    requires |outcomes| == |files| && k <= |files|
  {
    var idx := SuccessIndices(outcomes, k);
    && |out| == |idx|
    && forall j :: 0 <= j < |idx| ==> out[j] == Converted(files[idx[j]], outcomes[idx[j]].value)
  }

  /** The loop invariant on the exposed state: after `k` files the flag is
      still set, progress is the rounded share done and there is one settled
      entry per file, in input order. */
  lemma {:induction false} RunUpToHook(files: seq<File>, outcomes: Outcomes, k: nat)
    requires |outcomes| == |files| && k <= |files|
    ensures RunUpTo(files, outcomes, k).hook.isCompressing
    ensures RunUpTo(files, outcomes, k).hook.progress == if k == 0 then 0 else Percent(k, |files|)
    ensures |RunUpTo(files, outcomes, k).hook.logs| == k
    ensures forall i :: 0 <= i < k ==> Describes(RunUpTo(files, outcomes, k).hook.logs[i], i, files[i], outcomes[i])
  {
    if k > 0 {
      RunUpToHook(files, outcomes, k - 1);
      var run := RunUpTo(files, outcomes, k - 1);
      var next := Step(run, files[k - 1], outcomes[k - 1], |files|);
      assert RunUpTo(files, outcomes, k) == next;
      var prev := run.hook.logs;
      var cur := next.hook.logs;
      forall j | 0 <= j < |prev| ensures prev[j].id != k - 1 {
        assert Describes(prev[j], j, files[j], outcomes[j]);
      }
      StepSettlesOwnEntry(run, files[k - 1], outcomes[k - 1], |files|);
      forall i | 0 <= i < k
        ensures Describes(cur[i], i, files[i], outcomes[i])
      {
        if i < k - 1 {
          assert cur[i] == cur[..k - 1][i];
          assert Describes(prev[i], i, files[i], outcomes[i]);
        }
      }
    }
  }

  /** The loop invariant on the collected files: after `k` files exactly the
      ones the codec converted have been collected, in input order. */
  lemma {:induction false} RunUpToCollected(files: seq<File>, outcomes: Outcomes, k: nat)
    requires |outcomes| == |files| && k <= |files|
    ensures ListsSuccesses(RunUpTo(files, outcomes, k).compressed, files, outcomes, k)
  {
    if k > 0 {
      RunUpToCollected(files, outcomes, k - 1);
      CollectedStep(files, outcomes, k);
      ListsSuccessesExtend(RunUpTo(files, outcomes, k - 1).compressed, files, outcomes, k);
    }
  }

  /** Collecting file `k - 1` exactly when the codec converted it extends the
      list of successes below `k - 1` to the one below `k`. */
  lemma ListsSuccessesExtend(out: seq<File>, files: seq<File>, outcomes: Outcomes, k: nat)
    requires |outcomes| == |files| && 0 < k <= |files|
    requires ListsSuccesses(out, files, outcomes, k - 1)
    ensures outcomes[k - 1].Some? ==>
              ListsSuccesses(out + [Converted(files[k - 1], outcomes[k - 1].value)], files, outcomes, k)
    ensures outcomes[k - 1].None? ==> ListsSuccesses(out, files, outcomes, k)
  {
    var idx := SuccessIndices(outcomes, k - 1);
    var idx' := SuccessIndices(outcomes, k);
    if outcomes[k - 1].Some? {
      var out' := out + [Converted(files[k - 1], outcomes[k - 1].value)];
      assert idx' == idx + [k - 1];
      forall j | 0 <= j < |idx'|
        ensures out'[j] == Converted(files[idx'[j]], outcomes[idx'[j]].value)
      {
        if j < |idx| {
          assert out'[j] == out[j];
        }
      }
    } else {
      assert idx' == idx;
    }
  }

  /** The files collected by one more pass of the loop. */
  lemma CollectedStep(files: seq<File>, outcomes: Outcomes, k: nat)
    requires |outcomes| == |files| && 0 < k <= |files|
    ensures outcomes[k - 1].Some? ==>
              RunUpTo(files, outcomes, k).compressed
                == RunUpTo(files, outcomes, k - 1).compressed + [Converted(files[k - 1], outcomes[k - 1].value)]
    ensures outcomes[k - 1].None? ==>
              RunUpTo(files, outcomes, k).compressed == RunUpTo(files, outcomes, k - 1).compressed
  {
    var run := RunUpTo(files, outcomes, k - 1);
    assert RunUpTo(files, outcomes, k) == Step(run, files[k - 1], outcomes[k - 1], |files|);
  }

  /** An earlier entry never changes again once its file is done. */
  lemma EarlierEntriesUnchanged(files: seq<File>, outcomes: Outcomes, k: nat)
    requires |outcomes| == |files| && k < |files|
    ensures |RunUpTo(files, outcomes, k + 1).hook.logs| == k + 1
    ensures RunUpTo(files, outcomes, k + 1).hook.logs[..k] == RunUpTo(files, outcomes, k).hook.logs
  {
    RunUpToHook(files, outcomes, k);
  }

  /** Progress never goes down while the loop runs. */
  lemma ProgressMonotone(files: seq<File>, outcomes: Outcomes, k: nat, k': nat)
    requires |outcomes| == |files| && k <= k' <= |files|
    ensures RunUpTo(files, outcomes, k).hook.progress <= RunUpTo(files, outcomes, k').hook.progress
    ensures RunUpTo(files, outcomes, k').hook.progress <= 100
  {
    RunUpToHook(files, outcomes, k);
    RunUpToHook(files, outcomes, k');
    if k > 0 {
      PercentMonotone(k, k', |files|);
    }
  }

  /** `compressBatch`: reset the hook, run the loop over every file, clear the
      compressing flag and hand back the converted files. */
  function CompressBatch(files: seq<File>, outcomes: Outcomes): (r: BatchResult)
    requires |outcomes| == |files|
    ensures !r.hook.isCompressing
    ensures |r.hook.logs| == |files|
    ensures forall i :: 0 <= i < |files| ==> Describes(r.hook.logs[i], i, files[i], outcomes[i])
    ensures r.hook.progress == if |files| == 0 then 0 else 100
    ensures ListsSuccesses(r.files, files, outcomes, |files|)
    ensures |r.files| <= |files|
    ensures forall j :: 0 <= j < |r.files| ==> r.files[j].mime == WebpMime
  {
    var run := RunUpTo(files, outcomes, |files|);
    RunUpToHook(files, outcomes, |files|);
    RunUpToCollected(files, outcomes, |files|);
    if |files| > 0 then PercentEnds(|files|); BatchResult(run.hook.(isCompressing := false), run.compressed)
    else BatchResult(run.hook.(isCompressing := false), run.compressed)
  }

  /** A file the codec rejects does not stop the batch: every later file the
      codec converts still ends up in the result, after the ones before it. */
  lemma FailureDoesNotStopBatch(files: seq<File>, outcomes: Outcomes, i: nat, i': nat)
    requires |outcomes| == |files| && i < i' < |files|
    requires outcomes[i].None? && outcomes[i'].Some?
    ensures Converted(files[i'], outcomes[i'].value) in CompressBatch(files, outcomes).files
    ensures Describes(CompressBatch(files, outcomes).hook.logs[i], i, files[i], outcomes[i])
    ensures CompressBatch(files, outcomes).hook.logs[i].status == Error
  {
    var r := CompressBatch(files, outcomes);
    var idx := SuccessIndices(outcomes, |files|);
    assert i' in idx;
    var j :| 0 <= j < |idx| && idx[j] == i';
    assert r.files[j] == Converted(files[i'], outcomes[i'].value);
  }
}
