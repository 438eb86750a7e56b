# Quick Convert batch converter, modelled in Dafny

Quick Convert is a browser page that turns PNG/JPG images into WebP locally.
The user drops or picks files; the page keeps those whose MIME type starts
with `image/`. A start button runs a sequential batch that hands each file to
a compression library, logs every file as pending and then as success or
error, collects the converted files under a `.webp` name and reports a
rounded percentage. When the batch is done the page shows statistics, can
pass the converted files to an archive writer, and can be reset.

This project models the converter's own logic around the two libraries:

- `types.dfy` (`CompressionTypes`): files, log entries with status
  `pending | success | error`, and the batch configuration.
- `webp_name.dfy` (`WebpName`): the output-name rewrite. The regular
  expression `/\.[^/.]+$/` is stated as the predicate `ExtensionAt`. A
  backward scan finds where it matches.
- `image_compression.dfy` (`ImageCompression`): the `compressBatch` loop as
  a recursive fold. `RunUpTo` is the state after `k` files, and
  `CompressBatch` is the whole call. The compression library is an input:
  one `Option<nat>` per file, `Some(size)` when it produced an image of
  `size` bytes and `None` when it threw. `SuccessIndices` lists the indices
  of the converted files, in increasing order. It is the reference the
  collected files are checked against.
- `drop_zone.dfy` (`DropZone`): the MIME filter, the drop, file-input and
  clear handlers. Each handler returns its new count and the list it passed
  to `onFilesSelected`, or `None` when it did not call it.
- `app.dfy` (`App`): the page state machine (`upload`, `processing`,
  `done`): selection, start, statistics, archive entries and reset. It also
  has an invariant that every user action preserves.

Log ids are the file's index. The source draws them at random and only
relies on them being distinct. Sizes are unbounded naturals. Quality and
maximum size are reals that are passed along and never computed with.

## Model

| member | source | states |
|---|---|---|
| WebpName.StripExtension | src/hooks/useImageCompression.ts:46 | if the regex matches at index i, the result is the name cut at i; if it matches nowhere, the name is unchanged |
| WebpName.OutputName | src/hooks/useImageCompression.ts:46 | every output name ends in `.webp` and is at most five characters longer than the input |
| WebpName.OutputNameReplacesExtension | src/hooks/useImageCompression.ts:46 | `stem.ext` becomes `stem.webp` for every stem, when ext is non-empty and has no `/` or `.` |
| WebpName.OutputNameExamples | src/hooks/useImageCompression.ts:46 | `a.b.jpg` becomes `a.b.webp`, `noext` becomes `noext.webp`, `x.` becomes `x..webp` |
| WebpName.OutputNameIdempotent | src/hooks/useImageCompression.ts:46 | renaming an output name again leaves it unchanged |
| WebpName.OutputNameNotInjective | src/hooks/useImageCompression.ts:46 | `a.png` and `a.jpg` both become `a.webp`, so the rename is not injective |
| ImageCompression.OptionsFor | src/hooks/useImageCompression.ts:19-27 | the codec options carry the configuration's size limit, dimension and worker flag; a missing or zero quality becomes 0.8, any other quality is kept |
| ImageCompression.Converted | src/hooks/useImageCompression.ts:46-50 | every produced file has MIME type `image/webp` and a name ending in `.webp` |
| ImageCompression.Percent | src/hooks/useImageCompression.ts:85 | the progress value never exceeds 100 |
| ImageCompression.PercentIsNearest | src/hooks/useImageCompression.ts:85 | the progress value is the integer nearest to 100k/n, and half-way cases go up as `Math.round` does |
| ImageCompression.PercentMonotone | src/hooks/useImageCompression.ts:84-85 | more files processed never gives a smaller percentage |
| ImageCompression.PercentEnds | src/hooks/useImageCompression.ts:84-85 | 0 of n files gives 0 and n of n files gives 100 |
| ImageCompression.Announce | src/hooks/useImageCompression.ts:29-41 | before the codec call, one entry is appended: id = file index, message `"Processing {name}..."`, status pending, original size = file size, no compressed size; earlier entries, progress and collected files are unchanged |
| ImageCompression.Conclude | src/hooks/useImageCompression.ts:43-85 | after the codec answers, only the entry with the file's id may change; the converted file is collected only on success; progress becomes round(100(k+1)/n) |
| ImageCompression.SettleLog | src/hooks/useImageCompression.ts:55-81 | the update by id keeps the log's length, changes no entry with another id, and settles every entry with the file's id |
| ImageCompression.Step | src/hooks/useImageCompression.ts:29-86 | one loop pass adds exactly one entry and advances progress to round(100(k+1)/n); a success appends the converted file, a failure collects nothing |
| ImageCompression.StepSettlesOwnEntry | src/hooks/useImageCompression.ts:29-81 | when no earlier entry has the file's id, one pass leaves the earlier entries as they were and appends an entry settled for this file: success with the new name and size, or error |
| ImageCompression.CollectedStep | src/hooks/useImageCompression.ts:43-52 | file k joins the collected list exactly when the codec accepted it, at the end of the list |
| ImageCompression.ListsSuccessesExtend | src/hooks/useImageCompression.ts:43-52 | if the list matches the accepted files below k-1, appending file k-1's converted form on success (and nothing on failure) matches the accepted files below k |
| ImageCompression.RunUpTo | src/hooks/useImageCompression.ts:29-86 | after k loop passes: k files processed, still compressing, exactly k log entries, at most k files collected |
| ImageCompression.RunUpToHook | src/hooks/useImageCompression.ts:11-86 | after k files: still compressing, progress 0 (k = 0) or round(100k/n), exactly k entries, entry i settled for file i: success with `"{name} -> {newName}"` and compressed size, or error with `"Failed to compress {name}"` and no compressed size |
| ImageCompression.RunUpToCollected | src/hooks/useImageCompression.ts:15-52 | after k files the collected list is exactly the converted form of each file below k the codec accepted, in input order |
| ImageCompression.EarlierEntriesUnchanged | src/hooks/useImageCompression.ts:55-81 | processing file k leaves entries 0..k-1 as they were |
| ImageCompression.ProgressMonotone | src/hooks/useImageCompression.ts:84-85 | progress never decreases over the loop and stays at most 100 |
| ImageCompression.CompressBatch | src/hooks/useImageCompression.ts:10-90 | at return: not compressing, one settled entry per file, progress 100 (0 for an empty batch); the result holds exactly the accepted files converted, in input order, all `image/webp`, and is no longer than the input |
| ImageCompression.FailureDoesNotStopBatch | src/hooks/useImageCompression.ts:67-86 | a rejected file gets an error entry, and every later accepted file is still in the result |
| DropZone.FilterImages | src/components/DropZone.tsx:39 | the kept files are all `image/*` files from the input, and every `image/*` input file is kept |
| DropZone.FilterImagesAppend | src/components/DropZone.tsx:39 | filtering a concatenation is concatenating the filtered parts, so relative order is kept |
| DropZone.FilterImagesKeepsImages | src/components/DropZone.tsx:39 | the filter returns its input unchanged exactly when every input file is an image |
| DropZone.FilterImagesIdempotent | src/components/DropZone.tsx:39 | filtering an already filtered list returns it unchanged |
| DropZone.Offer | src/components/DropZone.tsx:39-44 | with no images left: no callback and the count is unchanged; otherwise the count is the number of images and exactly the filtered list is passed on |
| DropZone.HandleDrop | src/components/DropZone.tsx:31-45 | a drop while disabled passes nothing on and keeps the count; otherwise it behaves as `Offer` |
| DropZone.HandleFileInput | src/components/DropZone.tsx:49-60 | an absent file list passes nothing on; a present one behaves as `Offer` |
| DropZone.ClearSelection | src/components/DropZone.tsx:119-123 | clearing sets the count to 0 and passes an empty list |
| DropZone.SelectionIsImages | src/components/DropZone.tsx:37-44 | whatever a drop passes on is non-empty, holds only images, and is left unchanged by the filter |
| App.HandleFilesSelected | src/App.tsx:27-29 | the held selection becomes exactly the new list; it is not appended to, and nothing else changes |
| App.Deliver | src/App.tsx:100 | a handler that does not call back leaves the page unchanged; one that does replaces only the selection |
| App.DropKeepsOrReplacesSelection | src/components/DropZone.tsx:37-44 | a disabled drop, or one with no image, keeps the previous selection; any other drop replaces it with the dropped images |
| App.StartConfig | src/App.tsx:36-40 | the batch config has `maxSizeMB = maxSize`, `initialQuality = quality`, `useWebWorker = true` and no dimension limit |
| App.StartOptions | src/App.tsx:36-40 | a batch started from the page gives the codec the page's size limit, no dimension limit, a web worker, and the page's quality, or 0.8 when that quality is 0 |
| App.InFlight | src/App.tsx:34-42 | while the codec works on file k: the step is `processing`, the hook is compressing, entries 0..k-1 are settled for their files, entry k is `"Processing {name}..."` pending with the file size, progress is 0 (k = 0) or round(100k/n), and selection and results are unchanged |
| App.HandleStart | src/App.tsx:31-45 | with an empty selection nothing changes and the step stays where it is; otherwise the step becomes `done`, `processedFiles` holds the accepted files converted, in input order, progress is 100, there is one entry per file, and compressing is off |
| App.CalculateStats | src/App.tsx:47-55 | totalFiles is the number of results; originalSize sums all selected files; compressedSize sums the results |
| App.TotalSize | src/App.tsx:48-49 | the sum of an empty list is 0, and the sum is at least the size of every file in the list |
| App.CollectedSize | src/App.tsx:49 | the collected files' sizes add up to the bytes the codec produced for the accepted files |
| App.TotalSizeAppend | src/App.tsx:49 | appending one file to a list adds exactly its size to the sum |
| App.StatsAfterStart | src/App.tsx:47-54 | after a batch: totalFiles is the number of accepted files (at most the selection size), originalSize counts rejected files too, and compressedSize is the codec's output bytes |
| App.ZipEntries | src/App.tsx:57-62 | the archive writer gets one pair per result, in order, each file under its own name |
| App.ArchiveAfterStart | src/App.tsx:60-62 | after a batch each archive entry is an accepted input renamed to `.webp`, with MIME `image/webp` and the codec's size, in input order |
| App.ArchiveNameClash | src/App.tsx:60-62 | if `a.png` and `a.jpg` both convert, the archive writer gets two entries named `a.webp` |
| App.HandleReset | src/App.tsx:68-72 | reset empties the selection and results and returns to `upload`; the log is kept; the statistics become zero; starting right away does nothing |
| App.DeliverKeepsConsistent | src/App.tsx:27-29 | passing on a list of images, or nothing, keeps the page consistent |
| App.StartKeepsConsistent | src/App.tsx:31-45 | a batch keeps the selection and makes every result an `image/webp` file named `*.webp` |
| App.ConsistentPreserved | src/App.tsx:17-72 | from the first page on, every drop, pick, clear, start and reset keeps the selection all images and the results all `image/webp` files named `*.webp` |

## Left out

- ImageCompression.PercentIsNearest: rounds the exact quotient 100k/n. The source computes `(k / n) * 100` in floating point. At an exact half, the float product can land just below it, and then `Math.round` rounds down where the model rounds up. 29 of 200 files is a likely case, since 0.145 * 100 is not exactly 14.5 in binary floating point.
- ImageCompression.OptionsFor: the `|| 0.8` fallback also applies to a NaN quality. The model has no NaN, so this case is absent.
- The compression library (`imageCompression`) is represented only by its per-file outcome. This covers which files it accepts and how many bytes it returns. Its `onProgress` callback does nothing in the source and is not modelled.
- The archive writer and the download (`JSZip`, `saveAs`) are foreign I/O. Only the list of name/file pairs handed to them is modelled. How the archive treats two entries with the same name is not modelled.
- Random log ids and `Date.now` timestamps are nondeterministic. Ids are file indices, and the timestamp is not part of `File`.
- File contents are not modelled. Only name, MIME type and size are.
- async suspension, web workers and React's batching of state updates are not modelled. The loop is sequential, so it is a fold, and each `setLogs(prev => …)` is applied in order.
- `console.error` on a failed file is output only.
- `HandleStart` does not check the current step, because the source does not either. Only the page's rendering keeps the start button out of the `processing` and `done` steps.
- The quality and maximum-size inputs (ControlBar.tsx, `parseFloat(...) || 0`) are not modelled. They involve floating point and only set the two reals that `StartConfig` passes on.
- Results.tsx and ProgressLog.tsx are presentation. Their percentages use float division.
- JSX, theming, analytics and the drag-highlight state (`handleDragOver`, `handleDragLeave`) are not modelled. The click that opens the file dialog is not modelled either.
- App.tsx:100 never passes `disabled` to the drop zone, so it is falsy there. The model keeps it as a parameter of `HandleDrop`.
- Sizes add up in JavaScript numbers. The sums are exact below 2^53 bytes. The model uses unbounded naturals.
- `handleReset` (App.tsx:68-72) does not touch the compression log. Only the next `compressBatch` clears it (useImageCompression.ts:13). `App.HandleReset` keeps the log too.
