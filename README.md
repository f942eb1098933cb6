# Browser image converter: a verified model of its conversion core

This project models the client-side image converter in Dafny. A user uploads images. Each
image is converted in a worker, one at a time. The results are downloaded as one file or as a
ZIP archive. Four pieces are modelled, one module per source file:

- `ConversionWorker` (`conversion_worker.dfy`): the worker's message handler. It decodes one
  image and encodes it with an adaptive quality search. The first encode uses `quality / 100`.
  Each retry multiplies the quality by 0.8. The search stops at the first blob of at most half
  the input size, or after 5 encodes. A zero-byte blob aborts the conversion. So does a failure
  of any browser call the handler makes, since its catch block replies with the error message.
  The handler also derives the MIME type and the output name.
- `Converter` (`converter.dfy`): `convertImage`, which settles a worker reply into a resolved or
  rejected outcome, and `batchConvert`, which converts the files in order. `batchConvert` keeps
  the successes, skips the failures and reports progress after every file.
- `FileUpload` (`file_upload.dfy`): the upload session as a class holding the file list, the
  selected index and the convert button's state. It covers the acceptance filter, appending,
  removing, applying an edit, the preview defaults and the width and height rules of an edit.
- `ZipDownload` (`zip_download.dfy`): the download decision and the archive loop with its URL
  cache, as a class.
- `Common` (`common.dfy`): the shared data types and string helpers.

The browser is replaced by oracles passed as parameters:

- the worker's browser calls (`ConversionWorker.Browser`):
  - whether `createImageBitmap`, `new OffscreenCanvas`, `drawImage` or `blob.arrayBuffer()`
    fails, and with what message;
  - whether a 2D context is obtained;
  - `encode(k)`, the outcome of the k-th `convertToBlob` (0-based): the blob's size or a
    rejection;
- per-file conversion in `batchConvert`, a function from file to outcome;
- the size of the edited image, or a rejection;
- `archiveSize(entries)`, the size of the generated archive.

Object URLs are numbered in creation order. Integer comparisons replace the source's float
ones: `size > file.size * 0.5` is written `2 * size > file.size`. Quality and percentages are
exact reals.

Three facts about the code that the model keeps:

- the code sends zero results down the archive path;
- a rejected conversion carries only the worker's message, not the file name;
- an error reply with an empty message resolves (see Findings).

Two behaviours are modelled in their corrected form and recorded under Findings.
`Converter.Settle` is the corrected settlement; `Converter.SettleAsWritten` is the code's own.
`FileUpload.UploadSession.RemoveAt` updates the selection with the corrected rule
`SelectionAfterRemove`. The code leaves the selection unchanged (`SelectionAfterRemoveAsWritten`).

## Model

| member | source | states |
|---|---|---|
| `Common.ToLower` | js/workers/conversion-worker.js:25 | `toLowerCase` on ASCII letters: the same length, each character lowered |
| `ConversionWorker.SetupError` | js/workers/conversion-worker.js:10-19 | the steps before the first encode fail in the order decode, canvas creation, context, draw; the first failure is the one reported |
| `ConversionWorker.MimeType` | js/workers/conversion-worker.js:25 | the MIME type starts with `image/` (so the upload filter accepts it) and the rest is the lower-cased format |
| `ConversionWorker.MimeTypeIsImageType` | js/workers/conversion-worker.js:25 | the MIME type holds no upper-case letter |
| `ConversionWorker.ExtensionDotBefore` | js/workers/conversion-worker.js:75 | finds the dot that starts the suffix `/\.[^/.]+$/` matches; finds nothing exactly when no such dot exists |
| `ConversionWorker.ExtensionDotUnique` | js/workers/conversion-worker.js:75 | a name has at most one such dot: only the last extension can match |
| `ConversionWorker.Substitution` | js/workers/conversion-worker.js:75 | the replacement `replace` inserts expands `$$`, `$&`, `` $` `` and `$'`; a replacement without `$` is inserted as it is |
| `ConversionWorker.OutputName` | js/workers/conversion-worker.js:75 | a name without a matching suffix is returned unchanged; otherwise everything before the suffix's dot is kept and the suffix is replaced by the expanded `.` plus lower-cased format |
| `ConversionWorker.OutputNameSwapsExtension` | js/workers/conversion-worker.js:75 | for a format without `$`, a name with a trailing `.ext` (ext non-empty, without `.` or `/`) keeps everything before the dot and gets `.` plus the lower-cased format |
| `ConversionWorker.OutputNameExamples` | js/workers/conversion-worker.js:75 | `photo.png` becomes `photo.jpeg` |
| `ConversionWorker.OutputNameKeepsEarlierDots` | js/workers/conversion-worker.js:75 | `a.tar.gz` becomes `a.tar.jpeg`: only the last extension is swapped |
| `ConversionWorker.OutputNameKeepExamples` | js/workers/conversion-worker.js:75 | `README` and `photo.` are unchanged |
| `ConversionWorker.OutputNameExpandsDollarPatterns` | js/workers/conversion-worker.js:75 | with the format `$&`, `a.png` becomes `a..png`, as `replace` expands the pattern |
| `ConversionWorker.QualityAt` | js/workers/conversion-worker.js:30-52 | encode k uses quality `quality/100 * 0.8^k` |
| `ConversionWorker.OverTarget` | js/workers/conversion-worker.js:35-51 | `size > file.size * 0.5`, stated in integers as `2 * size > file.size` |
| `ConversionWorker.QualityNonIncreasing` | js/workers/conversion-worker.js:30-52 | the first encode uses `quality/100`, encode k uses `quality/100 * 0.8^k`, and for a non-negative hint the quality never increases |
| `ConversionWorker.KeptFrom` | js/workers/conversion-worker.js:34-57 | from encode k on, the last encode is below the budget of 5, every earlier one produced a blob over the target, and it did not (it met the target, was empty or was rejected) unless it is the fifth |
| `ConversionWorker.Kept` | js/workers/conversion-worker.js:37-57 | the last encode performed: below 5, every earlier encode produced a blob over the target, and this one did not unless it is the fifth |
| `ConversionWorker.KeptIsUnique` | js/workers/conversion-worker.js:51-57 | the stop rule determines the kept encode uniquely |
| `ConversionWorker.Handle` | js/workers/conversion-worker.js:5-82 | a set-up failure is replied with its message; a converted reply carries the non-empty blob of the last encode, the derived name and the MIME type; any other error reply carries the rejection of the last encode, the empty-blob message or the failure of reading the buffer |
| `ConversionWorker.EncodeCount` | js/workers/conversion-worker.js:37-57 | at most 5 encodes happen, and none exactly when a set-up step fails |
| `ConversionWorker.HandleMessage` | js/workers/conversion-worker.js:5-82 | the do/while handler posts the reply given by `Handle`; it makes `EncodeCount` encoder calls (at most 5, none after a set-up failure), and the j-th call uses quality `QualityAt(quality, j)` |
| `ConversionWorker.FirstFitEncodesOnce` | js/workers/conversion-worker.js:51-55 | if the first blob meets the target, exactly one encode happens |
| `ConversionWorker.NoFitKeepsFifthEncode` | js/workers/conversion-worker.js:51-65 | if no blob meets the target, 5 encodes happen and the fifth blob is returned |
| `ConversionWorker.EmptyEncodeAborts` | js/workers/conversion-worker.js:45-47 | a zero-byte blob ends the search at once with the empty-blob error |
| `ConversionWorker.EncodeRejectionAborts` | js/workers/conversion-worker.js:40-82 | a rejected `convertToBlob` at encode z ends the search after z+1 encodes, and its message is the reply |
| `ConversionWorker.ReplyShape` | js/workers/conversion-worker.js:10-82 | a decode failure replies with its message before any encode; a reply is converted exactly when the set-up, the last of the n encodes and the buffer read succeed with a non-empty blob, and it then carries the blob of encode n-1 |
| `Converter.SettleAsWritten` | js/conversion/converter.js:19-37 | as written: a worker failure rejects with `Worker error: ` plus its message; an error reply rejects only when its message is non-empty; any other reply resolves unchanged |
| `Converter.EmptyErrorMessageResolves` | js/conversion/converter.js:20 | an error reply with an empty message resolves as if it were a result |
| `Converter.Settle` | js/conversion/converter.js:19-37 | corrected: the outcome resolves exactly for a converted reply, with the data unchanged; every error reply rejects with its message |
| `Converter.SettlementsAgreeOnNonEmptyMessages` | js/conversion/converter.js:20-23 | the two settlements agree on every event except an error reply with an empty message |
| `Converter.Outcomes` | js/conversion/converter.js:56-58 | one outcome per file, the i-th from converting the i-th file |
| `Converter.Successes` | js/conversion/converter.js:60 | the results of a batch: never more than the outcomes |
| `Converter.ProgressCalls` | js/conversion/converter.js:63-66 | the calls of a batch of n files: the i-th reports i+1 of n |
| `Converter.Percent` | js/conversion/converter.js:64 | the percentage lies between 0 and 100 and is 100 exactly when every file is done |
| `Converter.BatchConvert` | js/conversion/converter.js:50-82 | the files are dispatched once each, in order; the results are the successful values in order; `completed` ends at the file count; with a callback, the progress calls are (1,n) … (n,n), and without one there are none |
| `Converter.ThreeFilesOneCorrupt` | js/conversion/converter.js:50-82 | scenario: three files with the second failing give two results and progress 1/3, 2/3, 3/3 |
| `Converter.SuccessesAppend` | js/conversion/converter.js:56-60 | results accumulate in input order: the results of a concatenation concatenate |
| `Converter.FailureIsSkipped` | js/conversion/converter.js:68-77 | a failed file contributes nothing and the later files are still converted |
| `Converter.SuccessPosition` | js/conversion/converter.js:58-60 | every successful file's value is in the results, after the values of the earlier successes |
| `Converter.SuccessesAreResolvedValues` | js/conversion/converter.js:60-81 | every result came from a successful file, and there are as many results as files when none fails |
| `Converter.SuccessesCountSucceeded` | js/conversion/converter.js:60-81 | the number of results equals the number of successful files |
| `Converter.ProgressReachesHundred` | js/conversion/converter.js:63-75 | the progress calls count 1..n of n, their percentages strictly increase, and the last one is 100 |
| `FileUpload.IsAcceptable` | js/ui/file-upload.js:164-174 | the acceptance test: a type starting with `image/` and at most 5 MiB |
| `FileUpload.ValidFiles` | js/ui/file-upload.js:164-174 | the filter never yields more files than it was given |
| `FileUpload.ValidFilesMembers` | js/ui/file-upload.js:164-174 | a file is kept if and only if its type starts with `image/` and its size is at most 5 MiB |
| `FileUpload.ValidFilesAppend` | js/ui/file-upload.js:164-182 | the filter keeps the files' relative order |
| `FileUpload.ValidFilesKeepsAcceptable` | js/ui/file-upload.js:164-174 | a list of acceptable files passes unchanged |
| `FileUpload.SizeLimitIsInclusive` | js/ui/file-upload.js:165-172 | exactly 5 MiB is accepted, one byte more is rejected, and so is a type without the `image/` prefix |
| `FileUpload.SelectionAfterRemoveAsWritten` | js/ui/file-upload.js:213-217 | as written: a removal leaves the selection as it was |
| `FileUpload.StaleSelectionDesignatesAnotherFile` | js/ui/file-upload.js:215 | as written: with files [a, b, c], selecting b and then removing a leaves the selection on c |
| `FileUpload.SelectionAfterRemove` | js/ui/file-upload.js:213-217 | corrected: an index past the end changes nothing; otherwise the selection is cleared exactly when it was the removed index, and a kept selection stays inside the shorter list |
| `FileUpload.SelectionFollowsEntry` | js/ui/file-upload.js:64-215 | corrected: after a removal the selection designates the same entry as before, or is cleared exactly when that entry was removed |
| `FileUpload.OrElse` | js/ui/file-upload.js:100-104 | a parsed input or its fallback: the result is the fallback or the parsed number, and 0 only when the fallback is 0 |
| `FileUpload.Preview` | js/ui/file-upload.js:100-104 | no preview dimension is 0 unless the original dimension is |
| `FileUpload.PreviewDefaults` | js/ui/file-upload.js:81-104 | an input that is invalid or 0 falls back to the original dimension, and the rotation to 0; any other input is used as it is, in all five fields; the values filled in on load reproduce the original size with no rotation |
| `FileUpload.EditDimensions` | js/ui/file-upload.js:261-274 | a full resize pair sets the size; otherwise a full crop pair is clamped to the original size; a pair with a missing or zero value is ignored; without a resize the size never exceeds the original |
| `FileUpload.UploadSession.constructor` | js/ui/file-upload.js:3-4 | the session starts with no files and no selection |
| `FileUpload.UploadSession.GetFiles` | js/ui/file-upload.js:310-312 | returns the current file list |
| `FileUpload.UploadSession.UpdateConvertButton` | js/ui/file-upload.js:242-244 | the button is disabled if and only if the list is empty |
| `FileUpload.UploadSession.HandleFiles` | js/ui/file-upload.js:160-186 | with no valid file: alert, and the list and button are unchanged; otherwise the list becomes the old list followed by the valid files in order, and the button is enabled |
| `FileUpload.UploadSession.ShowEditControls` | js/ui/file-upload.js:64-65 | selects the given index for editing |
| `FileUpload.UploadSession.RemoveAt` | js/ui/file-upload.js:213-217 | removes exactly the entry at the index, keeping the others in order; an index past the end removes nothing; the button follows the new length; the selection follows the corrected rule |
| `FileUpload.UploadSession.ApplyEdit` | js/ui/file-upload.js:133-154 | nothing happens without a selection; a selection past the end or a failed edit alerts and changes nothing; otherwise only the selected entry is replaced, by a file with the same name and type, and the length is unchanged |
| `ZipDownload.ArchiveEntries` | js/utils/zip.js:51-64 | the archive never holds more entries than there are results |
| `ZipDownload.ArchiveEntriesMembers` | js/utils/zip.js:51-64 | the archive holds exactly the files with a non-empty payload |
| `ZipDownload.ArchiveEntriesAppend` | js/utils/zip.js:51-64 | entries are added in input order |
| `ZipDownload.NonEmptyResultsAreAllArchived` | js/utils/zip.js:56-64 | results that all have a payload are all archived, unchanged |
| `ZipDownload.Plan` | js/utils/zip.js:11-95 | a single file is downloaded under its own name if and only if there is exactly one result and it is non-empty; the archive, named `converted-images.zip` and holding the non-empty entries, is downloaded if and only if the count is not one and the generated archive is non-empty; every other case is an alert |
| `ZipDownload.TwoResultsAreArchived` | js/utils/zip.js:46-83 | two non-empty results are both archived, in order |
| `ZipDownload.NoResultsTakeArchivePath` | js/utils/zip.js:11-48 | zero results take the archive path |
| `ZipDownload.CacheAfter` | js/utils/zip.js:51-68 | the archive loop never removes a cached name |
| `ZipDownload.CacheKeys` | js/utils/zip.js:51-68 | after the archive loop the cache's names are the old names plus the names of the non-empty files |
| `ZipDownload.CacheLastWins` | js/utils/zip.js:51-68 | a name maps to the URL created for the last non-empty file with that name |
| `ZipDownload.CacheKeepsOtherNames` | js/utils/zip.js:51-68 | a name no non-empty file bears keeps its cached URL, or stays absent |
| `ZipDownload.Downloader.constructor` | js/utils/zip.js:2 | the cache starts empty |
| `ZipDownload.Downloader.CreateObjectUrl` | js/utils/zip.js:26 | each object URL is new: the next number in creation order |
| `ZipDownload.Downloader.AddArchiveEntries` | js/utils/zip.js:51-68 | the loop skips empty payloads, collects the archive entries, and caches one new URL per entry |
| `ZipDownload.Downloader.DownloadConvertedFiles` | js/utils/zip.js:8-96 | the outcome is `Plan`; a downloaded single file is cached under its name; an empty single file leaves the cache unchanged; on the archive path the cache is updated for every non-empty entry, even when generating the archive then fails |

## Left out

- The DOM, drag and drop, FileReader previews, preview cards and `js/main.js` are UI glue. Alerts are modelled as returned messages.
- Canvas drawing, rotation and its trigonometry, `createImageBitmap`, `OffscreenCanvas` and `convertToBlob` are browser APIs. Only whether each one fails, with what message, and the size of each blob are modelled, as the oracles listed above.
- `bitmap.close()` and other resource release are not modelled. They change no observable value.
- Quality and percentages are exact reals. The model ignores floating-point rounding and the `Math.round` in the progress text.
- The encoder oracle is indexed by attempt number, not by quality.
- Worker spawning, message transfer and `worker.terminate()` on both settle paths are not modelled. They are the concurrency boundary; only the reply-to-outcome translation is.
- `ConversionWorker.HandleMessage`: the final-size check (lines 60-62) is not a separate error path; the method asserts that it never fires, because an empty blob has already aborted the loop. The array-buffer check (lines 69-71) is not modelled: the model takes the buffer's length to be the blob's size, so that check could not fire either.
- `Converter.BatchConvert` assumes `onProgress` does not throw. A throw in the success branch would make the catch count that file twice.
- `FileUpload.UploadSession.GetFiles` returns a value, not the live array, so aliasing is not modelled. In the page, `batchConvert` iterates the same array that the remove and edit handlers change while a batch runs.
- `Converter.BatchConvert` works on a snapshot of the list. It does not model a removal during a batch: with [a, b, c], removing a while a converts makes the iterator skip b, and the total drops to 2.
- `Converter.BatchConvert` treats per-file conversion as a deterministic function of the file.
- Logging of skipped files is not modelled.
- `toLowerCase` is modelled for ASCII letters only.
- `FileUpload.UploadSession.ApplyEdit` reads the selection when the edit is applied. The asynchronous gap between the click and the edit settling is not modelled.
- The preview image kept for editing (`originalImage`) is not modelled.
- `editImage`'s re-encoded content is abstract: only its size is modelled, and its name and type are kept.
- JSZip is not modelled: what `generateAsync` produces, and how it handles duplicate names inside an archive.
- Blob construction and object-URL revocation are not modelled. URLs are numbered in creation order, so the model does not show that a cached single-file URL was already revoked.
- The convert button's initial state comes from the page markup and is a constructor parameter.

## Findings

| source | as written | input that shows it | evidently intended | confidence | as-written member | corrected member |
|---|---|---|---|---|---|---|
| js/conversion/converter.js:20 | `if (e.data.error)` tests truthiness, so an error reply whose message is the empty string resolves as a conversion result | worker reply `{error: ""}`, for instance from a decode failure with an empty message | every error reply rejects with its message | low: needs an exception with an empty message; not executed | `Converter.EmptyErrorMessageResolves` | `Converter.Settle` |
| js/ui/file-upload.js:215 | removing a file splices the list but leaves `selectedFileIndex` unchanged | files [a, b, c]; edit b (index 1); remove a; apply the edit: c is replaced with an edit of c, and b is untouched | the selection follows its entry after a removal, or is cleared when that entry is removed | medium: the edit controls stay open after a removal; not executed | `FileUpload.SelectionAfterRemoveAsWritten`, `FileUpload.StaleSelectionDesignatesAnotherFile` | `FileUpload.SelectionAfterRemove`, `FileUpload.SelectionFollowsEntry` |
