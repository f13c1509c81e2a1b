# Incremental blob-to-search-index sync, modelled in Dafny

The system keeps a search index in step with a blob container of PDF files. On
each timer tick, `index_updater` (function_app.py) calls `get_updated_files`
(func_module.py). That function lists the container and loads the snapshot of
names saved by the previous run; a failed load counts as an empty list. It splits
the names into new, deleted and still-present ("updated") files, and overwrites
the snapshot with the current listing. The cycle then extracts the text of every
new and updated PDF and embeds that text through an exponential-backoff retry
decorator. It builds one `mergeOrUpload` record per such file and one `delete`
record per deleted file, keyed by the base64url encoding of the file name. It
posts the batch only when the batch is not empty. Any exception ends the cycle
and is logged, never raised again.

Modules, one per component:

- `Wrappers`, `Collections` (wrappers.dfy): `Option`, `Result`, and Python's
  `set(xs)` as `AsSet`.
- `Utf8` (utf8.dfy): UTF-8 as in section 3 of RFC 3629, which is what
  `str.encode()` does, with a decoder.
- `Base64Url` (base64url.dfy): the URL- and filename-safe alphabet of section 5
  of RFC 4648 with `=` padding, which is what `base64.urlsafe_b64encode` does,
  with a decoder.
- `DocumentKey` (document_key.dfy): `encode_document_key`.
- `Backoff` (backoff.dfy): `exponential_backoff` / `wrapper_retry`. `Run` is the
  functional specification. `WrapperRetry` is the `while` loop, proved equal to
  `Run`. The wrapped function is an oracle `f`, where `f(k)` is what its k-th call
  does. Each sleep performed is returned, in order, as the `waits` trace. A
  sleep length that `time.sleep` refuses raises inside the `except` handler: a
  negative one raises `ValueError`, and one above `MaxSleep` (9223372036 seconds,
  the most CPython's signed 64-bit nanosecond clock holds) raises `OverflowError`.
  The trace then records that the exception left the wrapper.
- `TextExtractor` (text_extractor.dfy): `extract_text_from_pdf`. A PDF is
  represented only by what PyMuPDF yields: a document that cannot be opened, or
  one outcome per page.
- `FileTracker` (file_tracker.dfy): the diff, the line-99 filter, and a
  `Container` class. The class holds the PDF blobs, the snapshot slot, what
  PyMuPDF makes of the snapshot blob's bytes, and a ghost count of snapshot
  uploads. It has `list_blobs`, `load_last_file_list`, `save_current_file_list`
  and `get_updated_files` as methods.
- `SearchIndex` (search_index.dfy): the mutation records, and
  `update_search_index` as a method on a service that records every posted batch.
- `IndexUpdater` (index_updater.dfy): the cycle. `RunIndexUpdater` is the cycle
  itself. `AppendUpserts` and `AppendDeletes` are its two loops. `Batch` is the
  specification of the batch. The embedding service is a datatype: `vectorOf`
  gives the vector for a text, and `rateLimited(doc, k)` says whether attempt k
  for the doc-th upsert is refused.

Two points where the intended behaviour and the code part ways:

- The comment at func_module.py:98 says the current listing excludes the
  snapshot's own key. The code at func_module.py:99 does not exclude it (see
  Findings). `get_updated_files` and the cycle take a `SnapshotFilter`
  argument: `KeepAll` runs the code as written, `ExcludeKey` runs the corrected
  filter. As
  written, every run that finds the snapshot blob lists its key, saves it in the
  new snapshot and diffs it as a new or updated file. The extractor is then
  handed the JSON snapshot as a PDF. When PyMuPDF refuses it, the cycle ends at
  that exception and posts nothing, in every run after the first.
- Exhausted retries fall out of the loop and return `None` (func_module.py:43-53), and the upsert is still
  built with that `None` as its embedding (function_app.py:32-38). The model
  does the same.

## Model

| member | source | states |
|---|---|---|
| `Utf8.DecodeEncode` | func_module.py:86 | decoding the UTF-8 bytes of any string gives the string back |
| `Utf8.EncodeInjective` | func_module.py:86 | two strings with the same UTF-8 bytes are equal |
| `Base64Url.EncodeLength` | func_module.py:86 | the output has length 4·⌈n/3⌉ for n input bytes |
| `Base64Url.EncodeAlphabet` | func_module.py:86 | every output character is in `A-Z a-z 0-9 - _ =` |
| `Base64Url.DecodeEncode` | func_module.py:86 | decoding the base64url text of any byte sequence gives the bytes back |
| `Base64Url.EncodeInjective` | func_module.py:86 | two byte sequences with the same encoding are equal |
| `DocumentKey.EncodeDocumentKey` | func_module.py:85-86 | the id's length is 4·⌈n/3⌉ for the name's n UTF-8 bytes, and every character is from the base64url alphabet or `=` |
| `DocumentKey.DecodeEncodeDocumentKey` | func_module.py:85-86 | the file name can be recovered from its id |
| `DocumentKey.EncodeDocumentKeyInjective` | func_module.py:85-86 | two names have the same id if and only if they are the same name |
| `Backoff.Wait` | func_module.py:49 | a wait is `min(max_backoff, backoff·2^attempt)`: at most both, equal to one of them; it is non-negative exactly when base and cap are |
| `Backoff.WrapperRetry` | func_module.py:41-53 | the loop's result, number of calls, sleeps performed and any exception escaping from `time.sleep` are exactly those of the specification `Run` |
| `Backoff.RunCallBound` | func_module.py:42-47 | the function is called at most `retries` times, and never when `retries ≤ 0` |
| `Backoff.RunFirstSuccess` | func_module.py:44-47 | a result is the unchanged value of the last call, and every earlier call raised |
| `Backoff.RunReturnsValue` | func_module.py:44-51 | if one remaining attempt succeeds, every success yields `v`, and `time.sleep` accepts each wait before it, the wrapper returns `v` |
| `Backoff.RunExhausted` | func_module.py:43-53 | when `time.sleep` accepts every wait, `None` is returned if and only if every attempt raised; then exactly `retries` calls were made and nothing is raised |
| `Backoff.RunSleepRaises` | func_module.py:48-52 | `time.sleep` raises out of the wrapper only after a failed call whose wait is negative or above `MaxSleep`, all earlier calls having failed with accepted waits; that call is the last, no sleep follows it, and with a non-negative base and a cap of at most `MaxSleep` it never happens |
| `Backoff.NegativeBackoffRaises` | func_module.py:38-52 | with base -2 and a failing first call, the wrapper makes one call, sleeps nothing and lets `ValueError` out |
| `Backoff.OverflowingBackoffRaises` | func_module.py:38-52 | with base 10^10 and a failing first call, the wrapper makes one call, sleeps nothing and lets `OverflowError` out |
| `Backoff.RunSchedule` | func_module.py:48-52 | one sleep follows each failed call, the last failure included, except the one whose sleep raised; the k-th sleep is `min(max_backoff, backoff·2^k)`, and every sleep performed is one `time.sleep` accepts |
| `Backoff.WaitMonotone` | func_module.py:49 | with a non-negative base, a later attempt never waits less |
| `Backoff.RunWaitsOrdered` | func_module.py:49-51 | for any policy, the sleeps of one run are accepted by `time.sleep`, never decrease and never exceed `max_backoff` |
| `Backoff.TwoFailuresThenSuccess` | func_module.py:38-52 | with 3 retries, base 2 and cap 64, two failures then a success give 3 calls, sleeps 2 and 4, and the value |
| `Backoff.DefaultExhaustion` | func_module.py:38-53 | under the defaults 5, 2 and 64, a function that always raises is called 5 times, with sleeps 2, 4, 8, 16 and 32, and the result is `None` |
| `TextExtractor.ExtractTextFromPdf` | func_module.py:68-82 | a missing blob or an unopenable PDF raises; if every page reads, the result is the page texts in page order; otherwise it is exactly `"error"` |
| `TextExtractor.JoinedAppend` | func_module.py:75-77 | the text of two runs of pages is the first run's text followed by the second's |
| `TextExtractor.FailureDiscardsText` | func_module.py:74-82 | one failing page gives `"error"` whatever was read before it or comes after it |
| `FileTracker.Diff` | func_module.py:101-103 | new, deleted and updated are pairwise disjoint; new ∪ updated = set(current); deleted ∪ updated = set(previous) |
| `FileTracker.DiffUnique` | func_module.py:101-103 | any three sets with those disjointness and covering properties are the diff |
| `FileTracker.DiffAgainstNothing` | func_module.py:101-103 | against the empty list that a failed load returns, every current name is new, and deleted and updated are empty |
| `FileTracker.DiffExample` | func_module.py:101-103 | previous {a.pdf, b.pdf} and current {b.pdf, c.pdf} give new {c.pdf}, deleted {a.pdf}, updated {b.pdf} |
| `FileTracker.FilterAsWrittenKeepsAll` | func_module.py:96-99 | line 99 as written keeps every listed name, in order |
| `FileTracker.FilterAsWrittenKeepsSnapshotKey` | func_module.py:96-99 | any listing that holds the snapshot key still holds it after line 99 as written |
| `FileTracker.ExcludeSnapshotKey` | func_module.py:98-99 | the corrected filter leaves exactly the listed names other than the snapshot key, without introducing duplicates |
| `FileTracker.ExcludeSnapshotKeyKeepsOthers` | func_module.py:99 | the corrected filter keeps the listing order of the names it keeps |
| `FileTracker.CurrentFileList` | func_module.py:95-99 | as written, the current list holds every listed name; corrected, every listed name but the snapshot key; either way without duplicates |
| `FileTracker.SetToList` | func_module.py:101-103 | `list(set)` holds each element of the set exactly once |
| `FileTracker.Container.ListBlobs` | func_module.py:95 | the listing holds every blob name once: the PDFs, and the snapshot key once the snapshot blob exists |
| `FileTracker.Container.LoadLastFileList` | func_module.py:116-123 | a saved snapshot gives its names; a missing or unreadable one gives `[]` |
| `FileTracker.Container.SaveCurrentFileList` | func_module.py:110-113 | the snapshot is overwritten with the given list, and only the snapshot changes |
| `FileTracker.Container.GetUpdatedFiles` | func_module.py:93-107 | the three returned lists are duplicate-free and are the diff of current against previous. The snapshot is written once, with current, which is the whole listing as written, or the listing without the snapshot key when corrected. As written, once the snapshot blob exists its key is new or updated; corrected, it never is. The PDFs are unchanged |
| `SearchIndex.IndexService.UpdateSearchIndex` | func_module.py:129-144 | one request carrying the whole batch is recorded, and the call fails exactly when the service refuses |
| `IndexUpdater.AppendUpserts` | function_app.py:28-42 | if every file extracts, the result is one upsert per file in list order; otherwise the result is the exception of the first file that fails |
| `IndexUpdater.AppendDeletes` | function_app.py:45-50 | one delete record is appended per deleted file, in list order |
| `IndexUpdater.RunIndexUpdater` | function_app.py:17-59 | see the line below the table |
| `IndexUpdater.BatchLayout` | function_app.py:27-50 | the batch is the upserts for new files, then those for updated files, then the deletes, each in list order, with length len(new) + len(updated) + len(deleted) |
| `IndexUpdater.UpsertContents` | function_app.py:32-38 | each upsert has action `mergeOrUpload`, `id = encode_document_key(filename)`, content equal to the extracted text, and the embedding of that text |
| `IndexUpdater.BatchEmptyIff` | function_app.py:54-55 | the batch is empty exactly when no file is new, updated or deleted |
| `IndexUpdater.DiffListsDistinct` | func_module.py:101-103 | the three diff lists together name no file twice |
| `IndexUpdater.BatchIdsUnique` | function_app.py:34-48 | no id occurs twice in a batch built from distinct names |
| `IndexUpdater.ExhaustedEmbeddingStillIndexed` | function_app.py:36-39 | when every embedding attempt is refused, each file is still upserted, with no embedding |
| `IndexUpdater.EmbeddingWhenAccepted` | function_app.py:36 | when one of the five attempts is accepted, the upsert carries the vector of its text |
| `IndexUpdater.UnextractableBlocksBatch` | function_app.py:28-29 | one file to index that cannot be downloaded or opened makes the upsert loop fail |
| `IndexUpdater.SentinelDocumentIndexed` | function_app.py:29-39 | when every other file extracts, a file with an unreadable page does not stop the loop: every file is upserted, and this one with content `"error"` |

`IndexUpdater.RunIndexUpdater` states that the snapshot is overwritten exactly
once with the listing after line 99 (as written or corrected), whatever happens
afterwards. Files are downloaded from the container as it is once the new
snapshot is saved. The diff is the one
`get_updated_files` computed. If every file to index extracts, exactly one
request carrying `Batch(...)` is posted when the batch is non-empty, and none
when it is empty. The cycle fails only when the service refuses. If some file
does not extract, nothing is posted, and the cycle ends with that file's
exception, caught. No posted batch repeats an id. Run as written on a container
whose snapshot blob exists, the snapshot key is among the files to index, and
when PyMuPDF cannot open the snapshot's bytes the cycle ends with an extraction
failure and posts nothing.

## Left out

- Azure client construction and the environment settings (func_module.py:10-33)
  are process set-up. The snapshot key is a constant of `Container`.
- Blob bytes and the JSON (de)serialisation of the snapshot are not modelled. The
  snapshot is a slot that is absent, unreadable or a saved list. Listing the
  container and uploading the snapshot never fail in the model. In the source, a
  failure there raises out of `get_updated_files` and ends the cycle.
- PyMuPDF internals (`fitz.open`, `load_page`, `get_text`) are a foreign library.
  A PDF is its page outcomes, or a document that cannot be opened. An open
  failure at func_module.py:71 is outside the `try`, and it propagates.
- The OpenAI call (func_module.py:59-64) is not modelled. The embedding vector is
  an opaque type parameter, and no floating point is modelled. Rate limiting is a
  predicate over the upsert position and the attempt number.
- The HTTP request, URL, headers and `raise_for_status` (func_module.py:129-144)
  are network I/O. Submission records the batch and is given whether the service
  accepts it.
- Real sleeping is not modelled. The retry sleeps are recorded as the `waits`
  trace. The one-second pacing sleep after each upsert (function_app.py:42) is
  not modelled.
- Logging and `sys.stdout.reconfigure` are left out.
- The timer trigger, its schedule and the time-zone comment (function_app.py:7)
  are left out.
- Overlapping runs are external concurrency, and the code has no locking.
- Python strings holding lone surrogates cannot be encoded by `str.encode()`. Such
  strings do not exist among Dafny strings, so that error path is absent.
- `list(set(...))` returns the elements in no specified order. The model chooses
  one order and states every property at the level of sets, or for whichever
  order was chosen.
- A snapshot whose JSON is not a list of strings is treated like an unreadable
  one (`Corrupt`, loaded as `[]`). The source does otherwise:
  - For `null`, a number or a boolean, `set(last_file_list)` raises `TypeError`
    at func_module.py:101. That is outside any `try` and before the save at
    func_module.py:105, so the cycle ends and the snapshot is never overwritten
    again.
  - For a JSON string, func_module.py:99 drops the listed names equal to that
    string, and `set()` splits it into its characters.
  - For an object, its keys act as the previous names.

  `save_current_file_list` always writes a JSON list of strings, so only a write
  from outside this program can put such JSON in the snapshot.
- What `fitz.open` makes of the snapshot blob's JSON bytes is a constant of
  `Container` (`snapshotAsPdf`), the same for every snapshot content.

## Findings

| source | as written | input that shows it | evidently intended | confidence | as-written member | corrected member |
|---|---|---|---|---|---|---|
| func_module.py:96-99 | line 96 rebinds `last_file_list` locally to the loaded list, so `f != last_file_list` compares each name with a list: always true, and nothing is excluded | a container listing `["a.pdf", key]`, where `key` is the snapshot blob's name, keeps `key`. In the run that first lists the snapshot blob, `key` is a new file and is extracted in that same cycle; in every later run it is an updated file | drop the snapshot's own key from the current listing, as the comment on line 98 says | high; not executed | `FileTracker.FilterAsWrittenKeepsSnapshotKey` | `FileTracker.ExcludeSnapshotKey` |
