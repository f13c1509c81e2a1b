/**
 * `index_updater`, the timer-triggered cycle: diff the container against the
 * snapshot (which saves the new snapshot), build one upsert per new or kept file and
 * one delete per deleted file, and post the batch only when it is not empty.
 * Every exception ends the cycle and is caught without being raised again.
 */
module IndexUpdater {
  import opened Wrappers
  import opened Collections
  import opened Backoff
  import opened TextExtractor
  import opened DocumentKey
  import opened FileTracker
  import opened SearchIndex

  /**
   * The embedding service: `vectorOf(text)` is the vector it computes for a text, and
   * `rateLimited(doc, k)` says whether the k-th attempt of the embedding request for
   * the document at position `doc` of the upsert order is refused.
   */
  datatype EmbeddingService<V> = EmbeddingService(vectorOf: string -> V, rateLimited: (nat, nat) -> bool)

  /** The wrapped `get_embedding` call for one document, attempt by attempt. */
  function EmbeddingAttempts<V>(svc: EmbeddingService<V>, doc: nat, text: string): nat -> Attempt<V>
  {
    (k: nat) => if svc.rateLimited(doc, k) then Raised else Returned(svc.vectorOf(text))
  }

  /** What `get_embedding(text)` returns for that document under the default decorator. */
  function Embedding<V>(svc: EmbeddingService<V>, doc: nat, text: string): Option<V>
  {
    Run(DefaultPolicy, EmbeddingAttempts(svc, doc, text), 0).result
  }

  /** The upsert record built for `filename` at function_app.py:32-38. */
  function UpsertRecord<V>(filename: string, text: string, embedding: Option<V>): Mutation<V>
  {
    MergeOrUpload(EncodeDocumentKey(filename), filename, embedding, text)
  }

  /** The delete record built for `filename` at function_app.py:46-49. */
  function DeleteRecord<V>(filename: string): Mutation<V>
  {
    Delete(EncodeDocumentKey(filename))
  }

  /** The first `n` files of `names` can be downloaded and opened. */
  predicate ExtractableUpTo(documents: map<string, Document>, names: seq<string>, n: nat)
    requires n <= |names|
  {
    forall j :: 0 <= j < n ==> Extracted(Download(documents, names[j])).Success?
  }

  /** Every file of `names` can be downloaded and opened. */
  predicate Extractable(documents: map<string, Document>, names: seq<string>)
  {
    ExtractableUpTo(documents, names, |names|)
  }

  /** The position of the first file that cannot be downloaded or opened. */
  function FirstUnextractable(documents: map<string, Document>, names: seq<string>): (i: nat)
    requires !Extractable(documents, names)
    ensures i < |names| && Extracted(Download(documents, names[i])).Failure?
    ensures ExtractableUpTo(documents, names, i)
  {
    if Extracted(Download(documents, names[0])).Failure? then 0
    else
      var i := 1 + FirstUnextractable(documents, names[1..]);
      assert forall j :: 1 <= j < i ==> names[j] == names[1..][j - 1];
      i
  }

  /** The upserts of the first loop for the first `n` files of `names`, in list order. */
  function UpsertsUpTo<V>(documents: map<string, Document>, names: seq<string>, n: nat, svc: EmbeddingService<V>): seq<Mutation<V>>
    requires n <= |names| && ExtractableUpTo(documents, names, n)
  {
    seq(n, i requires 0 <= i < n =>
      var text := Extracted(Download(documents, names[i])).value;
      UpsertRecord(names[i], text, Embedding(svc, i, text)))
  }

  /** The upserts of the first loop, one per file of `names`, in list order. */
  function Upserts<V>(documents: map<string, Document>, names: seq<string>, svc: EmbeddingService<V>): seq<Mutation<V>>
    requires Extractable(documents, names)
  {
    UpsertsUpTo(documents, names, |names|, svc)
  }

  /** One file that cannot be downloaded or opened is enough to stop the first loop. */
  lemma UnextractableBlocksBatch(documents: map<string, Document>, names: seq<string>, name: string)
    requires name in names && Extracted(Download(documents, name)).Failure?
    ensures !Extractable(documents, names)
  {
    var j :| 0 <= j < |names| && names[j] == name;
  }

  /** The first file that fails after an extractable prefix is the first failure. */
  lemma FirstUnextractableAt(documents: map<string, Document>, names: seq<string>, i: nat)
    requires i < |names| && ExtractableUpTo(documents, names, i)
    requires Extracted(Download(documents, names[i])).Failure?
    ensures !Extractable(documents, names) && FirstUnextractable(documents, names) == i
  {
  }

  /** The deletes of the second loop, one per file of `names`, in list order. */
  function Deletes<V>(names: seq<string>): seq<Mutation<V>>
  {
    seq(|names|, i requires 0 <= i < |names| => DeleteRecord(names[i]))
  }

  /** The batch a cycle assembles when every file to index could be extracted. */
  function Batch<V>(documents: map<string, Document>, newFiles: seq<string>, updatedFiles: seq<string>,
                    deletedFiles: seq<string>, svc: EmbeddingService<V>): seq<Mutation<V>>
    requires Extractable(documents, newFiles + updatedFiles)
  {
    Upserts(documents, newFiles + updatedFiles, svc) + Deletes(deletedFiles)
  }

  /**
   * The batch holds the upserts for `newFiles`, then those for `updatedFiles`, then
   * the deletes for `deletedFiles`, each in list order and one record per file.
   */
  lemma BatchLayout<V>(documents: map<string, Document>, newFiles: seq<string>, updatedFiles: seq<string>,
                       deletedFiles: seq<string>, svc: EmbeddingService<V>)
    requires Extractable(documents, newFiles + updatedFiles)
    ensures var batch := Batch(documents, newFiles, updatedFiles, deletedFiles, svc);
      && |batch| == |newFiles| + |updatedFiles| + |deletedFiles|
      && (forall i :: 0 <= i < |newFiles| ==>
            batch[i].MergeOrUpload? && batch[i].filename == newFiles[i])
      && (forall i :: 0 <= i < |updatedFiles| ==>
            batch[|newFiles| + i].MergeOrUpload? && batch[|newFiles| + i].filename == updatedFiles[i])
      && (forall i :: 0 <= i < |deletedFiles| ==>
            batch[|newFiles| + |updatedFiles| + i] == Delete(EncodeDocumentKey(deletedFiles[i])))
  {
    var toIndex := newFiles + updatedFiles;
    assert forall i :: 0 <= i < |updatedFiles| ==> toIndex[|newFiles| + i] == updatedFiles[i];
  }

  /**
   * Every upsert is keyed by its file name's id and carries the extractor's text,
   * sentinel included, and what `get_embedding` returned for that text.
   */
  lemma UpsertContents<V>(documents: map<string, Document>, names: seq<string>, svc: EmbeddingService<V>, i: nat)
    requires Extractable(documents, names) && i < |names|
    ensures var m := Upserts(documents, names, svc)[i];
      var text := Extracted(Download(documents, names[i])).value;
      && m.MergeOrUpload?
      && Action(m) == "mergeOrUpload"
      && m.id == EncodeDocumentKey(names[i]) && m.filename == names[i]
      && m.content == text && m.embedding == Embedding(svc, i, text)
  {
  }

  /** A batch is posted exactly when there is a file to upsert or to delete. */
  lemma BatchEmptyIff<V>(documents: map<string, Document>, newFiles: seq<string>, updatedFiles: seq<string>,
                         deletedFiles: seq<string>, svc: EmbeddingService<V>)
    requires Extractable(documents, newFiles + updatedFiles)
    ensures Batch(documents, newFiles, updatedFiles, deletedFiles, svc) == [] <==>
      newFiles == [] && updatedFiles == [] && deletedFiles == []
  {
    BatchLayout(documents, newFiles, updatedFiles, deletedFiles, svc);
  }

  /** The three lists of one diff, taken together, name no file twice. */
  lemma DiffListsDistinct(current: seq<string>, previous: seq<string>,
                          newFiles: seq<string>, deletedFiles: seq<string>, updatedFiles: seq<string>)
    requires Diff(current, previous) == FileDiff(AsSet(newFiles), AsSet(deletedFiles), AsSet(updatedFiles))
    requires Distinct(newFiles) && Distinct(deletedFiles) && Distinct(updatedFiles)
    ensures Distinct(newFiles + updatedFiles + deletedFiles)
  {
    DistinctAppend(newFiles, updatedFiles);
    assert AsSet(newFiles + updatedFiles) == AsSet(newFiles) + AsSet(updatedFiles);
    DistinctAppend(newFiles + updatedFiles, deletedFiles);
  }

  /** No id occurs twice in a batch built from a diff: distinct names have distinct ids. */
  lemma BatchIdsUnique<V>(documents: map<string, Document>, newFiles: seq<string>, updatedFiles: seq<string>,
                          deletedFiles: seq<string>, svc: EmbeddingService<V>)
    requires Extractable(documents, newFiles + updatedFiles)
    requires Distinct(newFiles + updatedFiles + deletedFiles)
    ensures var batch := Batch(documents, newFiles, updatedFiles, deletedFiles, svc);
      forall i, j :: 0 <= i < j < |batch| ==> batch[i].id != batch[j].id
  {
    var batch := Batch(documents, newFiles, updatedFiles, deletedFiles, svc);
    var names := newFiles + updatedFiles + deletedFiles;
    var toIndex := newFiles + updatedFiles;
    assert forall k :: 0 <= k < |batch| ==> batch[k].id == EncodeDocumentKey(names[k]) by {
      forall k | 0 <= k < |batch| ensures batch[k].id == EncodeDocumentKey(names[k]) {
        if k < |toIndex| {
          assert names[k] == toIndex[k];
        } else {
          assert names[k] == deletedFiles[k - |toIndex|];
        }
      }
    }
    forall i, j | 0 <= i < j < |batch| ensures batch[i].id != batch[j].id {
      EncodeDocumentKeyInjective(names[i], names[j]);
    }
  }

  /**
   * When the embedding service refuses every attempt, each file is still upserted,
   * with no embedding: retry exhaustion skips no document.
   */
  lemma ExhaustedEmbeddingStillIndexed<V>(documents: map<string, Document>, names: seq<string>, svc: EmbeddingService<V>)
    requires Extractable(documents, names)
    requires forall doc: nat, k: nat :: svc.rateLimited(doc, k)
    ensures var ups := Upserts(documents, names, svc);
      |ups| == |names| && forall i :: 0 <= i < |names| ==>
        ups[i].MergeOrUpload? && ups[i].filename == names[i] && ups[i].embedding.None?
  {
    forall i | 0 <= i < |names|
      ensures Embedding(svc, i, Extracted(Download(documents, names[i])).value).None?
    {
      var text := Extracted(Download(documents, names[i])).value;
      var f := EmbeddingAttempts(svc, i, text);
      assert forall k: nat :: f(k) == Raised by {
        forall k: nat ensures f(k) == Raised { assert svc.rateLimited(i, k); }
      }
      DefaultExhaustion(f);
    }
  }

  /**
   * When one of the five attempts for a document is accepted, the upsert carries the
   * vector of the document's text.
   */
  lemma EmbeddingWhenAccepted<V>(svc: EmbeddingService<V>, doc: nat, text: string, k: nat)
    requires k < DefaultPolicy.retries && !svc.rateLimited(doc, k)
    ensures Embedding(svc, doc, text) == Some(svc.vectorOf(text))
  {
    var f := EmbeddingAttempts(svc, doc, text);
    assert forall j: nat :: f(j) == Raised || f(j) == Returned(svc.vectorOf(text));
    RunReturnsValue(DefaultPolicy, f, 0, svc.vectorOf(text), k);
  }

  /**
   * A file whose pages fail to read does not stop the loop: when the other files can be
   * extracted, every file is upserted, and this one carries the sentinel as content.
   */
  lemma SentinelDocumentIndexed<V>(documents: map<string, Document>, names: seq<string>, svc: EmbeddingService<V>,
                                   i: nat, before: seq<PageResult>, after: seq<PageResult>)
    requires i < |names|
    requires forall j :: 0 <= j < |names| && j != i ==> Extracted(Download(documents, names[j])).Success?
    requires Download(documents, names[i]) == Some(Opened(before + [PageFailure] + after))
    ensures Extractable(documents, names) && |Upserts(documents, names, svc)| == |names|
    ensures Upserts(documents, names, svc)[i] == UpsertRecord(names[i], ErrorSentinel, Embedding(svc, i, ErrorSentinel))
  {
    FailureDiscardsText(before, after);
  }

  /** Why a cycle stopped early; the exception is logged and not raised again. */
  datatype Failure = ExtractionFailed(filename: string, error: ExtractError) | SubmitFailed

  datatype CycleEnd = Completed | Aborted(failure: Failure)

  /**
   * The first loop of `index_updater` (function_app.py:28-42): extract, embed and append one
   * upsert per file, in list order. Extraction exceptions escape the loop.
   */
  method AppendUpserts<V>(documents: map<string, Document>, toIndex: seq<string>, svc: EmbeddingService<V>)
    returns (r: Result<seq<Mutation<V>>, Failure>)
    ensures Extractable(documents, toIndex) ==> r == Success(Upserts(documents, toIndex, svc))
    ensures !Extractable(documents, toIndex) ==>
      var i := FirstUnextractable(documents, toIndex);
      r == Failure(ExtractionFailed(toIndex[i], Extracted(Download(documents, toIndex[i])).error))
  {
    var batch: seq<Mutation<V>> := [];
    for i := 0 to |toIndex|
      invariant ExtractableUpTo(documents, toIndex, i)
      invariant batch == UpsertsUpTo(documents, toIndex, i, svc)
    {
      var extracted := ExtractTextFromPdf(Download(documents, toIndex[i]));
      if extracted.Failure? {
        FirstUnextractableAt(documents, toIndex, i);
        return Failure(ExtractionFailed(toIndex[i], extracted.error));
      }
      var text := extracted.value;
      // Under the default decorator every wait is positive, so `time.sleep` never raises.
      var embedding, _, _, _ := WrapperRetry(DefaultPolicy, EmbeddingAttempts(svc, i, text));
      batch := batch + [UpsertRecord(toIndex[i], text, embedding)];
    }
    r := Success(batch);
  }

  /** The second loop of `index_updater` (function_app.py:45-50): append one delete per file. */
  method AppendDeletes<V>(batch: seq<Mutation<V>>, deletedFiles: seq<string>) returns (r: seq<Mutation<V>>)
    ensures r == batch + Deletes(deletedFiles)
  {
    r := batch;
    for i := 0 to |deletedFiles|
      invariant r == batch + Deletes(deletedFiles[..i])
    {
      assert deletedFiles[..i + 1][..i] == deletedFiles[..i];
      r := r + [DeleteRecord(deletedFiles[i])];
    }
    assert deletedFiles[..|deletedFiles|] == deletedFiles;
  }

  /**
   * One run of `index_updater`, with func_module.py:99 filtered as `filter` says. `accepted`
   * is whether the index service accepts the batch. The ghost results are the three
   * lists `get_updated_files` returned, the snapshot it saved and the list it loaded.
   * Files are downloaded from the container as it is after the snapshot was saved.
   */
  method RunIndexUpdater<V>(container: Container, index: IndexService<V>, svc: EmbeddingService<V>,
                            filter: SnapshotFilter, accepted: bool)
    returns (end: CycleEnd, ghost newFiles: seq<string>, ghost deletedFiles: seq<string>,
             ghost updatedFiles: seq<string>, ghost current: seq<string>, ghost previous: seq<string>)
    requires container.Valid()
    modifies container, index
    ensures container.Valid() && container.documents == old(container.documents)
    ensures container.snapshot == Saved(current) && container.snapshotWrites == old(container.snapshotWrites) + 1
    ensures Distinct(current)
    ensures AsSet(current) == old(container.Listing()) - (if filter.ExcludeKey? then {container.snapshotKey} else {})
    ensures previous == (if old(container.snapshot).Saved? then old(container.snapshot).names else [])
    ensures Diff(current, previous) == FileDiff(AsSet(newFiles), AsSet(deletedFiles), AsSet(updatedFiles))
    ensures Distinct(newFiles) && Distinct(deletedFiles) && Distinct(updatedFiles)
    ensures var docs, toIndex := container.Blobs(), newFiles + updatedFiles;
      if Extractable(docs, toIndex) then
        var batch := Batch(docs, newFiles, updatedFiles, deletedFiles, svc);
        && index.requests == old(index.requests) + (if batch == [] then [] else [batch])
        && end == (if batch == [] || accepted then Completed else Aborted(SubmitFailed))
      else
        var i := FirstUnextractable(docs, toIndex);
        && index.requests == old(index.requests)
        && end == Aborted(ExtractionFailed(toIndex[i], Extracted(Download(docs, toIndex[i])).error))
    ensures forall b: seq<Mutation<V>> :: b in index.requests[|old(index.requests)|..] ==>
      forall i, j :: 0 <= i < j < |b| ==> b[i].id != b[j].id
    ensures filter.KeepAll? && !old(container.snapshot).Absent? ==>
      container.snapshotKey in AsSet(newFiles) + AsSet(updatedFiles)
    ensures filter.KeepAll? && !old(container.snapshot).Absent? && container.snapshotAsPdf == Unopenable ==>
      end.Aborted? && end.failure.ExtractionFailed? && index.requests == old(index.requests)
  {
    var nf, df, uf;
    nf, df, uf, current, previous := container.GetUpdatedFiles(filter);
    newFiles, deletedFiles, updatedFiles := nf, df, uf;
    var blobs := container.Blobs();
    if filter.KeepAll? && !old(container.snapshot).Absent? && container.snapshotAsPdf == Unopenable {
      assert Download(blobs, container.snapshotKey) == Some(Unopenable);
      UnextractableBlocksBatch(blobs, nf + uf, container.snapshotKey);
    }
    var upserts := AppendUpserts(blobs, nf + uf, svc);
    if upserts.Failure? {
      return Aborted(upserts.error), newFiles, deletedFiles, updatedFiles, current, previous;
    }
    var documents := AppendDeletes(upserts.value, df);
    DiffListsDistinct(current, previous, nf, df, uf);
    BatchIdsUnique(blobs, nf, uf, df, svc);
    if documents != [] {
      var ok := index.UpdateSearchIndex(documents, accepted);
      if !ok {
        return Aborted(SubmitFailed), newFiles, deletedFiles, updatedFiles, current, previous;
      }
    }
    end := Completed;
  }
}
