/**
 * The records sent to the search index and `update_search_index`, which posts one
 * batch `{"value": documents}` and raises when the service does not answer with success.
 */
module SearchIndex {
  import opened Wrappers

  /**
   * One element of the batch. An upsert carries `@search.action` "mergeOrUpload",
   * `id`, `filename`, `embedding` and `content`; a delete carries `@search.action`
   * "delete" and `id`, nothing else. The embedding vector is opaque (`V`); None is
   * what the retry wrapper yields when every attempt failed.
   */
  datatype Mutation<V> =
    | MergeOrUpload(id: string, filename: string, embedding: Option<V>, content: string)
    | Delete(id: string)

  /** The `@search.action` field of a record. */
  function Action<V>(m: Mutation<V>): string
  {
    match m
    case MergeOrUpload(_, _, _, _) => "mergeOrUpload"
    case Delete(_) => "delete"
  }

  /** The search index service, seen through the batches posted to it. */
  class IndexService<V> {
    /** Every batch posted, in order. */
    var requests: seq<seq<Mutation<V>>>

    constructor ()
      ensures requests == []
    {
      requests := [];
    }

    /**
     * `update_search_index(documents)`: one POST carrying the whole batch. `accepted`
     * is whether the service answers with a success status; `ok` is false when
     * `raise_for_status` raises.
     */
    method UpdateSearchIndex(documents: seq<Mutation<V>>, accepted: bool) returns (ok: bool)
      modifies this
      ensures requests == old(requests) + [documents]
      ensures ok == accepted
    {
      requests := requests + [documents];
      ok := accepted;
    }
  }
}
