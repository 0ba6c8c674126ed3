/** The retriever of src/retriever.py: it asks the collection for the chunks nearest a query and
    flattens ChromaDB's batch-shaped answer (one slot per query text; only one is sent) into a
    list of retrieved chunks. The similarity search itself is an input. */
module Retriever {
  import opened Results
  import opened Records
  import Config

  /** What collection.query returns: for each query text, parallel lists of ids, chunk texts and
      metadata, best match first. */
  datatype QueryResult = QueryResult(ids: seq<seq<string>>, documents: seq<seq<string>>, metadatas: seq<seq<Metadata>>)

  /** A ChromaDB collection, seen through its query operation: the query texts and n_results in,
      the batch-shaped result out. */
  datatype Collection = Collection(query: (seq<string>, nat) -> QueryResult)

  /** Slot 0 exists and its chunk texts and metadata cover its ids, as the unwrapping loop
      indexes them by the positions of ids[0] (src/retriever.py:45-50). */
  predicate HasFirstSlot(r: QueryResult) {
    |r.ids| > 0 && |r.documents| > 0 && |r.metadatas| > 0
    && |r.ids[0]| <= |r.documents[0]| && |r.ids[0]| <= |r.metadatas[0]|
  }

  /** The chunk at position i of slot 0. */
  function ChunkAt(r: QueryResult, i: nat): RetrievedChunk
    requires HasFirstSlot(r) && i < |r.ids[0]|
  {
    var md := r.metadatas[0][i];
    RetrievedChunk(r.documents[0][i], md.source, md.title, md.chunkIndex)
  }

  /** The list the unwrapping loop builds: one chunk per id of slot 0, in result order. */
  function Unwrapped(r: QueryResult): (cs: seq<RetrievedChunk>)
    requires HasFirstSlot(r)
  {
    seq(|r.ids[0]|, i requires 0 <= i < |r.ids[0]| => ChunkAt(r, i))
  }

  /** The unwrapping loop shared by retrieve and retrieve_with_collection (src/retriever.py:44-53,
      66-75): element i carries text documents[0][i] and the source, title and chunk_index of
      metadatas[0][i]; nothing is sorted, filtered or dropped. */
  method Unwrap(r: QueryResult) returns (chunks: seq<RetrievedChunk>)
    requires HasFirstSlot(r)
    ensures |chunks| == |r.ids[0]|
    ensures forall i :: 0 <= i < |chunks| ==>
      chunks[i].text == r.documents[0][i] && chunks[i].source == r.metadatas[0][i].source
      && chunks[i].title == r.metadatas[0][i].title && chunks[i].chunkIndex == r.metadatas[0][i].chunkIndex
    ensures chunks == Unwrapped(r)
  {
    chunks := [];
    var i := 0;
    while i < |r.ids[0]|
      invariant i <= |r.ids[0]|
      invariant chunks == Unwrapped(r)[..i]
    {
      chunks := chunks + [RetrievedChunk(r.documents[0][i], r.metadatas[0][i].source, r.metadatas[0][i].title, r.metadatas[0][i].chunkIndex)];
      i := i + 1;
    }
  }

  /** Two results that agree on slot 0 (its ids' count, and the chunk texts and metadata at those
      positions) unwrap to the same list: no other slot and nothing past the ids is read
      (src/retriever.py:42-43, 65). */
  lemma FirstSlotOnly(r1: QueryResult, r2: QueryResult)
    requires HasFirstSlot(r1) && HasFirstSlot(r2)
    requires |r1.ids[0]| == |r2.ids[0]|
    requires r1.documents[0][..|r1.ids[0]|] == r2.documents[0][..|r2.ids[0]|]
    requires r1.metadatas[0][..|r1.ids[0]|] == r2.metadatas[0][..|r2.ids[0]|]
    ensures Unwrapped(r1) == Unwrapped(r2)
  {
    var n := |r1.ids[0]|;
    forall i | 0 <= i < n
      ensures ChunkAt(r1, i) == ChunkAt(r2, i)
    {
      assert r1.documents[0][i] == r1.documents[0][..n][i];
      assert r2.documents[0][i] == r2.documents[0][..n][i];
      assert r1.metadatas[0][i] == r1.metadatas[0][..n][i];
      assert r2.metadatas[0][i] == r2.metadatas[0][..n][i];
    }
  }

  /** The ids themselves do not reach the output; only their count does. */
  lemma IdsUnread(r: QueryResult, ids0: seq<string>)
    requires HasFirstSlot(r) && |ids0| == |r.ids[0]|
    ensures HasFirstSlot(r.(ids := [ids0] + r.ids[1..]))
    ensures Unwrapped(r.(ids := [ids0] + r.ids[1..])) == Unwrapped(r)
  {
    var r' := r.(ids := [ids0] + r.ids[1..]);
    FirstSlotOnly(r', r);
  }

  /** retrieve_with_collection (src/retriever.py:56-75): one query for the query text, unwrapped. */
  method RetrieveWithCollection(query: string, collection: Collection, nResults: nat) returns (chunks: seq<RetrievedChunk>)
    requires HasFirstSlot(collection.query([query], nResults))
    ensures chunks == Unwrapped(collection.query([query], nResults))
  {
    var results := collection.query([query], nResults);
    chunks := Unwrap(results);
  }

  /** The error retrieve raises when the collection is missing (src/retriever.py:35-38). */
  const NOT_FOUND_MESSAGE: string :=
    "Collection '" + Config.COLLECTION_NAME + "' not found. " + "Run the ingestion pipeline first: python -m src.ingest"

  /** retrieve (src/retriever.py:17-53): look the collection up by name; a missing collection is
      reported with NOT_FOUND_MESSAGE and no query is made, otherwise the result is that of
      retrieve_with_collection on the same collection. */
  method Retrieve(query: string, nResults: nat, getCollection: string -> Option<Collection>)
    returns (r: Result<seq<RetrievedChunk>, string>)
    requires getCollection(Config.COLLECTION_NAME).Some? ==>
      HasFirstSlot(getCollection(Config.COLLECTION_NAME).value.query([query], nResults))
    ensures getCollection(Config.COLLECTION_NAME).None? ==> r == Err(NOT_FOUND_MESSAGE)
    ensures getCollection(Config.COLLECTION_NAME).Some? ==>
      r == Ok(Unwrapped(getCollection(Config.COLLECTION_NAME).value.query([query], nResults)))
  {
    var found := getCollection(Config.COLLECTION_NAME);
    if found.None? {
      return Err(NOT_FOUND_MESSAGE);
    }
    var results := found.value.query([query], nResults);
    var chunks := Unwrap(results);
    r := Ok(chunks);
  }
}
