/**
 * `RAGService`: ingestion of a PDF's chunks into the vector collection with
 * deterministic ids and metadata, the document registry update, deletion of
 * a document's chunks, and the formatting of similarity-search hits into
 * results and context texts.
 *
 * The embedding model and the vector database's nearest-neighbour query are
 * foreign: they are function-valued fields given when the service is built.
 * The document table is a map from document id to its processing record.
 */
module Retrieval {
  import opened PyStr
  import opened Chunker
  import opened PdfText
  import opened VectorIndex
  import opened Wrappers

  /** The `Document` row fields the service updates. */
  datatype DocumentRecord = DocumentRecord(isProcessed: bool, chunkCount: nat)

  const ChunkInfix := "_chunk_"

  /**
   * `f"{document_id}_chunk_{i}"`: the document id, then "_chunk_", then the
   * index's decimal digits.
   */
  function ChunkId(documentId: string, i: nat): (id: string)
    ensures |id| > |documentId| + |ChunkInfix|
    ensures id[..|documentId| + |ChunkInfix|] == documentId + ChunkInfix
    ensures forall k :: |documentId| + |ChunkInfix| <= k < |id| ==> IsDigit(id[k])
  {
    var digits := NatToString(i);
    var id := documentId + ChunkInfix + digits;
    assert forall k :: |documentId| + |ChunkInfix| <= k < |id| ==> id[k] == digits[k - |documentId| - |ChunkInfix|];
    id
  }

  /** The digits after "_chunk_" parse back to the chunk index. */
  lemma ChunkIdIndex(documentId: string, i: nat)
    ensures var id := ChunkId(documentId, i);
            ParseDecimal(id[|documentId| + |ChunkInfix|..]) == i
  {
    var id := ChunkId(documentId, i);
    assert id[|documentId| + |ChunkInfix|..] == NatToString(i);
    ParseNatToString(i);
  }

  /** The digits of the shorter chunk number would have to end where the other's begin: impossible. */
  lemma ChunkSuffixLength(d1: string, i1: nat, d2: string, i2: nat)
    requires ChunkId(d1, i1) == ChunkId(d2, i2)
    ensures |NatToString(i1)| >= |NatToString(i2)|
  {
    var s1, s2 := NatToString(i1), NatToString(i2);
    var id := ChunkId(d1, i1);
    var q := |id| - |s1| - 1;
    assert id == (d1 + ChunkInfix) + s1;
    assert id[q] == '_';
    assert |id| == |d2| + |ChunkInfix| + |s2|;
    assert q < |d2| + |ChunkInfix|;
  }

  /**
   * Chunk ids never collide: two (document, index) pairs give the same id
   * only when they are the same pair, whatever the document ids hold.
   */
  lemma ChunkIdInjective(d1: string, i1: nat, d2: string, i2: nat)
    requires ChunkId(d1, i1) == ChunkId(d2, i2)
    ensures d1 == d2 && i1 == i2
  {
    ChunkSuffixLength(d1, i1, d2, i2);
    ChunkSuffixLength(d2, i2, d1, i1);
    var s1, s2 := NatToString(i1), NatToString(i2);
    var id := ChunkId(d1, i1);
    assert id == (d1 + "_chunk_") + s1 && id == (d2 + "_chunk_") + s2;
    assert s1 == id[|id| - |s1|..] == s2;
    NatToStringInjective(i1, i2);
    assert d1 + "_chunk_" == id[..|id| - |s1|] == d2 + "_chunk_";
    assert d1 == (d1 + "_chunk_")[..|d1|];
  }

  /** The ids of a document's first `n` chunks, in chunk order. */
  function ChunkIds(documentId: string, n: nat): (ids: seq<string>)
    ensures |ids| == n && Distinct(ids)
  {
    var ids := seq(n, i requires 0 <= i < n => ChunkId(documentId, i));
    assert forall i, j :: 0 <= i < j < n ==> ids[i] != ids[j] by {
      forall i, j | 0 <= i < j < n ensures ids[i] != ids[j] {
        if ids[i] == ids[j] { ChunkIdInjective(documentId, i, documentId, j); }
      }
    }
    ids
  }

  /**
   * The metadata of chunk `i`: `document_id`, `chunk_index` and `source_file`,
   * with the caller's metadata merged on top (the caller's keys win).
   */
  function ChunkMetadata(documentId: string, i: nat, sourceFile: string, extra: Metadata): (md: Metadata)
    ensures md.Keys == {"document_id", "chunk_index", "source_file"} + extra.Keys
    ensures forall k :: k in extra ==> md[k] == extra[k]
    ensures "document_id" !in extra ==> md["document_id"] == Str(documentId)
    ensures "chunk_index" !in extra ==> md["chunk_index"] == Int(i)
    ensures "source_file" !in extra ==> md["source_file"] == Str(sourceFile)
  {
    map["document_id" := Str(documentId), "chunk_index" := Int(i), "source_file" := Str(sourceFile)] + extra
  }

  /** The metadata list built for a document's first `n` chunks. */
  function ChunkMetadatas(documentId: string, sourceFile: string, extra: Metadata, n: nat): (mds: seq<Metadata>)
    ensures |mds| == n
  {
    seq(n, i requires 0 <= i < n => ChunkMetadata(documentId, i, sourceFile, extra))
  }

  /** `embedding_model.encode(texts)`: one embedding per text, in order. */
  function EncodeAll(embed: string -> Embedding, texts: seq<string>): (es: seq<Embedding>)
    ensures |es| == |texts|
  {
    seq(|texts|, i requires 0 <= i < |texts| => embed(texts[i]))
  }

  /** The collection after a document's chunks are added. */
  function WithChunks(entries: map<string, Entry>, embed: string -> Embedding, documentId: string,
                      sourceFile: string, extra: Metadata, chunks: seq<string>): map<string, Entry>
  {
    Upsert(entries, ChunkIds(documentId, |chunks|), EncodeAll(embed, chunks), chunks,
           ChunkMetadatas(documentId, sourceFile, extra, |chunks|))
  }

  /**
   * Ingestion's records: chunk `i` is stored under `ChunkId(documentId, i)`
   * with its text, its metadata and its embedding, and every id that is not
   * one of the document's chunk ids keeps its entry.
   */
  lemma IngestedEntries(entries: map<string, Entry>, embed: string -> Embedding, documentId: string,
                        sourceFile: string, extra: Metadata, chunks: seq<string>)
    ensures var r := WithChunks(entries, embed, documentId, sourceFile, extra, chunks);
            && (forall i :: 0 <= i < |chunks| ==>
                  ChunkId(documentId, i) in r &&
                  r[ChunkId(documentId, i)] ==
                    Entry(chunks[i], ChunkMetadata(documentId, i, sourceFile, extra), embed(chunks[i])))
            && (forall id :: id in entries && id !in ChunkIds(documentId, |chunks|) ==>
                  id in r && r[id] == entries[id])
  {
    var ids := ChunkIds(documentId, |chunks|);
    var es := EncodeAll(embed, chunks);
    var mds := ChunkMetadatas(documentId, sourceFile, extra, |chunks|);
    forall i | 0 <= i < |chunks|
      ensures var r := Upsert(entries, ids, es, chunks, mds);
              ChunkId(documentId, i) in r &&
              r[ChunkId(documentId, i)] == Entry(chunks[i], mds[i], es[i])
    {
      UpsertAt(entries, ids, es, chunks, mds, i);
    }
    forall id | id in entries && id !in ids
      ensures var r := Upsert(entries, ids, es, chunks, mds); id in r && r[id] == entries[id]
    {
      UpsertKeepsOthers(entries, ids, es, chunks, mds, id);
    }
  }

  /** The entry belongs to document `documentId` by its metadata. */
  predicate TaggedWith(e: Entry, documentId: string) {
    Matches(e.metadata, "document_id", Str(documentId))
  }

  /** The collection after `delete_document_chunks(documentId)`. */
  function WithoutDocument(entries: map<string, Entry>, documentId: string): (r: map<string, Entry>)
    ensures forall id :: id in r <==> id in entries && !TaggedWith(entries[id], documentId)
    ensures forall id :: id in r ==> r[id] == entries[id]
  {
    map id | id in entries && !TaggedWith(entries[id], documentId) :: entries[id]
  }

  /** Deleting a document's chunks twice is deleting them once. */
  lemma DeleteIdempotent(entries: map<string, Entry>, documentId: string)
    ensures WithoutDocument(WithoutDocument(entries, documentId), documentId) ==
            WithoutDocument(entries, documentId)
  {
    var once := WithoutDocument(entries, documentId);
    var twice := WithoutDocument(once, documentId);
    assert twice.Keys == once.Keys;
  }

  /** The ids of the entries tagged with `documentId`. */
  function TaggedIds(entries: map<string, Entry>, documentId: string): (ids: set<string>)
    ensures forall id :: id in ids <==> id in entries && TaggedWith(entries[id], documentId)
  {
    set id | id in entries && TaggedWith(entries[id], documentId)
  }

  /** The set of a document's first `n` chunk ids has `n` elements. */
  lemma {:induction false} ChunkIdSetSize(documentId: string, n: nat)
    ensures |set i | 0 <= i < n :: ChunkId(documentId, i)| == n
  {
    if n > 0 {
      ChunkIdSetSize(documentId, n - 1);
      var prev := set i | 0 <= i < n - 1 :: ChunkId(documentId, i);
      var all := set i | 0 <= i < n :: ChunkId(documentId, i);
      assert all == prev + {ChunkId(documentId, n - 1)};
      if ChunkId(documentId, n - 1) in prev {
        var i :| 0 <= i < n - 1 && ChunkId(documentId, i) == ChunkId(documentId, n - 1);
        ChunkIdInjective(documentId, i, documentId, n - 1);
        assert false;
      }
    }
  }

  /**
   * Re-ingestion after deletion: once a document's chunks are deleted and
   * `n` new chunks are added (with caller metadata that does not override
   * `document_id`), the entries tagged with the document are exactly its `n`
   * new chunk ids, not the old ones plus the new.
   */
  lemma ReingestReplaces(entries: map<string, Entry>, embed: string -> Embedding, documentId: string,
                         sourceFile: string, extra: Metadata, chunks: seq<string>)
    requires "document_id" !in extra
    ensures var r := WithChunks(WithoutDocument(entries, documentId), embed, documentId, sourceFile, extra, chunks);
            TaggedIds(r, documentId) == (set i | 0 <= i < |chunks| :: ChunkId(documentId, i)) &&
            |TaggedIds(r, documentId)| == |chunks|
  {
    var base := WithoutDocument(entries, documentId);
    var r := WithChunks(base, embed, documentId, sourceFile, extra, chunks);
    var expected := set i | 0 <= i < |chunks| :: ChunkId(documentId, i);
    ReingestTaggedAreNew(entries, embed, documentId, sourceFile, extra, chunks);
    ReingestNewAreTagged(entries, embed, documentId, sourceFile, extra, chunks);
    assert TaggedIds(r, documentId) == expected;
    ChunkIdSetSize(documentId, |chunks|);
  }

  /** After deletion and re-ingestion, an entry tagged with the document is one of its new chunks. */
  lemma ReingestTaggedAreNew(entries: map<string, Entry>, embed: string -> Embedding, documentId: string,
                             sourceFile: string, extra: Metadata, chunks: seq<string>)
    ensures var r := WithChunks(WithoutDocument(entries, documentId), embed, documentId, sourceFile, extra, chunks);
            forall id :: id in TaggedIds(r, documentId) ==> exists i :: 0 <= i < |chunks| && id == ChunkId(documentId, i)
  {
    var base := WithoutDocument(entries, documentId);
    var r := WithChunks(base, embed, documentId, sourceFile, extra, chunks);
    var ids := ChunkIds(documentId, |chunks|);
    IngestedEntries(base, embed, documentId, sourceFile, extra, chunks);
    forall id | id in TaggedIds(r, documentId) ensures exists i :: 0 <= i < |chunks| && id == ChunkId(documentId, i) {
      assert id in ids;
      var i :| 0 <= i < |chunks| && ids[i] == id;
    }
  }

  /** After re-ingestion without a caller `document_id`, every new chunk is tagged with the document. */
  lemma ReingestNewAreTagged(entries: map<string, Entry>, embed: string -> Embedding, documentId: string,
                             sourceFile: string, extra: Metadata, chunks: seq<string>)
    requires "document_id" !in extra
    ensures var r := WithChunks(WithoutDocument(entries, documentId), embed, documentId, sourceFile, extra, chunks);
            forall i :: 0 <= i < |chunks| ==> ChunkId(documentId, i) in TaggedIds(r, documentId)
  {
    var base := WithoutDocument(entries, documentId);
    var r := WithChunks(base, embed, documentId, sourceFile, extra, chunks);
    IngestedEntries(base, embed, documentId, sourceFile, extra, chunks);
    forall i | 0 <= i < |chunks| ensures ChunkId(documentId, i) in TaggedIds(r, documentId) {
      assert r[ChunkId(documentId, i)].metadata == ChunkMetadata(documentId, i, sourceFile, extra);
    }
  }

  /** The registry after a successful ingestion: the document's row, if it exists, is marked processed with its chunk count. */
  function Registered(registry: map<string, DocumentRecord>, documentId: string, n: nat): (r: map<string, DocumentRecord>)
    ensures r.Keys == registry.Keys
    ensures documentId in registry ==> r[documentId] == DocumentRecord(true, n)
    ensures forall d :: d in registry && d != documentId ==> r[d] == registry[d]
  {
    if documentId in registry then registry[documentId := DocumentRecord(true, n)] else registry
  }

  /** What the vector database returns for one query: per query embedding, the hits' texts, metadata and distances. */
  datatype QueryResponse = QueryResponse(documents: seq<seq<string>>, metadatas: seq<seq<Metadata>>,
                                         distances: seq<seq<real>>)

  /** One formatted search result. */
  datatype SearchHit = SearchHit(text: string, metadata: Metadata, similarityScore: real)

  /** The response carries a metadata and a distance for each of the first query's documents. */
  predicate Complete(r: QueryResponse) {
    |r.documents| > 0 && |r.metadatas| > 0 && |r.distances| > 0 &&
    |r.documents[0]| <= |r.metadatas[0]| && |r.documents[0]| <= |r.distances[0]|
  }

  /**
   * The formatting in `search_similar_documents`: one result per hit of the
   * first query, in the store's order, with similarity `1 - distance`; no
   * results when the query failed (`None`) or the response lacks a metadata
   * or distance for some hit (the `IndexError` the source catches).
   */
  function FormatResults(response: Option<QueryResponse>): (hits: seq<SearchHit>)
    ensures response.None? ==> hits == []
    ensures response.Some? && !Complete(response.value) ==> hits == []
    ensures response.Some? && Complete(response.value) ==>
              var r := response.value;
              |hits| == |r.documents[0]| &&
              forall i :: 0 <= i < |hits| ==>
                hits[i] == SearchHit(r.documents[0][i], r.metadatas[0][i], 1.0 - r.distances[0][i])
  {
    match response
    case None => []
    case Some(r) =>
      if |r.documents| == 0 || |r.documents[0]| == 0 then []
      else if !Complete(r) then []
      else seq(|r.documents[0]|, i requires 0 <= i < |r.documents[0]| =>
                 SearchHit(r.documents[0][i], r.metadatas[0][i], 1.0 - r.distances[0][i]))
  }

  /** Hits that come nearest-first (ascending distance) are formatted most-similar-first. */
  lemma RankingPreserved(r: QueryResponse)
    requires Complete(r)
    requires forall i, j :: 0 <= i < j < |r.documents[0]| ==> r.distances[0][i] <= r.distances[0][j]
    ensures var hits := FormatResults(Some(r));
            forall i, j :: 0 <= i < j < |hits| ==> hits[i].similarityScore >= hits[j].similarityScore
  {
  }

  /** The `where` filter `get_relevant_context` passes: `{'category': c}` for a non-empty category, none otherwise. */
  function CategoryFilter(category: Option<string>): (f: Option<Metadata>)
    ensures f.None? <==> category.None? || category.value == ""
    ensures f.Some? ==> f.value.Keys == {"category"} && f.value["category"] == Str(category.value)
  {
    if category.Some? && category.value != "" then Some(map["category" := Str(category.value)]) else None
  }

  /** The texts of the results, in the same order. */
  function Texts(hits: seq<SearchHit>): (ts: seq<string>)
    ensures |ts| == |hits| && forall i :: 0 <= i < |hits| ==> ts[i] == hits[i].text
  {
    seq(|hits|, i requires 0 <= i < |hits| => hits[i].text)
  }

  /** `md` satisfies the optional `where` filter. */
  predicate SatisfiesFilter(md: Metadata, filter: Option<Metadata>) {
    filter.None? || MatchesAll(md, filter.value)
  }

  /** Some entry of the collection has this text and metadata and satisfies the filter. */
  ghost predicate StoredHit(entries: map<string, Entry>, filter: Option<Metadata>, text: string, md: Metadata) {
    exists id :: id in entries && entries[id].text == text && entries[id].metadata == md &&
                 SatisfiesFilter(md, filter)
  }

  /**
   * What the service relies on from the vector database's query: at most
   * `k` hits, each one an entry of the collection that satisfies the filter.
   * (The ranking itself is the database's.)
   */
  ghost predicate SoundResponse(entries: map<string, Entry>, k: nat, filter: Option<Metadata>, r: QueryResponse) {
    Complete(r) ==>
      |r.documents[0]| <= k &&
      forall i :: 0 <= i < |r.documents[0]| ==> StoredHit(entries, filter, r.documents[0][i], r.metadatas[0][i])
  }

  /** Search results from a sound response are stored entries that satisfy the filter, at most `k` of them. */
  lemma ResultsFromSoundResponse(entries: map<string, Entry>, k: nat, filter: Option<Metadata>, r: QueryResponse)
    ensures SoundResponse(entries, k, filter, r) ==>
            var hits := FormatResults(Some(r));
            |hits| <= k &&
            forall i :: 0 <= i < |hits| ==>
              StoredHit(entries, filter, hits[i].text, hits[i].metadata) &&
              SatisfiesFilter(hits[i].metadata, filter)
  {
  }

  /** Searching an empty collection yields no results. */
  lemma EmptyIndexNoResults(k: nat, filter: Option<Metadata>, r: QueryResponse)
    requires SoundResponse(map[], k, filter, r)
    ensures FormatResults(Some(r)) == []
  {
    assert Complete(r) ==>
           forall i :: 0 <= i < |r.documents[0]| ==> !StoredHit(map[], filter, r.documents[0][i], r.metadatas[0][i]);
  }

  /** After a document's chunks are deleted, no search result belongs to it. */
  lemma DeletedNeverRetrieved(entries: map<string, Entry>, documentId: string, k: nat,
                              filter: Option<Metadata>, r: QueryResponse)
    requires SoundResponse(WithoutDocument(entries, documentId), k, filter, r)
    ensures forall h :: h in FormatResults(Some(r)) ==> !Matches(h.metadata, "document_id", Str(documentId))
  {
    var hits := FormatResults(Some(r));
    forall h | h in hits ensures !Matches(h.metadata, "document_id", Str(documentId)) {
      var i :| 0 <= i < |hits| && hits[i] == h;
      assert StoredHit(WithoutDocument(entries, documentId), filter, r.documents[0][i], r.metadatas[0][i]);
    }
  }

  /**
   * The retrieval service: the vector collection, the document table, the
   * embedding model and the vector database's query, and the chunking
   * configuration (defaults 1000, 200 and 5).
   */
  class RagService {
    const collection: Collection
    var registry: map<string, DocumentRecord>
    const embed: string -> Embedding
    const storeQuery: (map<string, Entry>, Embedding, nat, Option<Metadata>) -> Option<QueryResponse>
    const chunkSize: nat
    const chunkOverlap: nat
    const topK: nat

    constructor (collection: Collection, registry: map<string, DocumentRecord>,
                 embed: string -> Embedding,
                 storeQuery: (map<string, Entry>, Embedding, nat, Option<Metadata>) -> Option<QueryResponse>,
                 chunkSize: nat, chunkOverlap: nat, topK: nat)
      ensures this.collection == collection && this.registry == registry
      ensures this.embed == embed && this.storeQuery == storeQuery
      ensures this.chunkSize == chunkSize && this.chunkOverlap == chunkOverlap && this.topK == topK
    {
      this.collection := collection;
      this.registry := registry;
      this.embed := embed;
      this.storeQuery := storeQuery;
      this.chunkSize := chunkSize;
      this.chunkOverlap := chunkOverlap;
      this.topK := topK;
    }

    /**
     * `process_pdf_document`, from the extracted page texts on. No chunks
     * gives `false` and changes nothing; with a positive chunk size that is
     * exactly the case of a PDF whose pages are all blank. Otherwise chunk
     * `i` is added under `ChunkId(documentId, i)`, the document's row (if any)
     * is marked processed with the chunk count, and the result is `true`.
     */
    method ProcessPdfDocument(filePath: string, pages: seq<string>, documentId: string, metadata: Metadata)
      returns (ok: bool)
      modifies this, collection
      ensures ok <==> ExtractChunks(pages, chunkSize, chunkOverlap) != []
      ensures chunkSize > 0 ==> (ok <==> exists i :: 0 <= i < |pages| && !AllSpace(pages[i]))
      ensures !ok ==> collection.entries == old(collection.entries) && registry == old(registry)
      ensures ok ==>
              var cs := ExtractChunks(pages, chunkSize, chunkOverlap);
              && collection.entries == WithChunks(old(collection.entries), embed, documentId, filePath, metadata, cs)
              && registry == Registered(old(registry), documentId, |cs|)
    {
      if chunkSize > 0 {
        NoChunksIffBlankPages(pages, chunkSize, chunkOverlap);
      }
      var textChunks := ExtractTextFromPdf(pages, chunkSize, chunkOverlap);
      if textChunks == [] {
        return false;
      }
      var chunkIds, chunkTexts, chunkMetadatas := BuildBatch(filePath, documentId, metadata, textChunks);
      var embeddings := EncodeAll(embed, chunkTexts);
      collection.Add(chunkIds, embeddings, chunkTexts, chunkMetadatas);
      if documentId in registry {
        registry := registry[documentId := DocumentRecord(true, |textChunks|)];
      }
      ok := true;
    }

    /** The loop of `process_pdf_document` that fills the id, text and metadata lists, one chunk at a time. */
    static method BuildBatch(filePath: string, documentId: string, metadata: Metadata, textChunks: seq<string>)
      returns (chunkIds: seq<string>, chunkTexts: seq<string>, chunkMetadatas: seq<Metadata>)
      ensures chunkIds == ChunkIds(documentId, |textChunks|)
      ensures chunkTexts == textChunks
      ensures chunkMetadatas == ChunkMetadatas(documentId, filePath, metadata, |textChunks|)
    {
      chunkIds, chunkTexts, chunkMetadatas := [], [], [];
      for i := 0 to |textChunks|
        invariant chunkIds == ChunkIds(documentId, i)
        invariant chunkTexts == textChunks[..i]
        invariant chunkMetadatas == ChunkMetadatas(documentId, filePath, metadata, i)
      {
        chunkIds := chunkIds + [ChunkId(documentId, i)];
        chunkTexts := chunkTexts + [textChunks[i]];
        chunkMetadatas := chunkMetadatas + [ChunkMetadata(documentId, i, filePath, metadata)];
      }
      assert chunkTexts == textChunks[..|textChunks|] == textChunks;
    }

    /**
     * `delete_document_chunks`: remove exactly the entries whose metadata
     * `document_id` is `documentId`, keep every other entry, and report
     * success even when nothing matched.
     */
    method DeleteDocumentChunks(documentId: string) returns (ok: bool)
      modifies collection
      ensures ok
      ensures collection.entries == WithoutDocument(old(collection.entries), documentId)
    {
      var ids := collection.IdsWhere("document_id", Str(documentId));
      if ids != {} {
        collection.Delete(ids);
      }
      ok := true;
    }

    /**
     * `search_similar_documents`: the formatted hits of the database's query
     * for the query's embedding, `nResults` and the filter.
     */
    function SearchSimilarDocuments(query: string, nResults: nat, filter: Option<Metadata>): (hits: seq<SearchHit>)
      reads this, collection
      ensures var response := storeQuery(collection.entries, embed(query), nResults, filter);
              response.Some? && SoundResponse(collection.entries, nResults, filter, response.value) ==>
                |hits| <= nResults &&
                forall i :: 0 <= i < |hits| ==> SatisfiesFilter(hits[i].metadata, filter)
    {
      var response := storeQuery(collection.entries, embed(query), nResults, filter);
      if response.Some? then
        ResultsFromSoundResponse(collection.entries, nResults, filter, response.value);
        FormatResults(response)
      else
        FormatResults(response)
    }

    /**
     * `get_relevant_context`: the texts of the `topK` search results for the
     * query, in rank order, filtered on `category` when one is given.
     */
    function GetRelevantContext(query: string, category: Option<string>): (texts: seq<string>)
      reads this, collection
      ensures var hits := SearchSimilarDocuments(query, topK, CategoryFilter(category));
              |texts| == |hits| && forall i :: 0 <= i < |hits| ==> texts[i] == hits[i].text
    {
      Texts(SearchSimilarDocuments(query, topK, CategoryFilter(category)))
    }
  }
}
