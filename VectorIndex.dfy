/**
 * The vector collection the retrieval service keeps its chunks in, seen as a
 * map from chunk id to (text, metadata, embedding). Nearest-neighbour ranking
 * belongs to the vector database and is not modelled here; the operations the
 * service performs on the collection are: add a batch, list the ids whose
 * metadata matches a filter, and delete by ids.
 */
module VectorIndex {

  /** A metadata value: the service stores strings and integers. */
  datatype MetaValue = Str(s: string) | Int(i: int)

  type Metadata = map<string, MetaValue>

  /** An embedding vector, as produced by the embedding model. */
  type Embedding = seq<real>

  datatype Entry = Entry(text: string, metadata: Metadata, embedding: Embedding)

  /** A `where={key: value}` equality filter holds of `md`. */
  predicate Matches(md: Metadata, key: string, value: MetaValue) {
    key in md && md[key] == value
  }

  /** Every key of `filter` is in `md` with the same value. */
  predicate MatchesAll(md: Metadata, filter: Metadata) {
    forall k :: k in filter ==> k in md && md[k] == filter[k]
  }

  /** No id occurs twice in `ids`. */
  predicate Distinct(ids: seq<string>) {
    forall i, j :: 0 <= i < j < |ids| ==> ids[i] != ids[j]
  }

  /**
   * The collection after adding the batch: each id is written, in batch
   * order, with its text, metadata and embedding; an id already present is
   * overwritten.
   */
  function Upsert(entries: map<string, Entry>, ids: seq<string>, embeddings: seq<Embedding>,
                  texts: seq<string>, metadatas: seq<Metadata>): (r: map<string, Entry>)
    requires |embeddings| == |ids| && |texts| == |ids| && |metadatas| == |ids|
    ensures r.Keys == entries.Keys + set i | 0 <= i < |ids| :: ids[i]
    decreases |ids|
  {
    if ids == [] then entries
    else
      Upsert(entries[ids[0] := Entry(texts[0], metadatas[0], embeddings[0])],
             ids[1..], embeddings[1..], texts[1..], metadatas[1..])
  }

  /** An id outside the batch keeps its entry. */
  lemma {:induction false} UpsertKeepsOthers(entries: map<string, Entry>, ids: seq<string>, embeddings: seq<Embedding>,
                                              texts: seq<string>, metadatas: seq<Metadata>, id: string)
    requires |embeddings| == |ids| && |texts| == |ids| && |metadatas| == |ids|
    requires id in entries && forall i :: 0 <= i < |ids| ==> ids[i] != id
    ensures id in Upsert(entries, ids, embeddings, texts, metadatas)
    ensures Upsert(entries, ids, embeddings, texts, metadatas)[id] == entries[id]
    decreases |ids|
  {
    if ids != [] {
      UpsertKeepsOthers(entries[ids[0] := Entry(texts[0], metadatas[0], embeddings[0])],
                        ids[1..], embeddings[1..], texts[1..], metadatas[1..], id);
    }
  }

  /** With distinct ids, the entry under the `k`-th id is the `k`-th item of the batch. */
  lemma {:induction false} UpsertAt(entries: map<string, Entry>, ids: seq<string>, embeddings: seq<Embedding>,
                                     texts: seq<string>, metadatas: seq<Metadata>, k: nat)
    requires |embeddings| == |ids| && |texts| == |ids| && |metadatas| == |ids|
    requires Distinct(ids) && k < |ids|
    ensures ids[k] in Upsert(entries, ids, embeddings, texts, metadatas)
    ensures Upsert(entries, ids, embeddings, texts, metadatas)[ids[k]] ==
            Entry(texts[k], metadatas[k], embeddings[k])
    decreases |ids|
  {
    var first := entries[ids[0] := Entry(texts[0], metadatas[0], embeddings[0])];
    if k == 0 {
      UpsertKeepsOthers(first, ids[1..], embeddings[1..], texts[1..], metadatas[1..], ids[0]);
    } else {
      UpsertAt(first, ids[1..], embeddings[1..], texts[1..], metadatas[1..], k - 1);
    }
  }

  /** The collection with the given ids removed; every other entry is kept as it was. */
  function DeleteIds(entries: map<string, Entry>, ids: set<string>): (r: map<string, Entry>)
    ensures r.Keys == entries.Keys - ids
    ensures forall id :: id in r ==> r[id] == entries[id]
  {
    entries - ids
  }

  /**
   * The vector collection: the service adds batches of chunk records to it,
   * looks up ids by metadata and deletes by id.
   */
  class Collection {
    var entries: map<string, Entry>

    constructor (entries: map<string, Entry>)
      ensures this.entries == entries
    {
      this.entries := entries;
    }

    /** `collection.add(ids=…, embeddings=…, documents=…, metadatas=…)`. */
    method Add(ids: seq<string>, embeddings: seq<Embedding>, texts: seq<string>, metadatas: seq<Metadata>)
      requires |embeddings| == |ids| && |texts| == |ids| && |metadatas| == |ids|
      modifies this
      ensures entries == Upsert(old(entries), ids, embeddings, texts, metadatas)
    {
      entries := Upsert(entries, ids, embeddings, texts, metadatas);
    }

    /** `collection.get(where={key: value})`: the ids of the entries whose metadata matches. */
    method IdsWhere(key: string, value: MetaValue) returns (ids: set<string>)
      ensures forall id :: id in ids <==> id in entries && Matches(entries[id].metadata, key, value)
    {
      ids := set id | id in entries && Matches(entries[id].metadata, key, value);
    }

    /** `collection.delete(ids=…)`. */
    method Delete(ids: set<string>)
      modifies this
      ensures entries == DeleteIds(old(entries), ids)
    {
      entries := DeleteIds(entries, ids);
    }
  }
}
