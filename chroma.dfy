/** The two collaborators of the retrieval memory, reduced to what the memory
    relies on: the embedding service (text and task type to a vector, the
    empty vector meaning failure) and the persistent vector collection (a map
    from id to stored entry, with `add` and a nearest-neighbour `query`). */
module Chroma {

  /** An embedding. The empty vector stands for a failed request: the
      embedding helper turns every exception of the service into `[]`. */
  type Vector = seq<real>

  /** The two task types the memory asks the embedding service for. */
  datatype TaskType = RetrievalDocument | RetrievalQuery

  /** The embedding service as seen by the memory. */
  type Embedder = (string, TaskType) -> Vector

  /** The metadata dictionary stored with a chunk. */
  type Metadata = map<string, string>

  /** One stored item: the vector, the chunk text and its metadata. */
  datatype Entry = Entry(embedding: Vector, document: string, metadata: Metadata)

  /** One result of a nearest-neighbour query: a stored document with its
      metadata, as `query` returns them in its `documents` and `metadatas`
      lists. */
  datatype Hit = Hit(document: string, metadata: Metadata)

  /** The four parallel lists of one `add` call. */
  datatype Batch = Batch(ids: seq<string>, embeddings: seq<Vector>, metadatas: seq<Metadata>, documents: seq<string>)
  {
    /** The four lists have one element per id. */
    predicate InStep() {
      |ids| == |embeddings| == |metadatas| == |documents|
    }

    /** The entry that position `j` of the batch describes. */
    function EntryAt(j: nat): Entry
      requires InStep() && j < |ids|
    {
      Entry(embeddings[j], documents[j], metadatas[j])
    }
  }

  predicate Distinct(ids: seq<string>) {
    forall j, k :: 0 <= j < k < |ids| ==> ids[j] != ids[k]
  }

  /** What `add` promises about the stored map: the ids of the batch are
      now stored; an id that was new holds the entry the batch gives it; an
      id that was already stored holds either its former entry or the new
      one (which of the two is the store's choice); every other id keeps
      its entry. */
  ghost predicate Added(before: map<string, Entry>, after: map<string, Entry>, b: Batch)
    requires b.InStep()
  {
    && after.Keys == before.Keys + (set j | 0 <= j < |b.ids| :: b.ids[j])
    && (forall id :: id in before && id !in b.ids ==> after[id] == before[id])
    && (forall j :: 0 <= j < |b.ids| ==>
          after[b.ids[j]] == b.EntryAt(j) || (b.ids[j] in before && after[b.ids[j]] == before[b.ids[j]]))
  }

  /** The nearest-neighbour query of the collection: given the stored
      entries, a query vector and the number of results asked for, the
      results in order of relevance. The ranking is the store's own. */
  type Nearest = (map<string, Entry>, Vector, nat) -> seq<Hit>

  /** A query that behaves as a query of the store does: it returns at most
      as many results as asked for and no more than are stored, and each
      result is a stored entry. */
  ghost predicate Sound(nearest: Nearest) {
    && (forall m: map<string, Entry>, v: Vector, n: nat :: |nearest(m, v, n)| <= n && |nearest(m, v, n)| <= |m|)
    && (forall m: map<string, Entry>, v: Vector, n: nat, j: nat :: j < |nearest(m, v, n)| ==>
          exists id: string :: id in m && nearest(m, v, n)[j] == Hit(m[id].document, m[id].metadata))
  }

  /** The persistent collection the memory writes to. */
  class Collection {
    /** The stored items, by id. */
    var entries: map<string, Entry>
    /** Every batch passed to `Add`, in call order. */
    ghost var log: seq<Batch>

    constructor ()
      ensures entries == map[] && log == []
    {
      entries := map[];
      log := [];
    }

    /** `add(ids=..., embeddings=..., metadatas=..., documents=...)`. The
        store refuses lists of different lengths, repeated ids and an empty
        list of ids, so callers must not pass them. */
    method Add(ids: seq<string>, embeddings: seq<Vector>, metadatas: seq<Metadata>, documents: seq<string>)
      requires Batch(ids, embeddings, metadatas, documents).InStep()
      requires Distinct(ids) && |ids| > 0
      modifies this
      ensures Added(old(entries), entries, Batch(ids, embeddings, metadatas, documents))
      ensures log == old(log) + [Batch(ids, embeddings, metadatas, documents)]
    {
      ghost var b := Batch(ids, embeddings, metadatas, documents);
      for j := 0 to |ids|
        invariant entries.Keys == old(entries).Keys + (set k | 0 <= k < j :: ids[k])
        invariant forall id :: id in old(entries) ==> entries[id] == old(entries)[id]
        invariant log == old(log)
        invariant forall k :: 0 <= k < j && ids[k] !in old(entries) ==> entries[ids[k]] == b.EntryAt(k)
      {
        if ids[j] !in entries {
          entries := entries[ids[j] := Entry(embeddings[j], documents[j], metadatas[j])];
        }
      }
      log := log + [b];
    }
  }
}
