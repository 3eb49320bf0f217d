/** The retrieval memory: cutting a document into chunks and storing those
    whose embedding succeeded (`guardar_memoria`), answering a question from
    the nearest stored chunks (`buscar_memoria`), and listing the documents
    the memory holds (`listar_archivos_guardados`). */
module Rag {
  import opened Results
  import opened Strings
  import opened Chroma

  /** Characters per chunk. */
  const ChunkSize: nat := 1000
  /** The metadata key that names a chunk's document. */
  const FuenteKey := "fuente"
  /** How many nearest chunks a question asks for. */
  const TopK: nat := 3
  /** What stands between two retrieved chunks in the answer's context. */
  const Separator := "\n---\n"

  const NoEmbeddingMessage := "Error: No se pudo generar ningún embedding."
  const QuestionErrorMessage := "Error al procesar la pregunta."
  const NothingFoundMessage := "No encontré información relevante en mis apuntes."
  const EmptyMemoryMessage := "La memoria está vacía."
  const ReadErrorPrefix := "Error leyendo memoria: "
  /** The text of the `KeyError` raised for a metadata entry without `fuente`. */
  const MissingKeyReason := "'fuente'"

  function Min(a: int, b: int): int {
    if a <= b then a else b
  }

  // ---------------------------------------------------------------------
  // Chunking

  /** The chunks of a text: consecutive pieces of `ChunkSize` characters,
      the last one possibly shorter. */
  function Chunks(text: string): (r: seq<string>)
    ensures forall k :: 0 <= k < |r| ==> 0 < |r[k]| <= ChunkSize
    decreases |text|
  {
    if |text| == 0 then []
    else if |text| <= ChunkSize then [text]
    else [text[..ChunkSize]] + Chunks(text[ChunkSize..])
  }

  /** Gluing pieces back together, in order. */
  function Concat(pieces: seq<string>): string
  {
    if pieces == [] then "" else pieces[0] + Concat(pieces[1..])
  }

  /** Chunking loses nothing and adds nothing: the chunks, glued back
      together, are the text. */
  lemma {:induction false} ChunksConcat(text: string)
    ensures Concat(Chunks(text)) == text
    decreases |text|
  {
    if |text| > ChunkSize {
      var r := Chunks(text);
      assert r[0] == text[..ChunkSize];
      assert r[1..] == Chunks(text[ChunkSize..]);
      ChunksConcat(text[ChunkSize..]);
      assert text == text[..ChunkSize] + text[ChunkSize..];
    }
  }

  /** The chunks are exactly the slices `text[i:i+1000]` for `i` in
      `range(0, len(text), 1000)`: there are ceil(len/1000) of them, and
      chunk `k` is the slice that starts at `1000 * k`. */
  lemma {:induction false} ChunksAreSlices(text: string)
    ensures |Chunks(text)| == (|text| + ChunkSize - 1) / ChunkSize
    ensures forall k :: 0 <= k < |Chunks(text)| ==>
      k * ChunkSize < |text| &&
      Chunks(text)[k] == text[k * ChunkSize..Min((k + 1) * ChunkSize, |text|)]
    decreases |text|
  {
    if |text| > ChunkSize {
      var rest := text[ChunkSize..];
      ChunksAreSlices(rest);
      var r := Chunks(text);
      assert r == [text[..ChunkSize]] + Chunks(rest);
      forall k | 0 <= k < |r|
        ensures k * ChunkSize < |text|
        ensures r[k] == text[k * ChunkSize..Min((k + 1) * ChunkSize, |text|)]
      {
        if k > 0 {
          assert r[k] == Chunks(rest)[k - 1];
          var lo, hi := (k - 1) * ChunkSize, Min(k * ChunkSize, |rest|);
          assert lo + ChunkSize == k * ChunkSize;
          assert hi + ChunkSize == Min((k + 1) * ChunkSize, |text|);
          SliceOfSuffix(text, ChunkSize, lo, hi);
        }
      }
    }
  }

  // ---------------------------------------------------------------------
  // Storing a document

  /** The id of chunk `i` of document `name`: `{name}_parte_{i}`. */
  function ChunkId(name: string, i: nat): (id: string)
    ensures name <= id && |name| < |id|
  {
    name + "_parte_" + NatToString(i)
  }

  /** The metadata stored with every chunk of document `name`. */
  function SourceMetadata(name: string): Metadata
  {
    map[FuenteKey := name]
  }

  /** How many decimal digits a string ends with. */
  function TrailingDigits(s: string): nat
  {
    if |s| == 0 || !IsDigit(s[|s| - 1]) then 0 else 1 + TrailingDigits(s[..|s| - 1])
  }

  /** A digit string written after a non-digit is exactly the trailing
      digits of the result. */
  lemma {:induction false} TrailingDigitsAfter(p: string, d: string)
    requires |p| > 0 && !IsDigit(p[|p| - 1]) && AllDigits(d)
    ensures TrailingDigits(p + d) == |d|
    decreases |d|
  {
    if d == [] {
      assert p + d == p;
    } else {
      var d' := d[..|d| - 1];
      assert (p + d)[..|p + d| - 1] == p + d';
      TrailingDigitsAfter(p, d');
    }
  }

  /** An id names one document and one chunk index: no two (name, index)
      pairs share an id, so ids are unique across the whole memory, not only
      within one document. */
  lemma ChunkIdInjective(a: string, i: nat, b: string, j: nat)
    requires ChunkId(a, i) == ChunkId(b, j)
    ensures a == b && i == j
  {
    var s := ChunkId(a, i);
    var pa, pb := a + "_parte_", b + "_parte_";
    var da, db := NatToString(i), NatToString(j);
    assert s == pa + da == pb + db;
    assert pa[|pa| - 1] == '_' && pb[|pb| - 1] == '_';
    TrailingDigitsAfter(pa, da);
    TrailingDigitsAfter(pb, db);
    var n := |s|;
    assert da == s[n - |da|..] == db;
    NatToStringInjective(i, j);
    assert pa == s[..n - |da|] == pb;
    assert a == pa[..|a|];
    assert b == pb[..|b|];
  }

  /** One chunk that is kept for storage: its index among the chunks, its
      id, its embedding, its metadata and its text. */
  datatype Fragment = Fragment(index: nat, id: string, embedding: Vector, metadata: Metadata, document: string)

  /** Fragment `f` is chunk `f.index` of `chunks`, embedded successfully,
      with the id and metadata that document `name` gives it. */
  ghost predicate Describes(f: Fragment, name: string, chunks: seq<string>, embed: Embedder)
  {
    && f.index < |chunks|
    && f.document == chunks[f.index]
    && f.embedding == embed(chunks[f.index], RetrievalDocument)
    && |f.embedding| > 0
    && f.id == ChunkId(name, f.index)
    && f.metadata == SourceMetadata(name)
  }

  /** The chunks kept when storing document `name`: those whose embedding
      is not empty, in chunk order. */
  function Fragments(name: string, chunks: seq<string>, embed: Embedder): (fs: seq<Fragment>)
    ensures |fs| <= |chunks|
    ensures forall j :: 0 <= j < |fs| ==> Describes(fs[j], name, chunks, embed)
    ensures forall j, k :: 0 <= j < k < |fs| ==> fs[j].index < fs[k].index
    decreases |chunks|
  {
    if chunks == [] then []
    else
      var i := |chunks| - 1;
      var prev := Fragments(name, chunks[..i], embed);
      var vector := embed(chunks[i], RetrievalDocument);
      if |vector| > 0 then prev + [Fragment(i, ChunkId(name, i), vector, SourceMetadata(name), chunks[i])]
      else prev
  }

  /** Fragments of all chunks but the last, followed by the last chunk's
      fragment when its embedding is not empty. */
  lemma FragmentsLast(name: string, chunks: seq<string>, embed: Embedder)
    requires |chunks| > 0
    ensures var last := |chunks| - 1;
      var vector := embed(chunks[last], RetrievalDocument);
      Fragments(name, chunks, embed) ==
        Fragments(name, chunks[..last], embed) +
        (if |vector| > 0 then [Fragment(last, ChunkId(name, last), vector, SourceMetadata(name), chunks[last])] else [])
  {
  }

  /** A chunk whose embedding is not empty is kept. */
  lemma {:induction false} FragmentsKeep(name: string, chunks: seq<string>, embed: Embedder, i: nat) returns (j: nat)
    requires i < |chunks| && |embed(chunks[i], RetrievalDocument)| > 0
    ensures j < |Fragments(name, chunks, embed)| && Fragments(name, chunks, embed)[j].index == i
    decreases |chunks|
  {
    var last := |chunks| - 1;
    var fs := Fragments(name, chunks, embed);
    var prev := Fragments(name, chunks[..last], embed);
    FragmentsLast(name, chunks, embed);
    if i == last {
      j := |prev|;
    } else {
      assert chunks[..last][i] == chunks[i];
      j := FragmentsKeep(name, chunks[..last], embed, i);
      assert fs[j] == prev[j];
    }
  }

  /** A chunk whose embedding is empty is not kept. */
  lemma {:induction false} FragmentsDrop(name: string, chunks: seq<string>, embed: Embedder, i: nat)
    requires i < |chunks| && |embed(chunks[i], RetrievalDocument)| == 0
    ensures forall j :: 0 <= j < |Fragments(name, chunks, embed)| ==> Fragments(name, chunks, embed)[j].index != i
    decreases |chunks|
  {
    var last := |chunks| - 1;
    var fs := Fragments(name, chunks, embed);
    var prev := Fragments(name, chunks[..last], embed);
    FragmentsLast(name, chunks, embed);
    if i == last {
      assert fs == prev;
      forall j | 0 <= j < |fs| ensures fs[j].index != i {
        assert Describes(prev[j], name, chunks[..last], embed);
      }
    } else {
      assert chunks[..last][i] == chunks[i];
      FragmentsDrop(name, chunks[..last], embed, i);
      forall j | 0 <= j < |fs| ensures fs[j].index != i {
        if j < |prev| {
          assert fs[j] == prev[j];
        } else {
          assert fs[j].index == last;
        }
      }
    }
  }

  /** A chunk is kept if and only if its embedding is not empty. */
  lemma FragmentsComplete(name: string, chunks: seq<string>, embed: Embedder, i: nat)
    requires i < |chunks|
    ensures |embed(chunks[i], RetrievalDocument)| > 0 <==>
      exists j :: 0 <= j < |Fragments(name, chunks, embed)| && Fragments(name, chunks, embed)[j].index == i
  {
    if |embed(chunks[i], RetrievalDocument)| > 0 {
      var j := FragmentsKeep(name, chunks, embed, i);
      assert 0 <= j < |Fragments(name, chunks, embed)| && Fragments(name, chunks, embed)[j].index == i;
    } else {
      FragmentsDrop(name, chunks, embed, i);
    }
  }

  /** The four parallel lists built from the kept fragments. */
  function Columns(fs: seq<Fragment>): (b: Batch)
    ensures b.InStep() && |b.ids| == |fs|
    ensures forall j :: 0 <= j < |fs| ==>
      b.ids[j] == fs[j].id && b.embeddings[j] == fs[j].embedding &&
      b.metadatas[j] == fs[j].metadata && b.documents[j] == fs[j].document
  {
    if fs == [] then Batch([], [], [], [])
    else
      var c := Columns(fs[..|fs| - 1]);
      var f := fs[|fs| - 1];
      Batch(c.ids + [f.id], c.embeddings + [f.embedding], c.metadatas + [f.metadata], c.documents + [f.document])
  }

  /** What storing `text` under `name` hands to the collection. */
  function MemorizeBatch(text: string, name: string, embed: Embedder): (b: Batch)
    ensures b.InStep() && |b.ids| <= |Chunks(text)|
  {
    Columns(Fragments(name, Chunks(text), embed))
  }

  /** The lists handed to the collection are in step: at every position
      the id, the vector, the metadata and the text belong to one chunk,
      whose embedding succeeded. */
  lemma BatchInStep(text: string, name: string, embed: Embedder, j: nat)
    requires j < |MemorizeBatch(text, name, embed).ids|
    ensures MemorizeBatch(text, name, embed).InStep()
    ensures var b, chunks := MemorizeBatch(text, name, embed), Chunks(text);
      exists k :: 0 <= k < |chunks| &&
        b.ids[j] == ChunkId(name, k) && b.documents[j] == chunks[k] &&
        b.embeddings[j] == embed(chunks[k], RetrievalDocument) && |b.embeddings[j]| > 0 &&
        b.metadatas[j] == map["fuente" := name]
  {
    var fs := Fragments(name, Chunks(text), embed);
    assert Describes(fs[j], name, Chunks(text), embed);
  }

  /** No id repeats within the lists of one call. */
  lemma BatchIdsDistinct(text: string, name: string, embed: Embedder)
    ensures Distinct(MemorizeBatch(text, name, embed).ids)
  {
    var fs := Fragments(name, Chunks(text), embed);
    var ids := MemorizeBatch(text, name, embed).ids;
    forall j, k | 0 <= j < k < |ids| ensures ids[j] != ids[k] {
      assert fs[j].index < fs[k].index;
      if ids[j] == ids[k] {
        ChunkIdInjective(name, fs[j].index, name, fs[k].index);
      }
    }
  }

  /** The string `guardar_memoria` returns after storing `stored` chunks. */
  function Report(name: string, stored: nat): string
  {
    if stored == 0 then NoEmbeddingMessage
    else "He memorizado " + NatToString(stored) + " fragmentos del archivo " + name + "."
  }

  /** The string `guardar_memoria(text, name)` returns. */
  function MemorizeReport(text: string, name: string, embed: Embedder): string
  {
    Report(name, |MemorizeBatch(text, name, embed).ids|)
  }

  /** An empty text has no chunks, so nothing is stored and the result is
      the failure message. */
  lemma EmptyTextStoresNothing(name: string, embed: Embedder)
    ensures MemorizeBatch("", name, embed).ids == []
    ensures MemorizeReport("", name, embed) == "Error: No se pudo generar ningún embedding."
  {
  }

  /** Every stored item was written by `Memorize`: its id is the chunk id of
      some document and chunk index, and its metadata names that document. */
  ghost predicate Owned(entries: map<string, Entry>)
  {
    forall id :: id in entries ==>
      exists name: string, k: nat :: id == ChunkId(name, k) && entries[id].metadata == SourceMetadata(name)
  }

  /** The documents the stored items name. */
  function StoredSources(entries: map<string, Entry>): set<string>
  {
    set id | id in entries && FuenteKey in entries[id].metadata :: entries[id].metadata[FuenteKey]
  }

  /** Batch `b` holds chunks of document `name`: position `j` has the id of
      chunk `indices[j]` and the metadata naming `name`. */
  ghost predicate OfDocument(b: Batch, name: string, indices: seq<nat>)
  {
    && b.InStep() && |indices| == |b.ids|
    && forall j :: 0 <= j < |b.ids| ==>
         b.ids[j] == ChunkId(name, indices[j]) && b.metadatas[j] == SourceMetadata(name)
  }

  /** Adding chunks of one document to a memory of owned items leaves every
      item owned. */
  lemma AddedOwned(before: map<string, Entry>, after: map<string, Entry>, b: Batch, name: string, indices: seq<nat>)
    requires OfDocument(b, name, indices) && Added(before, after, b) && Owned(before)
    ensures Owned(after)
  {
    forall id | id in after
      ensures exists n: string, k: nat :: id == ChunkId(n, k) && after[id].metadata == SourceMetadata(n)
    {
      if id in b.ids {
        var j :| 0 <= j < |b.ids| && b.ids[j] == id;
        if after[id] == b.EntryAt(j) {
          assert id == ChunkId(name, indices[j]) && after[id].metadata == SourceMetadata(name);
        }
      }
    }
  }

  /** Adding chunks of one document names no document other than the
      former ones and that one. */
  lemma AddedSourcesWithin(before: map<string, Entry>, after: map<string, Entry>, b: Batch, name: string, indices: seq<nat>)
    requires OfDocument(b, name, indices) && Added(before, after, b)
    ensures StoredSources(after) <= StoredSources(before) + {name}
  {
    forall id | id in after && FuenteKey in after[id].metadata
      ensures after[id].metadata[FuenteKey] in StoredSources(before) + {name}
    {
      if id in b.ids {
        var j :| 0 <= j < |b.ids| && b.ids[j] == id;
        if after[id] != b.EntryAt(j) {
          assert after[id] == before[id];
        }
      } else {
        assert after[id] == before[id];
      }
    }
  }

  /** Adding a non-empty batch of chunks of one document to a memory of
      owned items keeps every document it named and names the new one:
      whatever the collection does with an id it already holds, that id
      already named the same document. */
  lemma AddedSourcesKept(before: map<string, Entry>, after: map<string, Entry>, b: Batch, name: string, indices: seq<nat>)
    requires OfDocument(b, name, indices) && Added(before, after, b) && Owned(before) && |b.ids| > 0
    ensures StoredSources(before) + {name} <= StoredSources(after)
  {
    forall id | id in before && FuenteKey in before[id].metadata
      ensures before[id].metadata[FuenteKey] in StoredSources(after)
    {
      var n: string, k: nat :| id == ChunkId(n, k) && before[id].metadata == SourceMetadata(n);
      if id in b.ids {
        var j :| 0 <= j < |b.ids| && b.ids[j] == id;
        ChunkIdInjective(n, k, name, indices[j]);
        assert after[id].metadata == SourceMetadata(name);
      } else {
        assert after[id] == before[id];
      }
    }
    var id0 := b.ids[0];
    assert id0 in after;
    if after[id0] != b.EntryAt(0) {
      var n: string, k: nat :| id0 == ChunkId(n, k) && before[id0].metadata == SourceMetadata(n);
      ChunkIdInjective(n, k, name, indices[0]);
    }
    assert after[id0].metadata[FuenteKey] == name;
  }

  /** The kept fragments, read step by step: the first `i + 1` chunks keep
      what the first `i` keep, plus chunk `i` when its embedding succeeded. */
  lemma FragmentsStep(name: string, chunks: seq<string>, embed: Embedder, i: nat)
    requires i < |chunks|
    ensures Fragments(name, chunks[..i + 1], embed) ==
      Fragments(name, chunks[..i], embed) +
      (if |embed(chunks[i], RetrievalDocument)| > 0
       then [Fragment(i, ChunkId(name, i), embed(chunks[i], RetrievalDocument), SourceMetadata(name), chunks[i])]
       else [])
  {
    assert chunks[..i + 1][..i] == chunks[..i];
    assert chunks[..i + 1][i] == chunks[i];
  }

  lemma ColumnsSnoc(fs: seq<Fragment>, f: Fragment)
    ensures Columns(fs + [f]) ==
      Batch(Columns(fs).ids + [f.id], Columns(fs).embeddings + [f.embedding],
            Columns(fs).metadatas + [f.metadata], Columns(fs).documents + [f.document])
  {
    assert (fs + [f])[..|fs|] == fs;
  }

  /** The batch of `guardar_memoria(text, name)` holds chunks of document
      `name`, at the indices of its kept fragments. */
  lemma BatchOfDocument(text: string, name: string, embed: Embedder) returns (indices: seq<nat>)
    ensures OfDocument(MemorizeBatch(text, name, embed), name, indices)
  {
    var fs := Fragments(name, Chunks(text), embed);
    indices := seq(|fs|, j requires 0 <= j < |fs| => fs[j].index);
  }

  /** Storing a document with at least one kept chunk in a memory of owned
      items keeps every item owned and adds exactly that document's name to
      the documents the memory holds. */
  lemma MemorizedSources(before: map<string, Entry>, after: map<string, Entry>, text: string, name: string, embed: Embedder)
    requires Added(before, after, MemorizeBatch(text, name, embed))
    requires |MemorizeBatch(text, name, embed).ids| > 0 && Owned(before)
    ensures Owned(after) && StoredSources(after) == StoredSources(before) + {name}
  {
    var b := MemorizeBatch(text, name, embed);
    var indices := BatchOfDocument(text, name, embed);
    AddedOwned(before, after, b, name, indices);
    AddedSourcesWithin(before, after, b, name, indices);
    AddedSourcesKept(before, after, b, name, indices);
  }

  /** The loop of `guardar_memoria(text, name)`: walks the chunks, embeds
      each one, and appends the kept ones to four parallel lists. */
  method CollectFragments(text: string, name: string, embed: Embedder) returns (b: Batch)
    ensures b == MemorizeBatch(text, name, embed)
  {
    var chunks := Chunks(text);
    var ids: seq<string> := [];
    var embeddings: seq<Vector> := [];
    var metadatas: seq<Metadata> := [];
    var documents: seq<string> := [];
    ghost var fs: seq<Fragment> := [];
    for i := 0 to |chunks|
      invariant fs == Fragments(name, chunks[..i], embed)
      invariant Batch(ids, embeddings, metadatas, documents) == Columns(fs)
    {
      FragmentsStep(name, chunks, embed, i);
      var id := ChunkId(name, i);
      var vector := embed(chunks[i], RetrievalDocument);
      if |vector| > 0 {
        ghost var f := Fragment(i, id, vector, SourceMetadata(name), chunks[i]);
        ColumnsSnoc(fs, f);
        fs := fs + [f];
        ids := ids + [id];
        embeddings := embeddings + [vector];
        metadatas := metadatas + [map[FuenteKey := name]];
        documents := documents + [chunks[i]];
      }
    }
    assert chunks[..|chunks|] == chunks;
    b := Batch(ids, embeddings, metadatas, documents);
  }

  /** `guardar_memoria(text, name)`: stores the kept chunks in one `add`
      call, or nothing when no chunk could be embedded, and reports how many
      chunks it stored. */
  method Memorize(store: Collection, text: string, name: string, embed: Embedder) returns (msg: string)
    modifies store
    ensures msg == MemorizeReport(text, name, embed)
    ensures var b := MemorizeBatch(text, name, embed);
      if |b.ids| == 0 then store.entries == old(store.entries) && store.log == old(store.log)
      else Added(old(store.entries), store.entries, b) && store.log == old(store.log) + [b]
    ensures Owned(old(store.entries)) ==>
      (Owned(store.entries) &&
       StoredSources(store.entries) ==
         StoredSources(old(store.entries)) + (if |MemorizeBatch(text, name, embed).ids| == 0 then {} else {name}))
  {
    var b := CollectFragments(text, name, embed);
    if |b.ids| > 0 {
      BatchIdsDistinct(text, name, embed);
      ghost var before := store.entries;
      store.Add(b.ids, b.embeddings, b.metadatas, b.documents);
      assert Batch(b.ids, b.embeddings, b.metadatas, b.documents) == b;
      if Owned(before) {
        MemorizedSources(before, store.entries, text, name, embed);
      }
      msg := "He memorizado " + NatToString(|b.ids|) + " fragmentos del archivo " + name + ".";
    } else {
      msg := NoEmbeddingMessage;
    }
  }

  // ---------------------------------------------------------------------
  // Distinct sources

  /** `set([meta['fuente'] for meta in metas])`: the distinct document names
      of a list of metadata, or `None` where a metadata has no `fuente` and
      the lookup raises `KeyError`. */
  function DistinctSources(metas: seq<Metadata>): Option<set<string>>
    decreases |metas|
  {
    if metas == [] then Some({})
    else
      var last := metas[|metas| - 1];
      match DistinctSources(metas[..|metas| - 1])
      case None => None
      case Some(prev) => if FuenteKey in last then Some(prev + {last[FuenteKey]}) else None
  }

  /** The lookup fails exactly when some metadata has no `fuente`. */
  lemma {:induction false} DistinctSourcesFails(metas: seq<Metadata>)
    ensures DistinctSources(metas).None? <==> exists j :: 0 <= j < |metas| && FuenteKey !in metas[j]
    decreases |metas|
  {
    if metas != [] {
      var init := metas[..|metas| - 1];
      DistinctSourcesFails(init);
      assert forall j :: 0 <= j < |init| ==> init[j] == metas[j];
      if exists j :: 0 <= j < |metas| && FuenteKey !in metas[j] {
        var j :| 0 <= j < |metas| && FuenteKey !in metas[j];
        if j < |init| {
          assert FuenteKey !in init[j];
        }
      }
    }
  }

  /** When it succeeds, every name occurs in some metadata and every
      metadata's name is reported, each once (it is a set), and there are no
      more names than metadata. */
  lemma {:induction false} DistinctSourcesExact(metas: seq<Metadata>)
    requires DistinctSources(metas).Some?
    ensures |DistinctSources(metas).value| <= |metas|
    ensures forall s :: s in DistinctSources(metas).value <==>
      exists j :: 0 <= j < |metas| && FuenteKey in metas[j] && metas[j][FuenteKey] == s
    decreases |metas|
  {
    if metas != [] {
      var init := metas[..|metas| - 1];
      var last := metas[|metas| - 1];
      DistinctSourcesExact(init);
      var prev := DistinctSources(init).value;
      assert DistinctSources(metas).value == prev + {last[FuenteKey]};
      assert |prev + {last[FuenteKey]}| <= |prev| + 1;
      forall s | s in prev ensures exists j :: 0 <= j < |metas| && FuenteKey in metas[j] && metas[j][FuenteKey] == s {
        var j :| 0 <= j < |init| && FuenteKey in init[j] && init[j][FuenteKey] == s;
        assert metas[j] == init[j];
      }
      forall j | 0 <= j < |init| && FuenteKey in metas[j] ensures metas[j][FuenteKey] in prev {
        assert metas[j] == init[j];
      }
    }
  }

  /** The set of names is empty exactly when there was no metadata. */
  lemma DistinctSourcesEmpty(metas: seq<Metadata>)
    ensures DistinctSources(metas) == Some({}) <==> metas == []
  {
    if metas != [] && DistinctSources(metas).Some? {
      DistinctSourcesFails(metas);
      DistinctSourcesExact(metas);
      assert metas[0][FuenteKey] in DistinctSources(metas).value;
    }
  }

  // ---------------------------------------------------------------------
  // Answering a question

  /** What `buscar_memoria` produces: the question could not be embedded;
      the query found nothing; a result had no `fuente` (the `KeyError`
      escapes); or the distinct sources and the joined context. */
  datatype SearchOutcome =
    | QuestionFailed
    | NothingFound
    | MissingSource
    | Found(sources: set<string>, context: string)

  function Documents(hits: seq<Hit>): seq<string>
  {
    seq(|hits|, j requires 0 <= j < |hits| => hits[j].document)
  }

  function Metadatas(hits: seq<Hit>): seq<Metadata>
  {
    seq(|hits|, j requires 0 <= j < |hits| => hits[j].metadata)
  }

  /** `buscar_memoria(question)`: embed the question as a query, ask the
      collection for the `TopK` nearest chunks, and assemble their texts and
      sources. */
  function Search(question: string, embed: Embedder, entries: map<string, Entry>, nearest: Nearest): (r: SearchOutcome)
    ensures var v := embed(question, RetrievalQuery);
      && (r.QuestionFailed? <==> |v| == 0)
      && (r.NothingFound? <==> |v| > 0 && nearest(entries, v, TopK) == [])
      && (r.MissingSource? <==>
            (|v| > 0 && nearest(entries, v, TopK) != [] &&
             exists j :: 0 <= j < |nearest(entries, v, TopK)| && FuenteKey !in nearest(entries, v, TopK)[j].metadata))
    ensures r.Found? ==>
      var hits := nearest(entries, embed(question, RetrievalQuery), TopK);
      && hits != []
      && r.context == Join(Documents(hits), Separator)
      && (forall j :: 0 <= j < |hits| ==> Contains(r.context, hits[j].document))
      && |r.sources| <= |hits|
      && forall s :: s in r.sources <==>
           exists j :: 0 <= j < |hits| && FuenteKey in hits[j].metadata && hits[j].metadata[FuenteKey] == s
  {
    var vector := embed(question, RetrievalQuery);
    if |vector| == 0 then QuestionFailed
    else
      var hits := nearest(entries, vector, TopK);
      if |hits| == 0 then NothingFound
      else
        var context := Join(Documents(hits), Separator);
        HitSources(hits);
        match DistinctSources(Metadatas(hits))
        case None => MissingSource
        case Some(sources) =>
          HitContexts(hits);
          Found(sources, context)
  }

  /** The sources of a list of hits, read through their metadata: the lookup
      fails exactly when a hit has no `fuente`, and otherwise gives each
      hit's `fuente` and nothing else. */
  lemma HitSources(hits: seq<Hit>)
    ensures DistinctSources(Metadatas(hits)).None? <==>
      exists j :: 0 <= j < |hits| && FuenteKey !in hits[j].metadata
    ensures DistinctSources(Metadatas(hits)).Some? ==>
      && |DistinctSources(Metadatas(hits)).value| <= |hits|
      && forall s :: s in DistinctSources(Metadatas(hits)).value <==>
           exists j :: 0 <= j < |hits| && FuenteKey in hits[j].metadata && hits[j].metadata[FuenteKey] == s
  {
    var metas := Metadatas(hits);
    DistinctSourcesFails(metas);
    assert forall j :: 0 <= j < |hits| ==> metas[j] == hits[j].metadata;
    if DistinctSources(metas).Some? {
      DistinctSourcesExact(metas);
    }
  }

  /** Every hit's text occurs in the joined context. */
  lemma HitContexts(hits: seq<Hit>)
    ensures forall j :: 0 <= j < |hits| ==> Contains(Join(Documents(hits), Separator), hits[j].document)
  {
    forall j | 0 <= j < |hits| ensures Contains(Join(Documents(hits), Separator), hits[j].document) {
      JoinContains(Documents(hits), Separator, j);
    }
  }

  /** The string `buscar_memoria` returns, given how Python prints the set of
      sources; `None` when the `KeyError` escapes instead. */
  function SearchReply(r: SearchOutcome, show: set<string> -> string): (reply: Option<string>)
    ensures reply.None? <==> r.MissingSource?
    ensures r.Found? ==> Contains(reply.value, r.context)
  {
    match r
    case QuestionFailed => Some(QuestionErrorMessage)
    case NothingFound => Some(NothingFoundMessage)
    case MissingSource => None
    case Found(sources, context) =>
      var head := "INFORMACIÓN ENCONTRADA EN (" + show(sources) + "):\n";
      ContainsAt(context, context, 0);
      ContainsInside(head, context, "", context);
      assert head + context + "" == head + context;
      Some(head + context)
  }

  /** When the question cannot be embedded the collection is not consulted:
      the outcome is the same whatever the collection holds and however it
      answers queries. */
  lemma SearchWithoutQuery(question: string, embed: Embedder, e1: map<string, Entry>, n1: Nearest, e2: map<string, Entry>, n2: Nearest)
    requires |embed(question, RetrievalQuery)| == 0
    ensures Search(question, embed, e1, n1) == Search(question, embed, e2, n2) == QuestionFailed
  {
  }

  /** The collection is consulted once, with the question's query vector and
      a request for `TopK` = 3 results: two collections that answer that one
      query alike give the same outcome. */
  lemma SearchAsksTopK(question: string, embed: Embedder, e1: map<string, Entry>, n1: Nearest, e2: map<string, Entry>, n2: Nearest)
    requires var v := embed(question, RetrievalQuery); n1(e1, v, 3) == n2(e2, v, 3)
    ensures Search(question, embed, e1, n1) == Search(question, embed, e2, n2)
  {
  }

  /** Against a collection whose items were all written by `Memorize`, a
      search never raises, returns at most `TopK` chunks, and every source it
      reports is a document the memory holds. */
  lemma SearchGrounded(question: string, embed: Embedder, entries: map<string, Entry>, nearest: Nearest)
    requires Sound(nearest) && Owned(entries)
    ensures !Search(question, embed, entries, nearest).MissingSource?
    ensures var r := Search(question, embed, entries, nearest);
      r.Found? ==> |r.sources| <= TopK && r.sources <= StoredSources(entries)
  {
    var v := embed(question, RetrievalQuery);
    if |v| > 0 {
      var hits := nearest(entries, v, TopK);
      forall j | 0 <= j < |hits|
        ensures FuenteKey in hits[j].metadata && hits[j].metadata[FuenteKey] in StoredSources(entries)
      {
        var id :| id in entries && hits[j] == Hit(entries[id].document, entries[id].metadata);
        var n: string, k: nat :| id == ChunkId(n, k) && entries[id].metadata == SourceMetadata(n);
      }
    }
  }

  /** A memory with nothing stored answers every question with "nothing
      found" (or with the question error), never with chunks. */
  lemma SearchEmptyMemory(question: string, embed: Embedder, nearest: Nearest)
    requires Sound(nearest)
    ensures Search(question, embed, map[], nearest) in {QuestionFailed, NothingFound}
  {
    var none: map<string, Entry> := map[];
    assert |nearest(none, embed(question, RetrievalQuery), TopK)| <= |none|;
  }

  // ---------------------------------------------------------------------
  // Listing the stored documents

  /** What `listar_archivos_guardados` produces: a read failure (reading the
      collection raised, or a metadata had no `fuente`), an empty memory, or
      the distinct document names. */
  datatype ListOutcome = ReadFailed(reason: string) | EmptyMemory | Studied(names: set<string>)

  /** `listar_archivos_guardados()`, given what reading every metadata of
      the collection gave: the list, or the text of the exception raised. */
  function ListSources(got: Result<seq<Metadata>, string>): (r: ListOutcome)
    ensures got.Err? ==> r == ReadFailed(got.error)
    ensures r.EmptyMemory? <==> got == Ok([])
    ensures got.Ok? ==>
      (r == ReadFailed(MissingKeyReason) <==> exists j :: 0 <= j < |got.value| && FuenteKey !in got.value[j])
    ensures got.Ok? && r.ReadFailed? ==> r.reason == MissingKeyReason
    ensures got.Ok? && got.value != [] && (forall j :: 0 <= j < |got.value| ==> FuenteKey in got.value[j]) ==>
      r.Studied?
    ensures r.Studied? ==>
      (got.Ok? && r.names != {} &&
       forall s :: s in r.names <==>
         exists j :: 0 <= j < |got.value| && FuenteKey in got.value[j] && got.value[j][FuenteKey] == s)
  {
    match got
    case Err(e) => ReadFailed(e)
    case Ok(metas) =>
      DistinctSourcesFails(metas);
      DistinctSourcesEmpty(metas);
      match DistinctSources(metas)
      case None => ReadFailed(MissingKeyReason)
      case Some(names) =>
        DistinctSourcesExact(metas);
        if names == {} then EmptyMemory else Studied(names)
  }

  /** The string `listar_archivos_guardados` returns, given how Python joins
      the set of names. */
  function ListReply(r: ListOutcome, show: set<string> -> string): (reply: string)
    ensures ReadErrorPrefix <= reply <==> r.ReadFailed?
  {
    match r
    case ReadFailed(reason) => ReadErrorPrefix + reason
    case EmptyMemory => EmptyMemoryMessage
    case Studied(names) =>
      var reply := "Archivos estudiados: " + show(names);
      assert reply[0] != ReadErrorPrefix[0];
      reply
  }

  /** What reading the collection gives: the metadata of every stored item,
      in the order `order` the store lists its ids in. */
  function ReadMetadatas(entries: map<string, Entry>, order: seq<string>): (r: seq<Metadata>)
    requires forall id :: id in order ==> id in entries
    ensures |r| == |order|
    ensures forall j :: 0 <= j < |order| ==> r[j] == entries[order[j]].metadata
  {
    if order == [] then [] else [entries[order[0]].metadata] + ReadMetadatas(entries, order[1..])
  }

  /** Every metadata read from a memory of owned items has a `fuente`. */
  lemma ReadSourcesPresent(entries: map<string, Entry>, order: seq<string>)
    requires Owned(entries) && forall id :: id in order ==> id in entries
    ensures forall j :: 0 <= j < |order| ==> FuenteKey in ReadMetadatas(entries, order)[j]
  {
    var metas := ReadMetadatas(entries, order);
    forall j | 0 <= j < |order| ensures FuenteKey in metas[j] {
      var id := order[j];
      var n: string, k: nat :| id == ChunkId(n, k) && entries[id].metadata == SourceMetadata(n);
    }
  }

  /** Reading the metadata of a memory written by `Memorize` gives exactly
      the documents it holds. */
  lemma EnumeratedSources(entries: map<string, Entry>, order: seq<string>)
    requires Owned(entries) && forall id :: id in entries <==> id in order
    ensures DistinctSources(ReadMetadatas(entries, order)) == Some(StoredSources(entries))
  {
    var metas := ReadMetadatas(entries, order);
    ReadSourcesPresent(entries, order);
    DistinctSourcesFails(metas);
    DistinctSourcesExact(metas);
    var names := DistinctSources(metas).value;
    forall s | s in names ensures s in StoredSources(entries) {
      var j :| 0 <= j < |metas| && FuenteKey in metas[j] && metas[j][FuenteKey] == s;
    }
    forall s | s in StoredSources(entries) ensures s in names {
      var id :| id in entries && FuenteKey in entries[id].metadata && entries[id].metadata[FuenteKey] == s;
      var j :| 0 <= j < |order| && order[j] == id;
      assert FuenteKey in metas[j] && metas[j][FuenteKey] == s;
    }
    assert names == StoredSources(entries);
  }

  /** Listing a memory written by `Memorize` reports each stored document
      exactly once, and "empty" exactly when nothing is stored. */
  lemma ListSourcesOfStore(entries: map<string, Entry>, order: seq<string>)
    requires Owned(entries) && forall id :: id in entries <==> id in order
    ensures ListSources(Ok(ReadMetadatas(entries, order))) ==
      if entries == map[] then EmptyMemory else Studied(StoredSources(entries))
  {
    EnumeratedSources(entries, order);
    DistinctSourcesEmpty(ReadMetadatas(entries, order));
    if order != [] {
      assert order[0] in entries;
    }
    if entries != map[] {
      var id :| id in entries;
      assert id in order;
    }
  }
}
