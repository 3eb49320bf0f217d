# Study-assistant memory and tools, modelled in Dafny

This project models the core of a study assistant: a retrieval memory
(`RAG.py`) and the study tools built on it (`tools.py`).

- **Memorize.** `guardar_memoria` cuts a document's text into 1000-character
  chunks. It embeds each chunk and skips the chunks whose embedding failed.
  It builds four parallel lists (ids `{name}_parte_{i}`, vectors, metadata
  `{"fuente": name}`, texts) and hands them to the vector collection in a
  single `add` call.
- **Search.** `buscar_memoria` embeds a question, asks the collection for the
  3 nearest chunks, and answers with their texts joined by `"\n---\n"` and the
  set of their sources.
- **List.** `listar_archivos_guardados` reports the distinct sources stored.
- **Learn one PDF.** `aprender_pdf` memorizes a PDF under its file's basename.
- **Learn many PDFs.** `aprender_varios_pdfs` learns a list of PDFs and
  counts the successes.
- **Flashcards.** `generar_mazo_anki` asks a language model for flashcards per
  PDF and adds the well-formed items of the JSON reply to a deck.

The project is split into these files:

- `results.dfy`: `Option` and `Result`.
- `strings.dfy`: the Python string built-ins the code relies on, which are
  substring `in`, `str(n)` and `sep.join`.
- `chroma.dfy`: the two collaborators.
  - The embedding service is a function from text and task type to a
    vector; the empty vector stands for failure.
  - The collection is a class holding the stored map. It has an `Add`
    method and a ghost log of every batch added.
  - The nearest-neighbour query is a function parameter (`Nearest`), and
    `Sound` is what a real query guarantees.
- `rag.dfy`: the memory.
- `tools.dfy`: learning PDFs.
- `anki.dfy`: the flashcard deck.

Reading a PDF, the model's reply and `html.escape` enter as function
parameters (`read`, `generate`, `escape`).

Three details of the code shape the model:

- The chunk id is `{name}_parte_{i}`.
- The collection is written with `add`. What `add` does with an id that is already stored is left to the store.
- The success message reports only the number of fragments stored.

## Model

| member | source | states |
|---|---|---|
| Strings.Contains | tools.py:64 | Python's `w in s` on strings: `w` occurs in `s` as a contiguous piece |
| Strings.ContainsAt | tools.py:64 | a piece found at a known offset is contained |
| Strings.ContainsOffset | tools.py:64 | a contained piece occurs at some offset, so the two lemmas characterize `in` |
| Strings.NatToString | RAG.py:66 | `str(n)` of a natural: a non-empty string of decimal digits, one digit exactly below 10 |
| Strings.IntToString | tools.py:125 | `str(n)` of any integer: non-empty, starting with '-' exactly for negatives |
| Strings.ParseNatToString | RAG.py:49 | the decimal text of a chunk index reads back as that index |
| Strings.NatToStringInjective | RAG.py:49 | distinct indices have distinct decimal texts |
| Strings.Join | RAG.py:87 | Python's `sep.join(parts)` |
| Strings.JoinSeparator | RAG.py:87 | between consecutive parts of a join stands exactly one separator |
| Strings.JoinPart | RAG.py:87 | part k of a join sits at its offset, unchanged |
| Strings.JoinContains | RAG.py:87 | every joined part occurs in the joined text |
| Chroma.Collection.Add | RAG.py:60-65 | after `add`, the stored ids are the old ones plus the batch's; a new id holds its batch entry; other ids keep their entries; the batch is logged |
| Rag.ChunkId | RAG.py:49 | the id of chunk i of a document starts with the document name and is longer than it; `Rag.ChunkIdInjective` shows it determines both |
| Rag.SourceMetadata | RAG.py:56 | the metadata of every chunk of a document: `{"fuente": name}` |
| Rag.Chunks | RAG.py:38-39 | every chunk is non-empty and at most 1000 characters |
| Rag.ChunksConcat | RAG.py:39 | the chunks concatenated give back the text |
| Rag.ChunksAreSlices | RAG.py:38-39 | there are ceil(len/1000) chunks, and chunk k is `text[1000k : 1000(k+1)]` |
| Rag.ChunkIdInjective | RAG.py:49 | `{a}_parte_{i}` equals `{b}_parte_{j}` only when a = b and i = j |
| Rag.Fragments | RAG.py:48-57 | each kept chunk has its own index, its text, its non-empty vector, its id and the `fuente` metadata; indices increase |
| Rag.FragmentsComplete | RAG.py:51-53 | chunk i is kept if and only if its embedding is non-empty |
| Rag.Columns | RAG.py:54-57 | the four lists have equal length, and position j of each comes from kept chunk j |
| Rag.MemorizeBatch | RAG.py:43-65 | the batch handed to `add`: four lists in step, with at most one item per chunk |
| Rag.BatchInStep | RAG.py:43-57 | position j of all four lists refers to one chunk: its id, its text, its non-empty vector, `{"fuente": name}` |
| Rag.BatchIdsDistinct | RAG.py:48-49 | the ids of one call are pairwise distinct |
| Rag.EmptyTextStoresNothing | RAG.py:59-68 | an empty text stores nothing and yields the "no embedding" error message |
| Rag.Report | RAG.py:66-68 | the failure message when nothing was stored, otherwise the count and the document name |
| Rag.MemorizeReport | RAG.py:59-68 | the report of storing a text counts the chunks of its batch |
| Rag.AddedOwned | RAG.py:56-65 | adding chunks of one document keeps every stored item named after its document |
| Rag.AddedSourcesWithin | RAG.py:56-65 | adding a document's chunks introduces no source other than that document |
| Rag.AddedSourcesKept | RAG.py:56-65 | adding chunks loses no stored source and adds the document's |
| Rag.MemorizedSources | RAG.py:59-65 | for a memory whose items were all written by `Memorize`, after a non-empty add the sources are the former ones plus the document |
| Rag.CollectFragments | RAG.py:43-57 | the loop over the chunks builds exactly the four lists of the kept fragments, in chunk order |
| Rag.Memorize | RAG.py:34-68 | returns the report counting the stored chunks; writes nothing when no chunk embeds, otherwise adds exactly the batch; for a memory whose items were all written by `Memorize`, the sources grow by the document |
| Rag.DistinctSources | RAG.py:99 | the set of `meta['fuente']` over a list of metadata (as also at RAG.py:88), or the `KeyError` when one lacks it; characterized by the three lemmas below |
| Rag.DistinctSourcesFails | RAG.py:88 | reading the sources fails exactly when some metadata lacks `fuente` |
| Rag.DistinctSourcesExact | RAG.py:99 | the set of sources is exactly the `fuente` values, with no more names than metadata |
| Rag.DistinctSourcesEmpty | RAG.py:99-102 | the set of sources is empty exactly when there is no metadata |
| Rag.Search | RAG.py:70-90 | a failed question embedding gives the question error; no hits give "nothing found"; a missing `fuente` raises; otherwise the context joins the hit texts in order and the sources are exactly their distinct `fuente` values |
| Rag.SearchReply | RAG.py:84-90 | no reply (the `KeyError` escapes) exactly for a hit without `fuente`; a found reply contains the whole context |
| Rag.SearchWithoutQuery | RAG.py:74-77 | when the question embedding fails, the collection does not affect the outcome |
| Rag.SearchAsksTopK | RAG.py:79-82 | the outcome depends only on one query for 3 results |
| Rag.SearchGrounded | RAG.py:79-90 | against a memory written by `Memorize`, a search never raises; it reports at most 3 sources, all stored documents |
| Rag.SearchEmptyMemory | RAG.py:79-85 | an empty memory never answers with chunks |
| Rag.ListSources | RAG.py:92-106 | a read error becomes the error text; "empty" is reported exactly for no metadata; a missing `fuente` is the only failure of a successful read; a non-empty list whose metadata all carry `fuente` is listed, with exactly the distinct `fuente` values |
| Rag.ListReply | RAG.py:101-106 | the reply starts with "Error leyendo memoria: " exactly when reading or the lookup failed |
| Rag.ReadMetadatas | RAG.py:97-98 | reading gives one metadata per listed id, in order |
| Rag.EnumeratedSources | RAG.py:97-99 | the names read from a memory written by `Memorize` are exactly its stored sources |
| Rag.ListSourcesOfStore | RAG.py:96-104 | listing such a memory reports "empty" exactly when nothing is stored, and otherwise each stored source once |
| Tools.Basename | tools.py:42 | the basename has no '/', is a suffix of the path, and is preceded by '/' when shorter |
| Tools.BasenameUnique | tools.py:42 | those three properties determine the basename |
| Tools.BasenameOfJoin | tools.py:42 | the basename of `dir/name` is `name` |
| Tools.BasenameIdempotent | tools.py:42 | taking the basename twice changes nothing |
| Tools.PdfBatch | tools.py:41-44 | the batch `aprender_pdf(path)` hands to the collection: the file's text under its basename |
| Tools.PdfReport | tools.py:41-44 | the report `aprender_pdf(path)` returns: the memory's report for that text and basename |
| Tools.LearnPdf | tools.py:32-44 | memorizes the file's text under its basename and returns the memory's report unchanged |
| Tools.LearnPdfStoresUnderBasename | tools.py:42-43 | every stored item of the file carries `{"fuente": basename}` |
| Tools.SuccessMentionsError | tools.py:64 | a success report contains "Error" exactly when the document name does |
| Tools.ReportMentionsError | tools.py:64 | a report contains "Error" exactly when nothing was stored or the name contains "Error" |
| Tools.Counts | tools.py:64 | the test `"Error" not in resultado`; `Tools.ReportMentionsError` says when it holds |
| Tools.LearnedAsWritten | tools.py:55-65 | the count as written is at most the number of paths |
| Tools.LearnedByOutcome | tools.py:58-65 | the documents actually stored are at most the number of paths, and there is one logged batch for each |
| Tools.LearnedIds | tools.py:58-62 | the ids stored by learning the paths: those of every batch |
| Tools.LearnedAsWrittenBounded | tools.py:64-65 | the count as written is at most the stored documents, and equal when no file name contains "Error" |
| Tools.ErrorNamedFileUndercounted | tools.py:64-65 | a stored file named `Error.pdf` is not counted |
| Tools.LearnMany | tools.py:47-70 | learns every path once, in order (the log grows by their batches); reports the count as written out of the number of paths; the stored ids grow by exactly the learned ids; each learned id holds its former entry or the entry one of the batches gives it; every other item keeps its entry; for a memory whose items were all written by `Memorize`, the sources grow by the learned names |
| Tools.Summary | tools.py:70 | the closing message with the count and the number of paths |
| Anki.Has | tools.py:145 | `key in item` is defined exactly for dicts, lists and strings |
| Anki.HasBoth | tools.py:145 | the test `'pregunta' in t and 'respuesta' in t` passes |
| Anki.StringPair | tools.py:147-148 | the item is a dict whose question and answer are strings, so the indexing and `html.escape` succeed |
| Anki.Classify | tools.py:144-150 | an item adds a note exactly when it has both keys and both values are strings; the note holds the escaped question, then the escaped answer; other items that pass the test raise, as do items that do not support `in` |
| Anki.Kept | tools.py:144-150 | no more notes than items |
| Anki.FirstRaise | tools.py:144-155 | no item before the position raises, and the item at the position raises |
| Anki.FirstRaiseUnique | tools.py:144-155 | that position is unique |
| Anki.KeptFromItems | tools.py:145-150 | one note per item with both keys and string values, each note the escaped pair of such an item |
| Anki.CardsWithoutRaise | tools.py:142-150 | when no item raises, the notes are the kept ones and `tarjetas_creadas` is `CountPairs`, the number of items that pass the test and hold two strings |
| Anki.CardNotes | tools.py:143-155 | the notes of a list reply: those of the items before the first that raises |
| Anki.Deck.constructor | tools.py:107 | a new deck has its title and no notes |
| Anki.Deck.AddNote | tools.py:149 | a note is appended to the deck |
| Anki.AddCards | tools.py:142-150 | adds the notes of the items before the first raising one, in order; returns their count and whether an item raised |
| Anki.Truncated | tools.py:129 | the text is cut to its first 30000 characters |
| Anki.Instructions | tools.py:124-128 | the instructions asking for `cantidad` cards |
| Anki.Request | tools.py:124-129 | the instructions, the text marker, then the text cut to 30000 characters |
| Anki.RequestTruncates | tools.py:124-129 | the request holds at most 30000 characters of text, and depends only on those characters |
| Anki.ReplyNotes | tools.py:131-155 | a failed call or a non-list reply adds no notes |
| Anki.FileNotes | tools.py:120-155 | a file adds notes only when its text is long enough, and then those of the model's reply |
| Anki.DeckNotes | tools.py:117-155 | the notes of all the files, in the order of the paths |
| Anki.LongEnough | tools.py:121 | the text has at least 50 characters |
| Anki.Requests | tools.py:117-129 | at most one request per file |
| Anki.ShortTextsAskNothing | tools.py:121 | files shorter than 50 characters send no request and add no notes |
| Anki.RequestsAreOfLongTexts | tools.py:120-133 | every request is sent for a text of at least 50 characters |
| Anki.MakeDeck | tools.py:96-163 | returns a fresh deck titled "Repaso Examen (IA)" with the notes of all files in order, the requests sent, and the name `mazo_completo.apkg` |

## Left out

- Chroma.Collection.Add: for an id already stored, the contract states only that it keeps either its former entry or the new one. What the store does with an existing id is its own choice.
- Chroma.Sound: the query is a function parameter. The model assumes it returns at most n stored entries and no more than are stored. The ranking and distance metric are not modelled.
- Rag.Search: the query result's per-query nested lists are flattened to the hits of the single query made. The outer `not resultados['documents']` test is therefore folded into "no hits".
- Rag.SearchReply and Rag.ListReply: the text Python prints for a set, and the order of `', '.join`, are an abstract `show` parameter.
- Rag.ListSources: takes the outcome of `coleccion.get()` as input. Any exception other than the missing key enters as its message text.
- Rag.ListSourcesOfStore: the order in which the store lists its ids is a parameter.
- The embedding service, the language model, PDF extraction (`leer_contenido_pdf`) and `html.escape` are function parameters. They are deterministic functions of their inputs, so retries and nondeterministic replies are not modelled.
- Rag.Search: an exception raised by `coleccion.query` (a dimension mismatch, an unavailable store) would escape `buscar_memoria`; the query is a total function here, so that path is not modelled.
- Rag.ListSources: metadata are maps from strings to strings, so a `None` metadata or a non-string `fuente`, whose `TypeError` the code catches into "Error leyendo memoria: ...", is not modelled; only the missing key and a failed read are.
- Errors raised by the collection's `add` are not modelled: a dimension mismatch or an unavailable store would escape `guardar_memoria`. `Add` requires a well-formed batch instead.
- Tools.Basename: follows POSIX `os.path.basename`. Windows separators are not modelled.
- Anki.MakeDeck omits the rest of each file's processing:
  - JSON parsing and the stripping of backtick fences (the reply enters already parsed, or as an error);
  - the random deck id;
  - the genanki note model;
  - writing the package file;
  - `time.sleep(30)`.
- The `print` logging of RAG.py:31, RAG.py:41, tools.py:40, tools.py:59 and `generar_mazo_anki` is console output only and is not modelled.
- `consultar_cerebro` and `lista_archivos` (tools.py:73-93) only delegate to the memory and are not modelled separately.
- web.py and config.py (UI, credentials, client setup) are not part of this model.

## Findings

| source | as written | input that shows it | evidently intended | confidence | as-written member | corrected member |
|---|---|---|---|---|---|---|
| tools.py:64-65 | `aprendidos` counts a file only when its report does not contain "Error". The success report includes the file name. | one PDF named `Error.pdf` whose text embeds: it is stored, but the count says 0 of 1 | count the files whose chunks were stored | not executed | Tools.LearnedAsWritten, Tools.ErrorNamedFileUndercounted | Tools.LearnedByOutcome, Tools.LearnedAsWrittenBounded |
