/** The study tools built on the memory (tools.py): learning one PDF under
    its file name, and learning a list of PDFs while counting the
    successes. Reading a PDF is a parameter `read` from a path to its text;
    it gives "" when the file cannot be read, as `leer_contenido_pdf` does. */
module Tools {
  import opened Strings
  import opened Chroma
  import opened Rag

  const ErrorWord := "Error"

  // ---------------------------------------------------------------------
  // File names

  /** POSIX `os.path.basename(path)`: what follows the last '/', or the
      whole path when it has none. It is the longest suffix of the path that
      holds no '/'. */
  function Basename(path: string): (r: string)
    ensures '/' !in r
    ensures |r| <= |path| && path[|path| - |r|..] == r
    ensures |r| < |path| ==> path[|path| - |r| - 1] == '/'
    decreases |path|
  {
    if |path| == 0 then ""
    else if path[|path| - 1] == '/' then ""
    else
      var init := path[..|path| - 1];
      var r := Basename(init);
      assert path[|path| - |r| - 1..] == init[|init| - |r|..] + [path[|path| - 1]];
      r + [path[|path| - 1]]
  }

  /** Any suffix without '/' that is preceded by '/' (or is the whole path)
      is the basename: the three properties above determine it. */
  lemma {:induction false} BasenameUnique(path: string, r: string)
    requires '/' !in r
    requires |r| <= |path| && path[|path| - |r|..] == r
    requires |r| < |path| ==> path[|path| - |r| - 1] == '/'
    ensures Basename(path) == r
    decreases |path|
  {
    if |path| > 0 && path[|path| - 1] != '/' {
      DropLast(path, r);
      BasenameUnique(path[..|path| - 1], r[..|r| - 1]);
    }
  }

  /** When the path ends in a character other than '/', such a suffix ends
      in that character, and without it is such a suffix of the rest. */
  lemma DropLast(path: string, r: string)
    requires '/' !in r
    requires |r| <= |path| && path[|path| - |r|..] == r
    requires |r| < |path| ==> path[|path| - |r| - 1] == '/'
    requires |path| > 0 && path[|path| - 1] != '/'
    ensures |r| > 0 && r == r[..|r| - 1] + [path[|path| - 1]]
    ensures var init, rest := path[..|path| - 1], r[..|r| - 1];
      && '/' !in rest
      && |rest| <= |init| && init[|init| - |rest|..] == rest
      && (|rest| < |init| ==> init[|init| - |rest| - 1] == '/')
  {
    var n, m := |path|, |r|;
    var init := path[..n - 1];
    assert m > 0;
    var rest := r[..m - 1];
    assert r[m - 1] == path[n - 1] by {
      assert path[n - m..][m - 1] == r[m - 1];
    }
    assert init[n - m..] == rest by {
      forall k | 0 <= k < m - 1 ensures init[n - m + k] == rest[k] {
        assert path[n - m..][k] == r[k];
      }
    }
    assert '/' !in rest by {
      forall k | 0 <= k < |rest| ensures rest[k] != '/' {
        assert rest[k] == r[k];
      }
    }
    if m < n {
      assert init[n - m - 1] == path[n - m - 1];
    }
    assert r == rest + [r[m - 1]];
  }

  /** A file name placed under a directory is its own basename. */
  lemma BasenameOfJoin(dir: string, name: string)
    requires '/' !in name
    ensures Basename(dir + "/" + name) == name
  {
    var path := dir + "/" + name;
    assert path[|path| - |name|..] == name;
    if |name| < |path| {
      assert path[|path| - |name| - 1] == '/';
    }
    BasenameUnique(path, name);
  }

  /** Taking the basename twice changes nothing. */
  lemma BasenameIdempotent(path: string)
    ensures Basename(Basename(path)) == Basename(path)
  {
    var r := Basename(path);
    assert r[|r| - |r|..] == r;
    BasenameUnique(r, r);
  }

  // ---------------------------------------------------------------------
  // Learning one PDF

  /** What `aprender_pdf(path)` hands to the collection: the chunks of the
      file's text, stored under the file's basename. */
  function PdfBatch(path: string, read: string -> string, embed: Embedder): Batch
  {
    MemorizeBatch(read(path), Basename(path), embed)
  }

  /** The string `aprender_pdf(path)` returns. */
  function PdfReport(path: string, read: string -> string, embed: Embedder): string
  {
    MemorizeReport(read(path), Basename(path), embed)
  }

  /** `aprender_pdf(path)`: reads the PDF and memorizes its text under the
      basename of the path, returning the memory's report unchanged. */
  method LearnPdf(store: Collection, path: string, read: string -> string, embed: Embedder) returns (msg: string)
    modifies store
    ensures msg == PdfReport(path, read, embed)
    ensures var b := PdfBatch(path, read, embed);
      if |b.ids| == 0 then store.entries == old(store.entries) && store.log == old(store.log)
      else Added(old(store.entries), store.entries, b) && store.log == old(store.log) + [b]
    ensures Owned(old(store.entries)) ==>
      (Owned(store.entries) &&
       StoredSources(store.entries) ==
         StoredSources(old(store.entries)) + (if |PdfBatch(path, read, embed).ids| == 0 then {} else {Basename(path)}))
  {
    var text := read(path);
    var name := Basename(path);
    msg := Memorize(store, text, name, embed);
  }

  /** Every item `aprender_pdf(path)` stores is named after the basename of
      the path, and the report counts them. */
  lemma LearnPdfStoresUnderBasename(path: string, read: string -> string, embed: Embedder, j: nat)
    requires j < |PdfBatch(path, read, embed).ids|
    ensures PdfBatch(path, read, embed).metadatas[j] == map["fuente" := Basename(path)]
    ensures '/' !in PdfBatch(path, read, embed).metadatas[j]["fuente"]
  {
    BatchInStep(read(path), Basename(path), embed, j);
  }

  // ---------------------------------------------------------------------
  // How a report is read

  /** `Contains(s, w)` is unaffected by a last character that does not end
      `w`. */
  lemma {:induction false} NotContainsSnoc(s: string, w: string, c: char)
    requires |w| > 0 && w[|w| - 1] != c
    requires !Contains(s, w)
    ensures !Contains(s + [c], w)
    decreases |s|
  {
    if |w| <= |s| {
      assert (s + [c])[..|w|] == s[..|w|];
    }
    if |s| > 0 {
      assert (s + [c])[1..] == s[1..] + [c];
      NotContainsSnoc(s[1..], w, c);
    }
  }

  /** The failure report of the memory contains "Error". */
  lemma FailureMentionsError()
    ensures Contains(NoEmbeddingMessage, ErrorWord)
  {
    assert ErrorWord <= NoEmbeddingMessage;
  }

  /** The text before the document name in a success report has no 'E'. */
  lemma SuccessPrefixHasNoE(digits: string)
    requires AllDigits(digits)
    ensures forall k :: 0 <= k < |"He memorizado " + digits + " fragmentos del archivo "| ==>
      ("He memorizado " + digits + " fragmentos del archivo ")[k] != 'E'
  {
    var p := "He memorizado " + digits + " fragmentos del archivo ";
    forall k | 0 <= k < |p| ensures p[k] != 'E' {
      if 14 <= k < 14 + |digits| {
        assert p[k] == digits[k - 14];
      }
    }
  }

  /** A success report contains "Error" exactly when the document name
      does. */
  lemma SuccessMentionsError(name: string, stored: nat)
    requires stored > 0
    ensures Contains(Report(name, stored), ErrorWord) <==> Contains(name, ErrorWord)
  {
    var p := "He memorizado " + NatToString(stored) + " fragmentos del archivo ";
    assert Report(name, stored) == p + name + ".";
    if Contains(name, ErrorWord) {
      ContainsInside(p, name, ".", ErrorWord);
    } else {
      NotContainsSnoc(name, ErrorWord, '.');
      SuccessPrefixHasNoE(NatToString(stored));
      NotContainsPrefix(p, name + ".", ErrorWord);
      assert p + (name + ".") == p + name + ".";
    }
  }

  /** The report of the memory contains "Error" exactly when nothing was
      stored, or when the document name itself contains "Error". */
  lemma ReportMentionsError(name: string, stored: nat)
    ensures Contains(Report(name, stored), ErrorWord) <==> (stored == 0 || Contains(name, ErrorWord))
  {
    if stored == 0 {
      FailureMentionsError();
    } else {
      SuccessMentionsError(name, stored);
    }
  }

  // ---------------------------------------------------------------------
  // Learning many PDFs

  /** The test `"Error" not in resultado` of `aprender_varios_pdfs`. */
  predicate Counts(report: string) {
    !Contains(report, ErrorWord)
  }

  /** For every path, the batch `aprender_pdf(path)` hands to the
      collection. The counts below are stated for any such function, so
      they hold whatever the files and the embedder are. */
  function PdfBatches(read: string -> string, embed: Embedder): string -> Batch
  {
    path => PdfBatch(path, read, embed)
  }

  /** The report `aprender_pdf(path)` returns, given the batch it stored. */
  function ReportOf(batch: string -> Batch, path: string): string
  {
    Report(Basename(path), |batch(path).ids|)
  }

  /** What `aprendidos` counts: the reports that do not contain "Error". */
  function LearnedAsWritten(paths: seq<string>, batch: string -> Batch): (n: nat)
    ensures n <= |paths|
  {
    if paths == [] then 0
    else
      var last := paths[|paths| - 1];
      LearnedAsWritten(paths[..|paths| - 1], batch) + (if Counts(ReportOf(batch, last)) then 1 else 0)
  }

  /** The batches written, one per learned document, in the order of the
      paths. */
  function LearnBatches(paths: seq<string>, batch: string -> Batch): (r: seq<Batch>)
    ensures |r| <= |paths|
    ensures forall k :: 0 <= k < |r| ==> |r[k].ids| > 0
  {
    if paths == [] then []
    else
      var b := batch(paths[|paths| - 1]);
      LearnBatches(paths[..|paths| - 1], batch) + (if |b.ids| == 0 then [] else [b])
  }

  /** The documents actually learned: those for which something was stored. */
  function LearnedByOutcome(paths: seq<string>, batch: string -> Batch): (n: nat)
    ensures n <= |paths|
    ensures n == |LearnBatches(paths, batch)|
  {
    if paths == [] then 0
    else
      LearnedByOutcome(paths[..|paths| - 1], batch) + (if |batch(paths[|paths| - 1]).ids| == 0 then 0 else 1)
  }

  /** The names of the learned documents. */
  function LearnedNames(paths: seq<string>, batch: string -> Batch): set<string>
  {
    if paths == [] then {}
    else
      var last := paths[|paths| - 1];
      LearnedNames(paths[..|paths| - 1], batch) + (if |batch(last).ids| == 0 then {} else {Basename(last)})
  }

  /** The ids of the chunks handed to the collection, over all the paths. */
  function LearnedIds(paths: seq<string>, batch: string -> Batch): set<string>
  {
    if paths == [] then {}
    else
      var b := batch(paths[|paths| - 1]);
      LearnedIds(paths[..|paths| - 1], batch) + (set j | 0 <= j < |b.ids| :: b.ids[j])
  }

  /** The closing message of `aprender_varios_pdfs`. */
  function Summary(learned: nat, total: nat): string
  {
    "Proceso finalizado. He memorizado " + NatToString(learned) + " de " + NatToString(total) + " documentos correctamente."
  }

  /** The count as written never exceeds the documents actually learned,
      and matches it when no file name contains "Error". */
  lemma {:induction false} LearnedAsWrittenBounded(paths: seq<string>, batch: string -> Batch)
    ensures LearnedAsWritten(paths, batch) <= LearnedByOutcome(paths, batch)
    ensures (forall j :: 0 <= j < |paths| ==> !Contains(Basename(paths[j]), ErrorWord)) ==>
      LearnedAsWritten(paths, batch) == LearnedByOutcome(paths, batch)
    decreases |paths|
  {
    if paths != [] {
      var init := paths[..|paths| - 1];
      var last := paths[|paths| - 1];
      LearnedAsWrittenBounded(init, batch);
      ReportMentionsError(Basename(last), |batch(last).ids|);
      if forall j :: 0 <= j < |paths| ==> !Contains(Basename(paths[j]), ErrorWord) {
        assert !Contains(Basename(last), ErrorWord);
        forall j | 0 <= j < |init| ensures !Contains(Basename(init[j]), ErrorWord) {
          assert init[j] == paths[j];
        }
      }
    }
  }

  /** A document named "Error.pdf" that is stored is not counted. */
  lemma ErrorNamedFileUndercounted()
    ensures LearnedAsWritten(["Error.pdf"], PdfBatches(_ => "hola", (_, _) => [1.0])) == 0
    ensures LearnedByOutcome(["Error.pdf"], PdfBatches(_ => "hola", (_, _) => [1.0])) == 1
  {
    var read: string -> string := _ => "hola";
    var embed: Embedder := (_, _) => [1.0];
    var batch := PdfBatches(read, embed);
    var paths := ["Error.pdf"];
    assert paths[..0] == [];
    assert Basename("Error.pdf") == "Error.pdf" by {
      BasenameOfJoin("", "Error.pdf");
      assert "" + "/" + "Error.pdf" != "Error.pdf";
      BasenameUnique("Error.pdf", "Error.pdf");
    }
    assert Chunks("hola") == ["hola"];
    var fs := Fragments("Error.pdf", ["hola"], embed);
    FragmentsComplete("Error.pdf", ["hola"], embed, 0);
    assert |fs| == 1;
    assert batch("Error.pdf") == PdfBatch("Error.pdf", read, embed);
    assert |batch("Error.pdf").ids| == 1;
    assert "Error.pdf"[0..|ErrorWord|] == ErrorWord;
    ContainsAt("Error.pdf", ErrorWord, 0);
    ReportMentionsError("Error.pdf", 1);
  }

  /** One more path adds one to the count as written exactly when its
      report passes the test. */
  lemma CountStep(paths: seq<string>, i: nat, batch: string -> Batch)
    requires i < |paths|
    ensures LearnedAsWritten(paths[..i + 1], batch) ==
      LearnedAsWritten(paths[..i], batch) + (if Counts(ReportOf(batch, paths[i])) then 1 else 0)
  {
    var prefix := paths[..i + 1];
    assert prefix[..|prefix| - 1] == paths[..i];
  }

  /** One more path extends the log by its own batch, if it stores one. */
  lemma BatchesStep(paths: seq<string>, i: nat, batch: string -> Batch)
    requires i < |paths|
    ensures LearnBatches(paths[..i + 1], batch) ==
      LearnBatches(paths[..i], batch) + (if |batch(paths[i]).ids| == 0 then [] else [batch(paths[i])])
  {
    var prefix := paths[..i + 1];
    assert prefix[..|prefix| - 1] == paths[..i];
  }

  /** One more path adds its basename to the learned names, if it stores
      something. */
  lemma NamesStep(paths: seq<string>, i: nat, batch: string -> Batch)
    requires i < |paths|
    ensures LearnedNames(paths[..i + 1], batch) ==
      LearnedNames(paths[..i], batch) + (if |batch(paths[i]).ids| == 0 then {} else {Basename(paths[i])})
  {
    var prefix := paths[..i + 1];
    assert prefix[..|prefix| - 1] == paths[..i];
  }

  /** Learning path `i` extends a log written for the paths before it to
      the log for the paths up to it. */
  lemma LogStep(start: seq<Batch>, paths: seq<string>, i: nat, batch: string -> Batch, log: seq<Batch>, log': seq<Batch>)
    requires i < |paths|
    requires log == start + LearnBatches(paths[..i], batch)
    requires log' == if |batch(paths[i]).ids| == 0 then log else log + [batch(paths[i])]
    ensures log' == start + LearnBatches(paths[..i + 1], batch)
  {
    BatchesStep(paths, i, batch);
    var b := batch(paths[i]);
    var written := if |b.ids| == 0 then [] else [b];
    assert start + LearnBatches(paths[..i], batch) + written == start + (LearnBatches(paths[..i], batch) + written);
  }

  /** Likewise for the names of the stored documents. */
  lemma SourcesStep(start: map<string, Entry>, paths: seq<string>, i: nat, batch: string -> Batch,
                    entries: map<string, Entry>, entries': map<string, Entry>)
    requires i < |paths|
    requires Owned(start) ==>
      Owned(entries) && StoredSources(entries) == StoredSources(start) + LearnedNames(paths[..i], batch)
    requires Owned(entries) ==>
      Owned(entries') &&
      StoredSources(entries') == StoredSources(entries) + (if |batch(paths[i]).ids| == 0 then {} else {Basename(paths[i])})
    ensures Owned(start) ==>
      Owned(entries') && StoredSources(entries') == StoredSources(start) + LearnedNames(paths[..i + 1], batch)
  {
    NamesStep(paths, i, batch);
  }

  /** Likewise for the ids stored: the keys grow by the ids of the batch,
      and every other former item keeps its entry. */
  lemma KeysStep(start: map<string, Entry>, paths: seq<string>, i: nat, batch: string -> Batch,
                 entries: map<string, Entry>, entries': map<string, Entry>)
    requires i < |paths| && batch(paths[i]).InStep()
    requires entries.Keys == start.Keys + LearnedIds(paths[..i], batch)
    requires forall id :: id in start && id !in LearnedIds(paths[..i], batch) ==> entries[id] == start[id]
    requires if |batch(paths[i]).ids| == 0 then entries' == entries else Added(entries, entries', batch(paths[i]))
    ensures entries'.Keys == start.Keys + LearnedIds(paths[..i + 1], batch)
    ensures forall id :: id in start && id !in LearnedIds(paths[..i + 1], batch) ==> entries'[id] == start[id]
  {
    var b := batch(paths[i]);
    var added := set j | 0 <= j < |b.ids| :: b.ids[j];
    var prefix := paths[..i + 1];
    assert prefix[..|prefix| - 1] == paths[..i];
    assert LearnedIds(prefix, batch) == LearnedIds(paths[..i], batch) + added;
    forall id | id in start && id !in LearnedIds(prefix, batch) ensures entries'[id] == start[id] {
      forall j | 0 <= j < |b.ids| ensures b.ids[j] != id {
        assert b.ids[j] in added;
      }
    }
  }

  /** Item `id` holds the entry that some position of the batch of one of
      the first `n` paths gives it. */
  ghost predicate StoredFrom(entries: map<string, Entry>, paths: seq<string>, n: nat, batch: string -> Batch, id: string) {
    && id in entries
    && exists k, j :: 0 <= k < n && k < |paths| && batch(paths[k]).InStep() && 0 <= j < |batch(paths[k]).ids| &&
         batch(paths[k]).ids[j] == id && entries[id] == batch(paths[k]).EntryAt(j)
  }

  /** After learning the first `n` paths, each id they stored holds either
      its entry from before (the store may keep an existing id) or an entry
      one of their batches gives it. */
  ghost predicate LearnedEntries(start: map<string, Entry>, entries: map<string, Entry>, paths: seq<string>, n: nat,
                                 batch: string -> Batch)
    requires n <= |paths|
  {
    forall id :: id in LearnedIds(paths[..n], batch) ==>
      (id in start && id in entries && entries[id] == start[id]) || StoredFrom(entries, paths, n, batch, id)
  }

  /** An entry that stays in place stays justified by the same batch. */
  lemma StoredFromKept(entries: map<string, Entry>, entries': map<string, Entry>, paths: seq<string>, n: nat,
                       batch: string -> Batch, id: string)
    requires StoredFrom(entries, paths, n, batch, id)
    requires id in entries' && entries'[id] == entries[id]
    ensures StoredFrom(entries', paths, n + 1, batch, id)
  {
    var k, j :| 0 <= k < n && k < |paths| && batch(paths[k]).InStep() && 0 <= j < |batch(paths[k]).ids| &&
      batch(paths[k]).ids[j] == id && entries[id] == batch(paths[k]).EntryAt(j);
    assert 0 <= k < n + 1;
  }

  /** Likewise for the entries the learned ids hold. */
  lemma EntriesStep(start: map<string, Entry>, paths: seq<string>, i: nat, batch: string -> Batch,
                    entries: map<string, Entry>, entries': map<string, Entry>)
    requires i < |paths| && batch(paths[i]).InStep()
    requires entries.Keys == start.Keys + LearnedIds(paths[..i], batch)
    requires forall id :: id in start && id !in LearnedIds(paths[..i], batch) ==> entries[id] == start[id]
    requires LearnedEntries(start, entries, paths, i, batch)
    requires if |batch(paths[i]).ids| == 0 then entries' == entries else Added(entries, entries', batch(paths[i]))
    ensures LearnedEntries(start, entries', paths, i + 1, batch)
  {
    var b := batch(paths[i]);
    var added := set j | 0 <= j < |b.ids| :: b.ids[j];
    var prefix := paths[..i + 1];
    assert prefix[..|prefix| - 1] == paths[..i];
    assert LearnedIds(prefix, batch) == LearnedIds(paths[..i], batch) + added;
    forall id | id in LearnedIds(prefix, batch)
      ensures (id in start && id in entries' && entries'[id] == start[id]) || StoredFrom(entries', paths, i + 1, batch, id)
    {
      if id in added {
        var j :| 0 <= j < |b.ids| && b.ids[j] == id;
        if entries'[id] == b.EntryAt(j) {
          assert StoredFrom(entries', paths, i + 1, batch, id);
        } else {
          assert id in entries && entries'[id] == entries[id];
          if id in LearnedIds(paths[..i], batch) && StoredFrom(entries, paths, i, batch, id) {
            StoredFromKept(entries, entries', paths, i, batch, id);
          }
        }
      } else {
        assert id !in b.ids by {
          forall j | 0 <= j < |b.ids| ensures b.ids[j] != id {
            assert b.ids[j] in added;
          }
        }
        assert id in entries && entries'[id] == entries[id];
        if StoredFrom(entries, paths, i, batch, id) {
          StoredFromKept(entries, entries', paths, i, batch, id);
        }
      }
    }
  }

  /** `aprender_varios_pdfs(paths)`: learns each path once, in order, and
      counts the reports that do not contain "Error". */
  method LearnMany(store: Collection, paths: seq<string>, read: string -> string, embed: Embedder) returns (msg: string)
    modifies store
    ensures msg == Summary(LearnedAsWritten(paths, PdfBatches(read, embed)), |paths|)
    ensures store.log == old(store.log) + LearnBatches(paths, PdfBatches(read, embed))
    ensures |store.log| == |old(store.log)| + LearnedByOutcome(paths, PdfBatches(read, embed))
    ensures Owned(old(store.entries)) ==>
      (Owned(store.entries) &&
       StoredSources(store.entries) == StoredSources(old(store.entries)) + LearnedNames(paths, PdfBatches(read, embed)))
    ensures store.entries.Keys == old(store.entries).Keys + LearnedIds(paths, PdfBatches(read, embed))
    ensures forall id :: id in old(store.entries) && id !in LearnedIds(paths, PdfBatches(read, embed)) ==>
      store.entries[id] == old(store.entries)[id]
    ensures LearnedEntries(old(store.entries), store.entries, paths, |paths|, PdfBatches(read, embed))
  {
    ghost var batch := PdfBatches(read, embed);
    var learned := 0;
    for i := 0 to |paths|
      invariant learned == LearnedAsWritten(paths[..i], batch)
      invariant store.log == old(store.log) + LearnBatches(paths[..i], batch)
      invariant Owned(old(store.entries)) ==>
        (Owned(store.entries) &&
         StoredSources(store.entries) == StoredSources(old(store.entries)) + LearnedNames(paths[..i], batch))
      invariant store.entries.Keys == old(store.entries).Keys + LearnedIds(paths[..i], batch)
      invariant forall id :: id in old(store.entries) && id !in LearnedIds(paths[..i], batch) ==>
        store.entries[id] == old(store.entries)[id]
      invariant LearnedEntries(old(store.entries), store.entries, paths, i, batch)
    {
      ghost var log, entries := store.log, store.entries;
      var result := LearnPdf(store, paths[i], read, embed);
      assert batch(paths[i]) == PdfBatch(paths[i], read, embed);
      LogStep(old(store.log), paths, i, batch, log, store.log);
      SourcesStep(old(store.entries), paths, i, batch, entries, store.entries);
      EntriesStep(old(store.entries), paths, i, batch, entries, store.entries);
      KeysStep(old(store.entries), paths, i, batch, entries, store.entries);
      CountStep(paths, i, batch);
      assert result == ReportOf(batch, paths[i]);
      if Counts(result) {
        learned := learned + 1;
      }
    }
    assert paths[..|paths|] == paths;
    msg := Summary(learned, |paths|);
  }
}
