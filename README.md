# Lectio: a verified model of the indexing and search pipeline

Lectio turns a corpus of books into a searchable vector index. This project
models its sequential core in Dafny and proves properties of that model. The
core is three Python programs:

- `python/extract_source_text.py` extracts text from PDF, EPUB and MOBI files.
  It picks the extractor by the lower-cased suffix and joins the pages of a PDF
  with a blank line. For an EPUB, and a MOBI converted to EPUB, it means to join
  the text of the book's document items the same way; as written, its type test
  (line 24) never holds, so every EPUB and MOBI text is empty (see Findings).
  It normalises line endings and writes the text to a `.txt` file at the same
  relative path under the output directory. A failure on one
  file is reported and the run goes on.
- `python/index_corpus_qdrant.py` cuts every text on `"\n\n"`, strips the pieces
  and keeps those longer than 40 characters, numbered from 0 within their file
  (`iter_paragraphs`). The indexing run (`main`) then works in this order:
  - it embeds the first paragraph to learn the vector dimension;
  - it ensures the collection (`ensure_collection` plus the `except` branch
    around it);
  - it embeds every paragraph, reusing the first embedding;
  - it numbers the points from a counter and upserts them in batches of
    `batch_size`, with a final partial batch.
- `python/lectio_backend.py` serves `POST /search`:
  - it strips the query and refuses an empty one with 400;
  - it embeds the query and asks the store for `top_k` hits (5 by default);
  - it maps every upstream failure to 502;
  - it turns each hit into a result, with defaults for missing fields
    (`point_to_result`).

The modules follow that structure:

| module | file | what it holds |
|---|---|---|
| `Wrappers` | `wrappers.dfy` | `Option`, `Result` and a few sequence lemmas |
| `Strings` | `strings.dfy` | `str.strip`, `str.split`, `str.join`, `str.replace` with CPython's semantics; newline normalisation |
| `Chunking` | `chunking.dfy` | `iter_paragraphs` |
| `VectorStore` | `vector_store.dfy` | collections as a map, the `Store` client class with a ghost call log, `ensure_collection` |
| `Embedding` | `embedding.dfy` | the embedding client class with a ghost log of prompts |
| `Indexing` | `indexing.dfy` | batching, the step-by-step specification of `main`, the loop as methods on the store and the client |
| `Search` | `search.dfy` | the `search` handler and `point_to_result` |
| `Extraction` | `extraction.dfy` | suffix rules, dispatch, the PDF/EPUB join, output paths, the per-file loop over an `OutputTree` object |

Several things outside this code become parameters of the model:

- The embedding service is a function from prompt to `Result<Vector, EmbedError>`.
- The store's search is a function from (collection, vector, limit) to an
  optional list of hits.
- The PDF pages, the EPUB items, the MOBI converter and the writability of
  output paths are given functions.
- The collections are a `map` from name to (size, points by id).

The indexing run is written three times, and each version is tied to the next:

- `RunContract` is a declarative contract for the outcome, the store calls and
  the prompts.
- `RunSpec` runs the loop pass by pass, as functions.
- `Indexing.Run` is a method with a `while` loop, the id counter and the
  buffer, calling methods of the `Store` and `EmbeddingClient` classes.

The method is proved equal to `RunSpec`. `RunSpec` is proved to meet
`RunContract`, and the batching and storage lemmas follow from that.

Where the code and its design description disagree, the model follows the code:

- Paragraphs are cut on the literal two-character separator `"\n\n"`, not on
  "one or more blank lines". Three newlines give a piece that starts with
  `"\n"`, and stripping removes it.
- `ensure_collection` compares the dimension with
  `vectors_count or config.params.vectors.size`, not with the configured size.
  That decision is modelled as written (`EnsureCallsAsWritten`), and the
  Findings section shows where it goes wrong. The indexing run
  (`VectorStore.EnsureCollection`, `Indexing.Run`) uses the comparison the
  docstring describes (`EnsureCalls`, configured size against the dimension).
- `get_collection` can raise for a collection that exists (a time-out, a server
  error). The store's `lookupFails` names those lookups. `main`'s `except`
  branch then recreates the collection, so the run behaves as on a store
  without it (`AsSeen`).
- `extract_epub` keeps the items for which `item.get_type() == epub.EpubHtml`.
  `get_type()` returns an integer and `EpubHtml` is a class, so the test never
  holds and every EPUB (and every converted MOBI) gives an empty text. That is
  modelled as written (`EpubTextAsWritten`), and the Findings section shows it.
  The rest of the model keeps the document items, those of type `ITEM_DOCUMENT`.
- The backend neither sorts nor truncates the hits. It returns one result per
  hit, in the order the store gave them. `top_k` is passed through unchecked,
  so a bound on the number of results or an order by score is not part of the
  handler's contract.

## Model

| member | source | states |
|---|---|---|
| Strings.Strip | python/index_corpus_qdrant.py:45 | the stripped text is no longer than the input and neither of its ends is whitespace |
| Strings.StripIsSlice | python/index_corpus_qdrant.py:45 | the stripped text is one contiguous slice of the input, and everything cut off before and after it is whitespace |
| Strings.StripEmptyIff | python/lectio_backend.py:89-90 | stripping gives the empty string exactly when every character is whitespace |
| Strings.StripIdempotent | python/index_corpus_qdrant.py:45 | stripping twice is stripping once |
| Strings.SplitJoin | python/index_corpus_qdrant.py:45 | joining the pieces of `split(sep)` with `sep` gives back the original text |
| Strings.SplitLeftmost | python/index_corpus_qdrant.py:45 | each piece is cut at the leftmost occurrence of the separator: no occurrence starts inside a piece, not even one that runs on into the following separator |
| Strings.SplitOfJoin | python/index_corpus_qdrant.py:45 | conversely, parts that each end before the leftmost occurrence are exactly what splitting their join gives back, so Split is fully determined |
| Strings.ReplaceIsJoinOfSplit | python/extract_source_text.py:104 | `replace(pat, rep)` equals splitting on `pat` and joining with `rep`, scanning left to right without overlap |
| Strings.NormalizeNewlinesByCharacter | python/extract_source_text.py:104 | the two chained replacements turn each CR LF into one LF and each lone CR into LF, and keep every other character |
| Strings.NormalizedHasNoCr | python/extract_source_text.py:104 | the normalised text holds no carriage return |
| Strings.NormalizeWithoutCr | python/extract_source_text.py:104 | text without carriage returns is left unchanged |
| Strings.NormalizeIdempotent | python/extract_source_text.py:104 | normalising twice is normalising once |
| Chunking.Pieces | python/index_corpus_qdrant.py:45 | every piece of the split, after `strip()`, has no whitespace at either end |
| Chunking.KeepLong | python/index_corpus_qdrant.py:46 | every kept piece is longer than 40 characters and is one of the input pieces |
| Chunking.KeptPositionsCorrect | python/index_corpus_qdrant.py:46 | the kept pieces are a subsequence of the pieces: one strictly increasing position per kept piece, and every long piece is kept |
| Chunking.Numbered | python/index_corpus_qdrant.py:48-49 | element k is (file, k, k-th text), with one element per text |
| Chunking.FileParagraphs | python/index_corpus_qdrant.py:45-49 | paragraph k of a file carries that file and index k, is longer than 40 characters and is stripped |
| Chunking.ParagraphsAreLongPiecesInOrder | python/index_corpus_qdrant.py:45-49 | the paragraphs of a text are its stripped pieces at increasing positions, numbered 0..n-1 with no gaps, and every piece left out is at most 40 characters once stripped |
| Chunking.ShortThenLongParagraph | python/index_corpus_qdrant.py:45-49 | a short piece, a blank line and a long piece give one paragraph, numbered 0 |
| Chunking.IterParagraphs | python/index_corpus_qdrant.py:36-49 | every paragraph in the stream is longer than 40 characters and stripped |
| Chunking.EmptyStreamIff | python/index_corpus_qdrant.py:36-49 | the stream is empty exactly when no matched path yields a paragraph (not a file, unreadable, or only short pieces) |
| Chunking.IterParagraphsAppend | python/index_corpus_qdrant.py:36-49 | the stream over two runs of paths is the first's stream followed by the second's |
| Chunking.FileBlockInStream | python/index_corpus_qdrant.py:36-49 | the j-th path's paragraphs form one block in the stream, after those of the earlier paths and before those of the later ones |
| VectorStore.ExistingDim | python/index_corpus_qdrant.py:79 | Python's `or`: the reported count when it is present and non-zero, else the configured size |
| VectorStore.AsWrittenReuseOrRecreate | python/index_corpus_qdrant.py:78-89 | as written, for any `vectors_count` the server reports, the collection is reused unchanged exactly when it exists and ExistingDim equals `dim`. Otherwise it is recreated with `dim` and no points, a missing one included. No other collection changes |
| VectorStore.AsWrittenWithoutCount | python/index_corpus_qdrant.py:79-81 | when the server leaves `vectors_count` out or reports 0, the decision as written is the one by size |
| VectorStore.EnsureReuseOrRecreate | python/index_corpus_qdrant.py:74-89 | comparing sizes, the collection is reused unchanged exactly when it exists with size `dim`. Otherwise it is recreated with `dim` and no points, a missing one included. No other collection changes |
| VectorStore.EnsureIdempotent | python/index_corpus_qdrant.py:74-89 | ensuring again for the same dimension recreates nothing |
| VectorStore.RecreationDropsPoints | python/index_corpus_qdrant.py:86-89 | a recreation leaves the collection with no points |
| VectorStore.EnsureCollection | python/index_corpus_qdrant.py:172-180 | the lookup and the recreation, including the one in the `except` branch, are the calls EnsureCallsWith lists for the store's `lookupFails` on that name: a lookup that raises recreates, otherwise the configured size decides (the corrected comparison); the collections become EnsuredWith |
| VectorStore.FailedLookupRecreates | python/index_corpus_qdrant.py:172-180 | a lookup that raises leads to a recreation with `dim`, whether or not the collection existed; a collection that already had size `dim` loses its points too |
| VectorStore.EnsureAsSeen | python/index_corpus_qdrant.py:172-180 | ensuring with a lookup that raises makes the same calls, and leaves the same collections after them and after any later calls, as ensuring a store without that collection |
| VectorStore.ReplayAsSeen | python/index_corpus_qdrant.py:172-216 | every sequence of calls that begins with the ensure leaves the same collections whether it starts from the store or from the store as the lookup saw it |
| VectorStore.Store.GetCollection | python/index_corpus_qdrant.py:78 | logs the lookup and reports the server's `vectors_count` for the name (exact, approximate or left out) and the size; None (the exception) when the collection is missing or its lookup raises for another reason |
| VectorStore.Store.RecreateCollection | python/index_corpus_qdrant.py:86-89 | logs the call and replaces the collection with an empty one of size `dim` |
| VectorStore.Store.Upsert | python/index_corpus_qdrant.py:210 | logs the call; the batch is accepted exactly when the collection exists and every vector has its size, and then the points are written by id; an upsert fails only by rejection |
| VectorStore.AddPointsNumbered | python/index_corpus_qdrant.py:201-210 | points numbered 0, 1, 2, ... are each stored under their id, and only the ids below their count are added |
| VectorStore.EnsureDropsMatchingCollection | python/index_corpus_qdrant.py:79-81 | as written, with the exact count reported, a collection of the right size holding one point is recreated and loses that point |
| VectorStore.EnsureKeepsMismatchedCollection | python/index_corpus_qdrant.py:79-81 | as written, with the exact count reported, a collection of size 5 with 2 points is kept for dimension 2, and the store then rejects 2-dimensional vectors |
| VectorStore.EnsureBySizeReadiesCollection | python/index_corpus_qdrant.py:74-89 | comparing sizes, the store afterwards accepts every batch of vectors of length `dim`, whether or not the lookup raised; a collection that already had that size keeps its points when the lookup went through and loses them when it raised |
| Embedding.EmbeddingClient.Embed | python/index_corpus_qdrant.py:52-65 | one request per call: the prompt is logged and the service's answer is returned |
| Indexing.BatchesFlatten | python/index_corpus_qdrant.py:209-216 | the batches, concatenated, are all the points in order |
| Indexing.BatchesCount | python/index_corpus_qdrant.py:209-216 | there are ceil(N / B) batches |
| Indexing.BatchesSizes | python/index_corpus_qdrant.py:209-216 | every batch but the last holds exactly B points, none is empty, and the last holds N mod B, or B when B divides N |
| Indexing.FlushCount | python/index_corpus_qdrant.py:207-212 | after a point is appended the buffer holds 1 to B points, and it is flushed exactly when it holds B |
| Indexing.EffectiveBatchSize | python/index_corpus_qdrant.py:209 | `len(buffer) >= batch_size` behaves as batch size 1 for any value below 1, and as `batch_size` otherwise |
| Indexing.EmbedAll | python/index_corpus_qdrant.py:196-197 | one embedding per paragraph, each the service's answer for its text, up to the first paragraph whose request fails |
| Indexing.IndexPoints | python/index_corpus_qdrant.py:201-207 | point k has id k, the k-th embedding and the payload of paragraph k |
| Indexing.AppendPoint | python/index_corpus_qdrant.py:201-209 | after appending point i, the buffer is exactly the points since the last whole batch, and it reaches `batch_size` exactly when it holds B points |
| Indexing.RunMeetsContract | python/index_corpus_qdrant.py:141-216 | for every corpus, service and store, the run meets RunContract. No paragraphs means no store call and no embedding. Success means every paragraph was embedded once and every call was accepted. An embedding failure stops at that paragraph, after the whole batches before it. A rejected upsert stops the run with that call last |
| Indexing.IndexedRunBatches | python/index_corpus_qdrant.py:160-216 | a complete run sizes the collection by the first embedding and sends each text once (the probe's embedding is reused). Its points are numbered 0, 1, 2, ... in stream order with their own payloads, and its upserts are the ceil(N / B) batches of B points that together are all the points in order |
| Indexing.IndexedWhenDimensionsAgree | python/index_corpus_qdrant.py:167-216 | when every paragraph is embedded with the first embedding's length, the run indexes all paragraphs and no upsert is rejected, for a store whose upserts fail only by rejecting a batch |
| Indexing.IndexedStoresEveryParagraph | python/index_corpus_qdrant.py:172-216 | after a complete run the collection holds every paragraph's point under its id, and besides them only the points that `ensure_collection` left in it |
| Indexing.Run | python/index_corpus_qdrant.py:141-216 | the run on the store and the client gives the outcome, calls and prompts of RunSpec on the collections as the lookup sees them (the ensure step comparing sizes, the corrected comparison); the store's log and its actual collections and the client's prompt log move by exactly those calls and prompts |
| Indexing.IndexStream | python/index_corpus_qdrant.py:183-216 | the loop with its counter and buffer, and the final flush, give the outcome, calls and prompts of RunSpec |
| Indexing.IndexOne | python/index_corpus_qdrant.py:196-212 | one pass: the state moves as Pass says and the counter goes up by one |
| Indexing.FlushRest | python/index_corpus_qdrant.py:214-216 | the `if buffer:` upsert and the outcome are as Finish says |
| Indexing.NextEmbedding | python/index_corpus_qdrant.py:196-199 | the first paragraph reuses the probe's embedding without a request; every other paragraph sends exactly one |
| Search.TopKDefault | python/lectio_backend.py:47 | a request without `top_k` asks for 5 |
| Search.EmptyQueryRejected | python/lectio_backend.py:89-91 | the answer is 400 exactly when the query is all whitespace, and then no upstream request was made |
| Search.UpstreamRequests | python/lectio_backend.py:89-105 | a non-empty query is embedded once, stripped, before anything else; the store is searched only after a good embedding, once, with that vector and with `top_k` unchanged as the limit |
| Search.EmbeddingFailureIs502 | python/lectio_backend.py:93-98 | an error status from the service is a 502 that keeps the status as an Ollama error; any other embedding failure is a 502 "failed to get embedding"; the store is not searched |
| Search.StoreFailureIs502 | python/lectio_backend.py:100-107 | a failed store search after a good embedding is a 502 |
| Search.FailureStatuses | python/lectio_backend.py:87-110 | the handler fails only with 400 or 502 |
| Search.SuccessFollowsStore | python/lectio_backend.py:109-110 | the handler succeeds exactly when the query is not empty and both upstream calls succeed; then it gives one result per hit, in the store's order |
| Search.Results | python/lectio_backend.py:109 | one result per hit, result k converted from hit k |
| Search.MissingPayloadDefaults | python/lectio_backend.py:72-79 | a hit with no payload, or an empty one, gets file "", index 0 and text "" |
| Search.PointToResultFields | python/lectio_backend.py:72-79 | each field present is copied through, each missing one takes its default, and a missing score is 0 |
| Search.IndexedParagraphRoundTrip | python/lectio_backend.py:72-79 | a hit on a point the indexer wrote gives back that paragraph's file, index and text |
| Extraction.LastDot | python/extract_source_text.py:84 | the position of the last dot of the name, or -1 when there is none |
| Extraction.LowerAscii | python/extract_source_text.py:84 | same length; each ASCII capital becomes its small letter and every other character is kept |
| Extraction.ProcessedIff | python/extract_source_text.py:79-85 | an entry is processed exactly when it is a regular file whose lower-cased suffix is `.pdf`, `.epub` or `.mobi`, and then it gives exactly one report line about itself |
| Extraction.CaseInsensitiveDispatch | python/extract_source_text.py:94-101 | dispatch on a dotted suffix ignores letter case; a suffix that lower-cases to `.pdf` goes to the PDF extractor |
| Extraction.UpperCasePdf | python/extract_source_text.py:94-95 | a name ending in `.PDF` is extracted as a PDF |
| Extraction.DotFileSkipped | python/extract_source_text.py:84-85 | a name that is only a dot and a suffix, such as `.pdf`, has no suffix and is skipped |
| Extraction.OutputPathShape | python/extract_source_text.py:87-88 | the output path is the output directory followed by the input's relative directories and a name made of the input's stem and the suffix `.txt` |
| Extraction.ExtractPdf | python/extract_source_text.py:11-17 | the page texts, collected one by one and joined with a blank line, give PdfText |
| Extraction.PdfTextEmpty | python/extract_source_text.py:17 | a PDF's text is empty exactly when it has no page, or only one page and that page is empty |
| Extraction.PdfPagesSplitBack | python/extract_source_text.py:13-17 | no blank line is lost or added between pages: when no page contains the separator or ends in a newline, splitting the text gives back the pages in order |
| Extraction.ExtractEpub | python/extract_source_text.py:20-30 | with the type test on `ITEM_DOCUMENT` (the corrected test), the loop collects exactly EpubChunks, and the text is their join |
| Extraction.EpubChunks | python/extract_source_text.py:22-30 | with the corrected type test, no collected chunk is empty |
| Extraction.EpubItemContribution | python/extract_source_text.py:22-30 | with the corrected type test, each item adds its text at its place exactly when it is a document with non-empty text; one that does not leaves the text as if it were absent, with no separator for it |
| Extraction.EpubChunksAreContributions | python/extract_source_text.py:22-30 | with the corrected type test, every chunk is the text of a contributing item, and every contributing item gives a chunk |
| Extraction.EpubTextEmptyIff | python/extract_source_text.py:22-30 | with the corrected type test, an EPUB's text is empty exactly when no item is a document with non-empty text |
| Extraction.EpubTextAsWrittenEmpty | python/extract_source_text.py:22-30 | as written, the integer `get_type()` never equals the class `EpubHtml`, so no chunk is collected and every EPUB's text is empty |
| Extraction.EpubChapterDropped | python/extract_source_text.py:24 | a book with one document item whose text is "Hello" gives "" as written and "Hello" with the corrected test |
| Extraction.OutputTree.WriteText | python/extract_source_text.py:106 | a writable path gets the text; otherwise the write fails, and the model leaves the files unchanged |
| Extraction.ExtractOne | python/extract_source_text.py:82-108 | one entry's report line is Step's, and the written file is the only change to the output tree; an EPUB's or a MOBI's text follows the corrected type test |
| Extraction.ExtractAll | python/extract_source_text.py:81-108 | the report is Reports over all entries, and the output tree holds every file the report says was written; EPUB and MOBI texts follow the corrected type test |
| Extraction.MobiTextFromOwnConversion | python/extract_source_text.py:34-51 | for every MOBI source, its text depends only on the conversion of that source, not on what other sources converted to the same path produce |
| Extraction.SameStemMobisKeepTheirTexts | python/extract_source_text.py:34-51 | an example: two MOBI sources with one stem are converted to the same path, and each gives the text of its own conversion |
| Extraction.FailureIsolation | python/extract_source_text.py:93-108 | the report over two runs of entries is the first run's report followed by the second's, whatever failed in the first |
| Extraction.WrittenTextsHaveNoCr | python/extract_source_text.py:104-106 | no text the run writes holds a carriage return |

## Left out

- Network calls are not modelled. The requests to the Ollama service and to Qdrant are replaced by the given functions and by the `Store` class. HTTP sessions, URLs, headers and JSON decoding are left out.
- Qdrant's own behaviour is left out: nearest-neighbour ranking, distance metrics, limits on results and the atomicity of an upsert. The store's search answer is a parameter of the handler.
- Floating-point values are opaque: embedding components and scores are `real` values that are never computed with. `float(point.score or 0.0)` is modelled as a default only.
- The `str()` and `int()` coercions in `point_to_result` (lectio_backend.py:76-78) are not modelled. Payload fields are typed options, so a field of the wrong type is not represented.
- A score of exactly 0 looks the same to the model whether it came from the store or from the default.
- The file system is left out: `rglob`, `is_file`, `read_text`, `exists`, `mkdir` and `relative_to`. Corpora are given lists of entries, and a read failure is a missing text. The `mkdir` at extract_source_text.py:89 stands outside the `try`, so a failure there would stop the extraction run; the model treats it as always succeeding.
- Indexing.Run counts the paragraphs from the same list it streams. The program reads the corpus twice (index_corpus_qdrant.py:142 and 157), and the model assumes both passes see the same files. The `StopIteration` branch (lines 162-164) can only be reached if the corpus changes between the passes, so it is not modelled.
- The PDF, EPUB and MOBI libraries and the `ebook-convert` subprocess are left out. Page texts and item types and texts are given functions. So are the items of the book `ebook-convert` writes from each MOBI source, None when it fails. The converted file's path follows line 38. Each conversion overwrites that path, so the model keys the converted items by the source.
- The FastAPI application, CORS, the static mount, `/health`, uvicorn, argparse, environment defaults, tqdm and `print` are left out. None of them changes the logic.
- Strings.IsSpace: this is the whitespace set of `str.isspace()` written out for ASCII, Latin-1 and the Unicode space separators. It is not derived from the Unicode database.
- Extraction.LowerAscii: lower-cases ASCII letters only. `str.lower()` also folds non-ASCII letters, which never occur in the three supported suffixes.
- The `Paragraph.file` field is the path's `str()` form as a given string. How pathlib spells a path is not modelled.
- VectorStore.EnsureCollection: decides with the configured size, the corrected comparison, not with line 79's `vectors_count or size`; the comparison as written is EnsureCallsAsWritten (see Findings).
- Indexing.Run: its ensure step is EnsureCollection's corrected comparison, so the run as written with line 79 is not what it is proved equal to; RunMeetsContract is not restated for the comparison as written.
- VectorStore.Store.GetCollection: `lookupFails` stands for any exception raised before the recreation at line 86, at the lookup or while reading the attributes on line 79; both lead to the same calls.
- VectorStore.Store.Upsert: a batch the store accepts is always written. An upsert at index_corpus_qdrant.py:210 or 215 that raises for another reason (a time-out, a lost connection, a server error) would stop `main` as a rejection does; it is not modelled.
- Indexing.IndexedWhenDimensionsAgree: holds for a store whose upserts fail only by rejection; an upsert that raises for another reason would stop the run anyway (see VectorStore.Store.Upsert).
- VectorStore.Store.RecreateCollection: never fails. A failure at line 86 would make the `except` branch try again, and a second failure would stop `main`; neither is modelled.
- Extraction.ExtractOne: writes the EPUB and MOBI text of the corrected type test (EpubText); as written that text is always empty (EpubTextAsWritten, see Findings).
- Extraction.ExtractAll: its report and output tree carry the EPUB and MOBI texts of the corrected type test; as written they are all empty (EpubTextAsWritten).
- VectorStore.Describe: the lookup's `vectors_count` is whatever the server reports for the name (`Store.reportedCount`), exact, approximate or left out; how Qdrant computes it is not modelled.
- ExtractEpub: follows the corrected type test on `ITEM_DOCUMENT`; as written the text is always empty (EpubTextAsWritten, see Findings).
- EpubChunks: keeps the document items, the corrected type test, not line 24 as written.
- EpubItemContribution: states what an item adds under the corrected type test; as written no item adds anything.
- EpubChunksAreContributions: characterises the chunks under the corrected type test; as written there are none.
- EpubTextEmptyIff: states when the text is empty under the corrected type test; as written it always is (EpubTextAsWrittenEmpty).
- Extraction.OutputTree.WriteText: a failed write changes nothing. `write_text` opens the file with mode "w", so a failure after the open (an encoding error, say) would leave an empty or partial file; that is not represented.
- The backend's own `get_embedding` (lectio_backend.py:61-69) is reduced to its failure kinds. The detail message keeps the status code but not the exception text.

## Findings

| source | as written | input that shows it | evidently intended | confidence | as-written member | corrected member |
|---|---|---|---|---|---|---|
| python/index_corpus_qdrant.py:79-81 | `existing_dim` is `vectors_count or size`, and `vectors_count` is the number of stored vectors, so wherever the server reports that count it is the point count that is compared with the dimension; where it leaves the count out, or it is 0, the `or` falls back to the size (AsWrittenWithoutCount) | with the exact count reported, a collection of size 2 holding one point, ensured for dimension 2, is recreated and loses its point; a collection of size 5 holding two points, ensured for dimension 2, is kept, and the next upsert of 2-dimensional vectors is rejected | compare the configured vector size with the dimension (the docstring at lines 74-77), so that an existing collection of that size is reused and any other is recreated, and a run whose embeddings all have one length is never rejected (upserts that raise for other reasons, such as a time-out, are not modelled) | not executed | VectorStore.EnsureDropsMatchingCollection, VectorStore.EnsureKeepsMismatchedCollection | VectorStore.EnsureBySizeReadiesCollection, Indexing.IndexedWhenDimensionsAgree, VectorStore.EnsureCollection, Indexing.Run |
| python/extract_source_text.py:24 | `item.get_type() == epub.EpubHtml` compares the integer item type with a class object, which is never equal, so no item is kept and `extract_epub` returns "" | a book with one XHTML chapter whose text is "Hello" gives an empty text, and so does every MOBI converted to EPUB | keep the items of type `ITEM_DOCUMENT`, so that the chapter gives "Hello" | not executed | Extraction.EpubTextAsWrittenEmpty, Extraction.EpubChapterDropped | Extraction.ExtractEpub, Extraction.EpubChunksAreContributions, Extraction.EpubTextEmptyIff, Extraction.ExtractOne, Extraction.ExtractAll |
