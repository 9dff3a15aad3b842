# Retrieval core of the university chatbot, in Dafny

This project models the retrieval pipeline of a retrieval-augmented university chatbot. Its text side, `RAGService`, does the following:
- joins the page texts extracted from an uploaded PDF and splits the result into overlapping chunks, snapped to sentence ends;
- stores each chunk in a vector collection under a deterministic id (`<document_id>_chunk_<i>`), with its metadata and embedding;
- marks the document processed in the document table;
- deletes a document's chunks by their `document_id` tag;
- turns a similarity-search response into ranked results and context texts.

The project also models the pure prompt helpers of `GeminiService`: the plain prompt with optional context, the retrieval prompt with the last five messages and numbered context documents, and the keyword-based application-intent fallback.

Modules, one per concern:

- `PyStr`: the Python string built-ins the core relies on, with their characterisations.
  - `str.strip` uses Python's whitespace set.
  - `lower` and `capitalize` are ASCII only.
  - `in` is substring containment.
  - `str(n)` for natural numbers comes with a parse round trip.
  - `"".join` and the repr of a list of plain strings are included too.
- `Chunker`: `_chunk_text`.
  - `SourceChunkFrom` models the loop exactly as written. Its cursor is an integer, its slices follow Python's rules for negative and out-of-range bounds, and it is given a number of turns (`fuel`). It returns `None` when the loop has not ended within that many turns.
  - `ChunkFrom` / `Chunk` / `ChunkText` are the corrected chunker used everywhere else (see Findings).
- `PdfText`: the page loop of `_extract_text_from_pdf` and the blank-text check before chunking.
- `VectorIndex`: the vector collection as a map from id to (text, metadata, embedding), as a class with add (an upsert), get-ids-where and delete.
- `Retrieval`: `RAGService` as a class. Its fields are the collection, the document table (a map from id to processed flag and chunk count), the embedding model and the database's query (both function-valued), and the configured chunk size, overlap and top-k.
- `Prompts`: `_construct_prompt`, `_construct_rag_prompt` and `_keyword_based_intent_analysis`.
- `Wrappers`: `Option`.

## Model

| member | source | states |
|---|---|---|
| PyStr.IsSpace | app/services/rag_service.py:264 | Python's `str.strip` whitespace set: space, tab and line breaks are in it; no letter, digit or sentence end is. |
| PyStr.Strip | app/services/rag_service.py:264 | The stripped text is no longer than the input. It is empty exactly when the input is all whitespace. Otherwise it neither starts nor ends with whitespace. |
| PyStr.StripIsSlice | app/services/rag_service.py:264 | The stripped text is the slice of the input between a whitespace-only prefix and a whitespace-only suffix. |
| PyStr.StripUnchanged | app/services/rag_service.py:264 | A text that neither starts nor ends with whitespace is its own strip. |
| PyStr.SliceBound | app/services/rag_service.py:255 | Python's slice-bound normalisation: a bound inside the sequence is kept, one beyond the length is clamped to it, a negative one counts from the end, and one below minus the length becomes 0. |
| PyStr.PySlice | app/services/rag_service.py:255 | `s[a:b]` for any integers: the ordinary slice for in-range bounds, the tail when `b` is past the end, and empty whenever the normalised `b` is not after the normalised `a`. |
| PyStr.AllSpaceConcat | app/services/rag_service.py:216 | A concatenation is blank exactly when both parts are blank. |
| PyStr.Lower | app/services/gemini_service.py:209 | Same length as the input; every character is lower-cased. |
| PyStr.CapitalizeChars | app/services/gemini_service.py:170 | `capitalize` upper-cases the first character and lower-cases every other one. |
| PyStr.Contains | app/services/gemini_service.py:210 | The scan answers true exactly when the needle occurs as a contiguous slice of the haystack. |
| PyStr.InfixOfConcat | app/services/gemini_service.py:178-186 | A substring of either part is a substring of the concatenation. |
| PyStr.JoinAt | app/services/gemini_service.py:170 | In a concatenation of parts, part `i` occurs right after the parts before it. |
| PyStr.JoinAtAfter | app/services/gemini_service.py:166-170 | The same holds behind a fixed header. |
| PyStr.NatToString | app/services/rag_service.py:75 | `str(i)` is non-empty and all decimal digits. |
| PyStr.ParseNatToString | app/services/rag_service.py:75 | Parsing `str(n)` back gives `n`. |
| PyStr.NatToStringInjective | app/services/rag_service.py:75 | Different numbers have different decimal strings. |
| PyStr.ListRepr | app/services/gemini_service.py:218 | The repr of a list is bracketed. |
| PyStr.ListReprItem | app/services/gemini_service.py:218 | Inside the brackets, item `i` appears quoted right after the earlier items' parts, preceded by ", " unless it is the first, and each item's part has the quoted item's length plus the separator. |
| PyStr.SingletonListRepr | app/services/gemini_service.py:218 | The repr of a one-item list is `['item']`. |
| Chunker.LastSentenceEnd | app/services/rag_service.py:258-261 | The index of the last '.', '!' or '?' in the window, or -1 when the window has none. |
| Chunker.WindowEnd | app/services/rag_service.py:249-261 | A window reaching the end of the text keeps `start + chunk_size`. Otherwise the end is either `start + chunk_size` with no sentence end in the window, or just after the window's last sentence end. |
| Chunker.SnapEnd | app/services/rag_service.py:249-261 | The backward `for` loop with `break` computes exactly `WindowEnd`. |
| Chunker.SourceEnd | app/services/rag_service.py:249-261 | As written, for any integer cursor: the end lies between the cursor and `start + chunk_size`, and is `start + chunk_size` when that reaches the end of the text. |
| Chunker.SourceEndIsWindowEnd | app/services/rag_service.py:249-261 | For a cursor that is not negative, the source's end is `WindowEnd`. |
| Chunker.NextStart | app/services/rag_service.py:269 | As written: the next cursor is `end - chunk_overlap` before the end of the text (possibly at or before the old cursor, even negative), and the text length otherwise. |
| Chunker.AdvancedStart | app/services/rag_service.py:269 | Corrected: the next cursor is strictly after the current one and at most the text length. Before the end of the text it is at least `end - chunk_overlap`, so consecutive windows overlap by at most `chunk_overlap`, and at most `end`, so no character is skipped. It equals the source's `end - chunk_overlap` whenever that value moves forward. |
| Chunker.Piece | app/services/rag_service.py:264 | The stripped window is no longer than the window, and empty exactly when the window is all whitespace. |
| Chunker.PieceIsSourceSlice | app/services/rag_service.py:264 | For a cursor that is not negative, the corrected piece is the source's `text[start:end].strip()`. |
| Chunker.SourceChunkFrom | app/services/rag_service.py:247-269 | The loop as written: a cursor at or past the end gives no chunks, and every chunk of a finished run is non-empty with no whitespace at either end. |
| Chunker.SourceStep | app/services/rag_service.py:247-269 | One turn of the loop as written: the stripped window, if non-empty, comes before what the following turns produce from the next cursor. |
| Chunker.SourceStops | app/services/rag_service.py:247-269 | A run that does not end from the next cursor does not end from this one. |
| Chunker.SourceSpins | app/services/rag_service.py:252-269 | A cursor that the loop maps back to itself is never left: the run has not ended after any number of turns. |
| Chunker.ChunkText | app/services/rag_service.py:242-271 | The `while` loop appends each non-empty stripped window and returns exactly `Chunk` of the text. |
| Chunker.ChunkAgreesWithSource | app/services/rag_service.py:247-269 | On every run whose cursor moves forward at each window, the loop as written ends within one turn per remaining character and returns exactly the corrected chunker's chunks. |
| Chunker.ChunkShape | app/services/rag_service.py:255-266 | Every chunk is non-empty. Each chunk is the stripped text of a window of at most `chunk_size` characters, taken at or after the starting cursor. |
| Chunker.ChunkCovers | app/services/rag_service.py:247-269 | With a positive chunk size, every non-whitespace character from the starting cursor on lies in some window whose stripped text is a chunk. |
| Chunker.BlankTextNoChunks | app/services/rag_service.py:264-266 | Empty or whitespace-only text yields no chunks. |
| Chunker.NoChunksIffBlank | app/services/rag_service.py:247-271 | With a positive chunk size, the chunk list is empty exactly when the text is blank. |
| Chunker.UnsnappedRunCompletes | app/services/rag_service.py:247-269 | For a text without sentence ends and overlap < chunk size, the cursor moves forward at every window, and the source's loop ends with the corrected chunker's chunks. |
| Chunker.NoProgressIff | app/services/rag_service.py:269 | The source's cursor fails to advance exactly when the window ends before the end of the text and its end is within `chunk_overlap` characters of the cursor. |
| Chunker.UnsnappedWindowAdvances | app/services/rag_service.py:249-269 | An unsnapped window with overlap < chunk size always advances the source's cursor. |
| Chunker.StallExample | app/services/rag_service.py:252-269 | "a.bbbbb" with size 4 and overlap 2: the window snaps to end 2 and the cursor returns to 0, so the source's loop has not ended after any number of turns. |
| Chunker.StallWithDefaults | config.py:30-31 | With the configured 1000/200, the text of 500 'a's, '.', 1500 'b's sends the cursor 0 → 301 → 301, and the loop has not ended after any number of turns. |
| Chunker.RewindExample | app/services/rag_service.py:252-269 | ".bcdefghijklmnopqrstu" with size 10 and overlap 3: the first window snaps to ".", the cursor goes to -2, the empty slice `text[-2:8]` sends it to 5, and the loop ends with ".", "fghijklmno" and "mnopqrstu". The letters 'b' to 'e' are in no chunk. |
| Chunker.RewindWithDefaults | config.py:30-31 | With the configured 1000/200, "Hello." followed by 1000 'x's gives only "Hello." and the last 400 'x's: the cursor goes 0 → -194 → 606. |
| Chunker.RewindExampleCorrected | app/services/rag_service.py:252-269 | The corrected chunker on the same text returns ".", "bcdefghijk", "ijklmnopqr" and "pqrstu", which together hold every letter. |
| PdfText.JoinPages | app/services/rag_service.py:209-213 | The page loop builds exactly `JoinedPages`: each non-empty page followed by "\n", in page order. |
| PdfText.PageInJoinedText | app/services/rag_service.py:210-213 | Page `i`, followed by "\n", sits in the joined text right after the earlier pages' contributions. |
| PdfText.JoinedPagesSplit | app/services/rag_service.py:210-213 | Joining splits over any division of the page list. |
| PdfText.JoinedBlankIff | app/services/rag_service.py:212-216 | The joined text is blank exactly when every page is blank. |
| PdfText.ExtractTextFromPdf | app/services/rag_service.py:202-224 | All pages blank gives no chunks. Otherwise the result is the chunks of the joined text. |
| PdfText.NoChunksIffBlankPages | app/services/rag_service.py:209-224 | With a positive chunk size, a PDF yields no chunks exactly when all its pages are blank. |
| VectorIndex.Upsert | app/services/rag_service.py:94-99 | The ids after an add are the old ids plus the batch's ids. |
| VectorIndex.UpsertAt | app/services/rag_service.py:94-99 | With distinct ids, the `k`-th id holds the `k`-th text, metadata and embedding. |
| VectorIndex.UpsertKeepsOthers | app/services/rag_service.py:94-99 | An id outside the batch keeps its entry. |
| VectorIndex.DeleteIds | app/services/rag_service.py:296 | Exactly the given ids are removed; every other entry is unchanged. |
| VectorIndex.Collection.constructor | app/services/rag_service.py:37-40 | The collection starts with the given entries. |
| VectorIndex.Collection.Add | app/services/rag_service.py:94-99 | The new entries are the upsert of the batch into the old ones. |
| VectorIndex.Collection.IdsWhere | app/services/rag_service.py:289-292 | Returns exactly the ids whose metadata has the given key with the given value. |
| VectorIndex.Collection.Delete | app/services/rag_service.py:296 | The new entries are the old ones with the ids removed. |
| Retrieval.ChunkId | app/services/rag_service.py:75 | The id is the document id, then "_chunk_", then at least one decimal digit and nothing else. |
| Retrieval.ChunkIdIndex | app/services/rag_service.py:75 | The digits after "_chunk_" parse back to the chunk index. |
| Retrieval.ChunkIdInjective | app/services/rag_service.py:75 | Two (document id, index) pairs give the same chunk id only when they are the same pair, whatever the document ids contain. |
| Retrieval.ChunkSuffixLength | app/services/rag_service.py:75 | For equal chunk ids, the first index's decimal string is at least as long as the second's. Applied both ways, they have equal length. |
| Retrieval.ChunkIds | app/services/rag_service.py:74-76 | A document's `n` chunk ids are pairwise distinct. |
| Retrieval.ChunkIdSetSize | app/services/rag_service.py:74-76 | A document's first `n` chunk ids form a set of exactly `n` ids. |
| Retrieval.ChunkMetadata | app/services/rag_service.py:79-86 | Keys are `document_id`, `chunk_index`, `source_file` plus the caller's keys. The caller's values win. Otherwise the three defaults hold. |
| Retrieval.EncodeAll | app/services/rag_service.py:91 | One embedding per chunk text. |
| Retrieval.IngestedEntries | app/services/rag_service.py:74-99 | After ingestion, chunk `i` is stored under `<id>_chunk_<i>` with its text, metadata and embedding. Every other id keeps its entry. |
| Retrieval.WithoutDocument | app/services/rag_service.py:287-300 | An entry survives exactly when it is not tagged with the document; survivors are unchanged. |
| Retrieval.TaggedIds | app/services/rag_service.py:289-292 | Exactly the ids whose metadata tags the document. |
| Retrieval.DeleteIdempotent | app/services/rag_service.py:277-300 | Deleting a document's chunks twice equals deleting them once. |
| Retrieval.ReingestReplaces | app/services/rag_service.py:74-99 | Delete then ingest `n` chunks leaves exactly `n` entries tagged with the document: its new chunk ids. |
| Retrieval.Registered | app/services/rag_service.py:102-106 | An existing document row becomes processed with the chunk count. Other rows are unchanged, and no row is created. |
| Retrieval.FormatResults | app/services/rag_service.py:144-153 | One result per hit of the first query, in the store's order, with similarity `1 - distance`. No results for a failed query or a response missing metadata or distances. |
| Retrieval.RankingPreserved | app/services/rag_service.py:150 | Ascending distances give descending similarity scores. |
| Retrieval.CategoryFilter | app/services/rag_service.py:172-174 | `{'category': c}` for a non-empty category; no filter otherwise. |
| Retrieval.Texts | app/services/rag_service.py:184 | The results' texts, in the same order. |
| Retrieval.ResultsFromSoundResponse | app/services/rag_service.py:136-153 | If the store's response is sound, there are at most `k` results. Each is a stored entry satisfying the filter. |
| Retrieval.EmptyIndexNoResults | app/services/rag_service.py:136-153 | An empty collection yields no results. |
| Retrieval.DeletedNeverRetrieved | app/services/rag_service.py:289-296 | After a document's chunks are deleted, no search result is tagged with it. |
| Retrieval.RagService.constructor | app/services/rag_service.py:15-20 | The service holds the given collection, document table, model, query and configuration. |
| Retrieval.RagService.ProcessPdfDocument | app/services/rag_service.py:48-113 | Returns false and changes nothing exactly when no chunks are extracted. With a positive chunk size that is exactly the all-blank PDF. Otherwise: true, the collection gains the document's chunks, and the row is marked processed. |
| Retrieval.RagService.BuildBatch | app/services/rag_service.py:70-88 | The loop builds exactly the chunk ids, the texts unchanged, and the per-chunk metadata. |
| Retrieval.RagService.DeleteDocumentChunks | app/services/rag_service.py:277-304 | Removes exactly the entries tagged with the document, keeps the rest, and succeeds even when none matched. |
| Retrieval.RagService.SearchSimilarDocuments | app/services/rag_service.py:115-157 | For a sound store response: at most `n_results` hits, each satisfying the filter. |
| Retrieval.RagService.GetRelevantContext | app/services/rag_service.py:159-186 | The texts of the top-k search results under the category filter, in rank order. |
| Prompts.ConstructPrompt | app/services/gemini_service.py:141-151 | No context or empty context returns the prompt unchanged. Otherwise the template holds the context, then the prompt, at fixed positions. |
| Prompts.PromptContainsBoth | app/services/gemini_service.py:143-150 | With context, the result contains both the context and the question. |
| Prompts.RecentMessages | app/services/gemini_service.py:167 | `history[-5:]`: the last `min(5, n)` messages, as a suffix. |
| Prompts.HistoryLine | app/services/gemini_service.py:168-170 | A history line is as long as the role, ": ", the content and the line break together, and ends with the line break. |
| Prompts.HistoryLineShape | app/services/gemini_service.py:168-170 | A line is the capitalised role, ": ", the content and "\n". |
| Prompts.DefaultHistoryLine | app/services/gemini_service.py:168-169 | A message with no type and no content is shown as "User: \n". |
| Prompts.HistoryLines | app/services/gemini_service.py:167-170 | One line per message, in order. |
| Prompts.HistoryText | app/services/gemini_service.py:164-166 | Empty when there is no history. |
| Prompts.DocumentBlocks | app/services/gemini_service.py:174-175 | Document `i` (from 0) gets the block labelled `[Document i+1]`. |
| Prompts.HistoryLineAt | app/services/gemini_service.py:165-170 | Each recent message's line appears right after the header and the lines before it, so history order is kept. |
| Prompts.DocumentNumbered | app/services/gemini_service.py:173-175 | Document `i` appears in the context text labelled `[Document i+1]` with its full text. |
| Prompts.RagPrompt | app/services/gemini_service.py:157-186 | The question comes last in the prompt, immediately before the closing "Response:" trailer, which ends the prompt. |
| Prompts.DocumentInRagPrompt | app/services/gemini_service.py:173-188 | Every numbered document block is part of the final prompt. |
| Prompts.QueryInRagPrompt | app/services/gemini_service.py:178-186 | The question is part of the final prompt. |
| Prompts.BuildHistoryText | app/services/gemini_service.py:164-170 | The history loop builds exactly `HistoryText`. |
| Prompts.BuildContextText | app/services/gemini_service.py:172-175 | The document loop builds exactly `ContextText`. |
| Prompts.ConstructRagPrompt | app/services/gemini_service.py:153-188 | The final prompt is exactly `RagPrompt`: system prompt, history, numbered documents, question. |
| Prompts.MatchedKeywords | app/services/gemini_service.py:210 | A keyword is matched exactly when it occurs in the text. The matches keep keyword-list order. |
| Prompts.KeywordBasedIntentAnalysis | app/services/gemini_service.py:202-219 | Intent exactly when some keyword occurs in the lower-cased message. Confidence is between 0 and 0.8, and 0 exactly without intent. The "No application keywords found" reasoning appears exactly without intent. |
| Prompts.ConfidenceSteps | app/services/gemini_service.py:213 | One, two and three or more matches give confidence 0.3, 0.6 and 0.8. |
| Prompts.IntentExample | app/services/gemini_service.py:204-218 | "Apply" gives intent, confidence 0.3 and reasoning "Keyword-based analysis found: ['apply']". |
| Prompts.NoIntentExample | app/services/gemini_service.py:212-218 | "Hi" gives no intent, confidence 0 and the no-keywords reasoning. |

## Left out

- PDF parsing (`PyPDF2`): the model starts from the per-page texts; a page whose extraction returns nothing is the empty string.
- File I/O: not modelled; `file_path` is only the `source_file` metadata value.
- The embedding model: it is the function-valued field `embed`.
- The vector database's nearest-neighbour ranking: it is the function-valued field `storeQuery`. The model relies only on a sound response, meaning at most `k` hits, each a stored entry that satisfies the filter.
- `collection.add`: modelled as an upsert. An existing id is overwritten.
- Every `try`/`except` fallback is left out; exceptions from foreign code are not modelled. These are the `False`, `[]` and `[text]` results of the exception paths, and the re-initialisation of the collection when it is missing (rag_service.py:129-130).
- Logging and the database commit are left out.
- `get_collection_stats` and `_initialize_components` are outside the modelled core. So is everything in `GeminiService` that calls the language model.
- Chunk size and overlap are natural numbers; negative configuration values are not modelled. `look_back_start` (rag_service.py:254) is computed and never used, so it has no counterpart.
- `lower`, `upper` and `capitalize` are modelled for ASCII letters only. Python's full Unicode case mapping is not modelled.
- Floats are modelled as reals: the similarity `1 - distance` and the confidence `min(0.8, 0.3 * n)`.
- PyStr.QuotedRepr: does not escape quotes or backslashes the way Python's `repr` does. It is exact for the fixed keyword list, the only strings it is applied to.
- PyStr.Lower: ASCII only, as above.
- Retrieval.RagService.SearchSimilarDocuments: states its bound and filter guarantee only under a sound store response, because the store is foreign.
- Retrieval.ReingestReplaces: assumes the caller's metadata has no `document_id` key. A caller that supplies one overrides the tag (rag_service.py:85-86), and the deletion of rag_service.py:289-296 would then not find those chunks.
- Chunker.ChunkCovers and Chunker.NoChunksIffBlank: assume a positive chunk size. With chunk size 0 every window is empty.
- Chunker.SourceChunkFrom: the source's loop is modelled with a bound on the number of turns, because it need not terminate. `None` means the loop has not ended within the bound. That it never ends is stated for every bound (`Chunker.SourceSpins`), not as divergence.
- Chunker.AdvancedStart: where the source's `end - chunk_overlap` does not move forward, the corrected cursor moves to the window's end (or one past the cursor for an empty window). After such a window the next one starts without overlap.
- The document table: only the two fields the service updates (`is_processed`, `chunk_count`) are modelled.

## Findings

| source | as written | input that shows it | evidently intended | confidence | as-written member | corrected member |
|---|---|---|---|---|---|---|
| app/services/rag_service.py:269 | The next cursor is `end - chunk_overlap` with no check that it moves past `start`. A window snapped back to a sentence end within `chunk_overlap` characters of `start` sends the cursor back to `start` or earlier. When the end is exactly `chunk_overlap` past a cursor, that cursor maps to itself and the loop never ends. This holds even with overlap < chunk size. | With chunk size 1000 and overlap 200 (config.py:30-31), the text of 500 'a's, one '.', then 1500 'b's moves the cursor 0 → 301 → 301 → … forever. A smaller case is "a.bbbbb" with 4/2. | The cursor always moves forward; windows still overlap by up to `chunk_overlap`. The loop ends, and every non-whitespace character lands in some chunk. | high (not executed) | Chunker.StallWithDefaults | Chunker.ChunkText |
| app/services/rag_service.py:252-269 | A window snapped to a sentence end fewer than `chunk_overlap` characters into the text sends the cursor below zero. Python then counts the negative start of `text[start:end]` from the end of the text. In the inputs shown that window is empty, and the next cursor lies past text that no window ever held. | With 1000/200 (config.py:30-31), "Hello." followed by 1000 'x's gives only "Hello." and the last 400 'x's: the cursor goes 0 → -194 → 606, so 600 'x's are lost. A smaller case is ".bcdefghijklmnopqrstu" with 10/3, which loses 'b' to 'e'. | No text is lost: the cursor never moves backwards or past the window's end, so every non-whitespace character lands in some chunk. | high (not executed) | Chunker.RewindWithDefaults | Chunker.RewindExampleCorrected |

The corrected chunker (`Chunker.AdvancedStart`, `Chunker.ChunkFrom`, `Chunker.ChunkText`) has the following properties:
- Its cursor always moves past the current one, and never past the current window's end, so it terminates and skips nothing (`Chunker.AdvancedStart`).
- Consecutive windows overlap by at most `chunk_overlap` characters, as in the source.
- It agrees with the source on every run whose cursor moves forward at each window (`Chunker.ChunkAgreesWithSource`). This covers every text without sentence ends when the overlap is smaller than the chunk size (`Chunker.UnsnappedRunCompletes`). On the runs where the source stalls or rewinds the two differ, by design.
- It has the proved shape and coverage properties (`Chunker.ChunkShape`, `Chunker.ChunkCovers`).

The rest of the model (PDF extraction and ingestion) uses it.
