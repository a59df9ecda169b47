# HWU AI Learning Buddy — verified model of the document pipeline and chat session

This project models, in Dafny, the parts of the HWU MACS "Learning Buddy"
retrieval-augmented course assistant that are plain computation between its
external services:

- **Text cleaning and PDF records** (`src/1_ingest_data.py`). `clean_text` collapses
  newline runs and space runs, then strips. The page loop of
  `extract_text_from_pdf` is modelled over the pages' extracted texts.
  `convert_df_to_text` is modelled over a table of optional cell strings: it
  turns each data row into a `"<header> is <value>. ..."` sentence record.
- **Sentence-aware chunker** (`src/helper/html_parser.py`). `chunk_text` splits the
  stripped text into sentences and packs them greedily into chunks. On an
  overflow, it seeds the next chunk with trailing `". "`-pieces of the
  abandoned chunk, within the overlap budget. `create_data_records` is also
  modelled.
- **Fixed-window chunker** (`src/html_paraser.py`). `chunk_text` is a sliding
  window; `create_data_records` is also modelled.
- **Chat session** (`src/app.py`). The model covers the cache-key and
  query-rewriting helpers, and the cache getters and setters. It also covers
  `st.session_state`, a class whose fields the script updates in place:
  initialisation, the "Start Chat" and "Change Course" transitions, and
  answering a question through the search cache.
- **Embedding-record filters** (`src/3_vector_indexing.py`, `src/vector_indexing.py`).
  The two versions of `insert_embeddings` turn JSON records into database
  rows and insert them.

Shared pieces:

- `PyText` writes out the Python built-ins the code relies on: `str.isspace`,
  `str.strip`, `sep.join`, `str.split(sep)` and `f"{n}"`.
- `Records` holds the record and metadata shapes the ingestion scripts write.

Loops in the source are methods with loop invariants, proved equal to a
specification function. The properties are proved about those functions.

Where the documentation and the code disagree, the model follows the code:

- `get_cache_key` is documented as hashing the course id, but it never uses it.
- The app builds its search key inline, and it never calls `get_cache_key`.
- The result of `rewrite_query` is computed but left out of the system prompt.

## Model

| member | source | states |
|---|---|---|
| `PyText.Strip` | src/1_ingest_data.py:15 | `str.strip()`: the result has no whitespace at either end and is never longer than the input |
| `PyText.StripIsSlice` | src/1_ingest_data.py:15 | stripping removes only a blank prefix and a blank suffix: the result is the contiguous middle slice |
| `PyText.StripStripped` | src/1_ingest_data.py:15 | stripping a string with no surrounding whitespace leaves it unchanged |
| `PyText.StripEmptyIff` | src/1_ingest_data.py:24 | `s.strip()` is empty exactly when every character of `s` is whitespace (the `if text.strip()` test) |
| `PyText.StripIsSubsequence` | src/1_ingest_data.py:15 | stripping only deletes characters |
| `PyText.Join` | src/1_ingest_data.py:49 | `sep.join` of a single piece is that piece |
| `PyText.JoinNonEmpty` | src/1_ingest_data.py:49 | joining non-empty pieces gives the empty string exactly when there are no pieces |
| `PyText.JoinSnoc` | src/1_ingest_data.py:49 | appending a piece appends the separator and the piece |
| `PyText.JoinCons` | src/helper/html_parser.py:105 | prepending a piece prepends the piece and the separator |
| `PyText.SplitOn` | src/helper/html_parser.py:105 | `s.split(". ")` gives at least one piece, and joining the pieces with the separator gives `s` back |
| `PyText.SplitOnNoSeparator` | src/helper/html_parser.py:105 | no piece of `s.split(sep)` contains `sep`: every occurrence was split at |
| `PyText.NatToString` | src/helper/html_parser.py:128 | `f"{n}"` is one or more decimal digits, a single digit exactly when `n < 10` |
| `PyText.NatToStringInjective` | src/helper/html_parser.py:128 | distinct numbers render as distinct strings |
| `PyText.SubsequenceTransitive` | src/1_ingest_data.py:13-15 | deleting characters in two stages is deleting characters |
| `PyText.SubsequenceLength` | src/1_ingest_data.py:13-15 | a string obtained by deleting characters is never longer |
| `Records.ChunkIdInjective` | src/helper/html_parser.py:128 | `f"{course_id}_{i}"` differs for different indices |
| `Records.SiteRecordsFacts` | src/helper/html_parser.py:119-133 | one record per chunk, in order: record `i` holds chunk `i`, the course, the URL and the document type; no two chunk ids coincide |
| `IngestData.Collapse` | src/1_ingest_data.py:13-14 | `re.sub(c + "{2,}", c, s)`: the result has no two adjacent `c` and is never longer |
| `IngestData.CollapseOnlyDeletes` | src/1_ingest_data.py:13-14 | collapsing removes only copies of `c`: every other character survives, in order |
| `IngestData.CollapseIsSubsequence` | src/1_ingest_data.py:13-14 | collapsing only deletes characters |
| `IngestData.CollapseFixed` | src/1_ingest_data.py:13-14 | a string with no run of `c` is unchanged |
| `IngestData.CollapseKeepsNoRepeat` | src/1_ingest_data.py:13-14 | collapsing spaces creates no newline run (so the first substitution's guarantee survives the second) |
| `IngestData.CollapseBlank` | src/1_ingest_data.py:13-14 | collapsing a whitespace character keeps a blank string blank and a non-blank one non-blank |
| `IngestData.CleanTextShape` | src/1_ingest_data.py:9-15 | `clean_text` output has no doubled newline, no doubled space and no surrounding whitespace |
| `IngestData.CleanTextIsSubsequence` | src/1_ingest_data.py:9-15 | `clean_text` only deletes characters, so its result keeps the input's order and is never longer |
| `IngestData.CleanTextIdempotent` | src/1_ingest_data.py:9-15 | cleaning cleaned text changes nothing |
| `IngestData.CleanTextEmptyIff` | src/1_ingest_data.py:11-15 | the cleaned text is `""` exactly when the input is empty or blank |
| `IngestData.CleanedPages` | src/1_ingest_data.py:26 | one cleaned text per page, page `i`'s being `clean_text` of its text |
| `IngestData.NonBlankPagesFacts` | src/1_ingest_data.py:22-24 | the pages kept are exactly those whose text is not blank, each once, in increasing order |
| `IngestData.PageRecordsStep` | src/1_ingest_data.py:22-33 | one more page adds its record exactly when its text is not blank |
| `IngestData.ExtractTextFromPdf` | src/1_ingest_data.py:18-34 | the loop builds the page records of the cleaned page texts |
| `IngestData.PageRecordsByPages` | src/1_ingest_data.py:22-33 | record `k` is the record of the `k`-th non-blank page |
| `IngestData.PageRecordsFields` | src/1_ingest_data.py:25-33 | each page record holds its page's cleaned text, the course, the PDF path and `"PDF_Text"`; its page number counts from 1 and names a non-blank page; page numbers strictly increase |
| `IngestData.PageRecordsCover` | src/1_ingest_data.py:22-25 | a page has a record exactly when its text is not blank |
| `IngestData.PageRecordsNonEmpty` | src/1_ingest_data.py:24-26 | no page record has empty text |
| `IngestData.Header` | src/1_ingest_data.py:42 | header `j` is never empty, and it is the first-row cell whenever that cell is a non-empty string |
| `IngestData.HeadersFacts` | src/1_ingest_data.py:42 | one non-empty header per column; a non-empty first-row string is kept as it is; the columns that fall back get `col`-prefixed names, no two alike |
| `IngestData.FilledColumnsFacts` | src/1_ingest_data.py:45-47 | the columns giving a part are exactly the present, non-blank cells, in column order |
| `IngestData.RowPartsStep` | src/1_ingest_data.py:45-47 | one more cell adds `"<header> is <clean_text(value)>"` exactly when it is present and not blank |
| `IngestData.RowPartsNonEmptyIff` | src/1_ingest_data.py:44-48 | a row has parts exactly when one of its cells is present and not blank |
| `IngestData.RowPathInjective` | src/1_ingest_data.py:54 | different rows of a table get different source paths |
| `IngestData.FilledRowsFacts` | src/1_ingest_data.py:43-48 | the rows giving a record are exactly the data rows (index 1 on) with a filled cell, in order |
| `IngestData.TableRowsStep` | src/1_ingest_data.py:43-57 | one more row adds its record exactly when one of its cells is filled |
| `IngestData.CollectRowParts` | src/1_ingest_data.py:44-47 | the inner loop builds the row's parts in column order |
| `IngestData.ConvertTableToText` | src/1_ingest_data.py:37-58 | `convert_df_to_text` gives an `IndexError` for a table without rows, else the row records |
| `IngestData.TableRowsFields` | src/1_ingest_data.py:48-56 | every table record is some filled data row's parts joined by `". "` and closed by `"."`, with the course, `<pdf>_table_<idx>_row_<i>` and `"PDF_Table"` |
| `IngestData.TableRowsPaths` | src/1_ingest_data.py:43-56 | record `k` carries the source path of the `k`-th filled data row |
| `IngestData.TableRowsCover` | src/1_ingest_data.py:43-56 | a data row has a record exactly when one of its cells is filled |
| `IngestData.TableRowsDistinct` | src/1_ingest_data.py:54 | no two table records share a source path |
| `IngestData.TableRecordsCover` | src/1_ingest_data.py:37-58 | a table with a header row gives one record per filled data row, with distinct source paths |
| `HtmlParser.SplitSentences` | src/helper/html_parser.py:93 | `re.split(r'(?<=[.!?]) +', s)` gives at least one piece |
| `HtmlParser.SplitSentencesSpec` | src/helper/html_parser.py:93 | for every text: the text is the pieces with a non-empty run of spaces between each two; no piece holds a place where the pattern matches; each piece but the last is non-empty and ends in `.`, `!` or `?`; no later piece starts with a space |
| `HtmlParser.SplitSentencesShape` | src/helper/html_parser.py:93 | splitting stripped, non-empty text gives non-empty sentences, each but the last ending in `.`, `!` or `?` |
| `HtmlParser.SplitSentencesJoin` | src/helper/html_parser.py:93 | with no doubled spaces, joining the sentences with single spaces gives the text back: each sentence once, in order |
| `HtmlParser.OverlapPiecesSuffix` | src/helper/html_parser.py:105-110 | the pieces kept for the overlap are a run of trailing pieces, in their original order |
| `HtmlParser.OverlapPiecesWithinBudget` | src/helper/html_parser.py:106-108 | the kept pieces' charged length fits what is left of the overlap budget |
| `HtmlParser.OverlapPiecesMaximal` | src/helper/html_parser.py:106-110 | the loop stops at the first piece that does not fit: the run cannot be extended |
| `HtmlParser.OverlapSeedBudget` | src/helper/html_parser.py:103-110 | the overlap seed is a maximal trailing run of the chunk's `". "`-pieces whose charged length stays within `overlap` |
| `HtmlParser.CollectOverlap` | src/helper/html_parser.py:103-110 | the inner reversed loop builds exactly the overlap seed |
| `HtmlParser.Step` | src/helper/html_parser.py:98-112 | an accumulate step emits nothing and keeps the working chunk within `chunk_size`; an overflow emits the old working chunk, stripped, and leaves a non-empty working chunk ending with the sentence |
| `HtmlParser.RunSnoc` | src/helper/html_parser.py:97-112 | the loop state after one more sentence is one more step |
| `HtmlParser.ChunkText` | src/helper/html_parser.py:86-117 | the method returns the chunks of the fold over the sentences |
| `HtmlParser.EmptyTextNoChunks` | src/helper/html_parser.py:90-91 | empty text gives no chunks |
| `HtmlParser.ChunksStripped` | src/helper/html_parser.py:101-115 | every chunk has no leading or trailing whitespace |
| `HtmlParser.RunChunksGrow` | src/helper/html_parser.py:97-112 | emitted chunks are never revised: later sentences only append |
| `HtmlParser.FirstSentenceTooLong` | src/helper/html_parser.py:96-101 | if the first sentence does not fit, the first chunk is the empty string |
| `HtmlParser.OverflowKeepsWorkingChunk` | src/helper/html_parser.py:112 | once a chunk has been emitted, the working chunk is never empty |
| `HtmlParser.FinalChunkAfterOverflow` | src/helper/html_parser.py:112-115 | after any overflow the final working chunk is always emitted, stripped, whatever its length |
| `HtmlParser.CutBlocksFlatten` | src/helper/html_parser.py:97-99 | the blocks of sentences per working chunk cut the sentence list: each sentence in exactly one block, in order |
| `HtmlParser.CutGreedy` | src/helper/html_parser.py:98 | a working chunk is closed only by a sentence that does not fit |
| `HtmlParser.CutForm` | src/helper/html_parser.py:99-112 | each working chunk is its block joined by spaces, after the first prefixed by the previous chunk's seed and a space |
| `HtmlParser.CurrentsAdvance` | src/helper/html_parser.py:97-112 | each working chunk follows from the one before it and the sentence between them |
| `HtmlParser.RunCurrent` | src/helper/html_parser.py:97-112 | the fold's working chunk is the last working chunk of the block form |
| `HtmlParser.RunChunks` | src/helper/html_parser.py:97-112 | the chunks the fold has emitted are the stripped working chunks the block form closes |
| `HtmlParser.FinishByBlocks` | src/helper/html_parser.py:97-115 | for non-empty sentences, the final chunks are all the working chunks, stripped |
| `HtmlParser.SentenceChunksByBlocks` | src/helper/html_parser.py:86-117 | for text that is not blank: the sentences are cut into blocks, one chunk per block, chunk `i` being working chunk `i` stripped |
| `HtmlParser.WorkingChunksByBlocks` | src/helper/html_parser.py:99-112 | the first working chunk is its block joined by spaces; each later one is the previous one's overlap seed, stripped, a space and its block |
| `HtmlParser.WorkingChunksGreedy` | src/helper/html_parser.py:98-101 | a chunk is emitted only when the next sentence does not fit |
| `HtmlParser.CreateDataRecords` | src/helper/html_parser.py:119-133 | the loop builds one site record per chunk with `chunk_id = <course>_<i>` and the given document type |
| `HtmlParaser.PySlice` | src/html_paraser.py:40 | `s[a:b]` is never longer than `s` |
| `HtmlParaser.StartMonotone` | src/html_paraser.py:41 | with a positive step the window starts strictly increase |
| `HtmlParaser.WindowCountBounds` | src/html_paraser.py:38-41 | the loop makes the one number `c` of windows with `(c-1)*step < len(text) <= c*step` |
| `HtmlParaser.WindowCountFormula` | src/html_paraser.py:38-41 | the number of windows is `ceil(len(text) / step)` |
| `HtmlParaser.ChunkText` | src/html_paraser.py:28-43 | the loop, which ends only when `chunk_size > overlap`, returns exactly the windows of the closed form |
| `HtmlParaser.EmptyTextNoChunks` | src/html_paraser.py:33-35 | empty text gives no chunks |
| `HtmlParaser.ChunkCountAndSize` | src/html_paraser.py:37-41 | there are `ceil(len/step)` chunks; chunk `i` is `text[i*step : i*step+chunk_size]`, non-empty and at most `chunk_size` long |
| `HtmlParaser.LastChunkReachesEnd` | src/html_paraser.py:38-42 | the last chunk runs to the end of the text |
| `HtmlParaser.ReassemblePrefix` | src/html_paraser.py:37-43 | windows so far reassemble the text up to the end of the last one |
| `HtmlParaser.ReassembleRoundTrip` | src/html_paraser.py:28-43 | round trip: `chunks[0]` followed by `chunks[i][overlap:]` for each later chunk is the text |
| `HtmlParaser.FullChunkOverlap` | src/html_paraser.py:39-41 | a full-length chunk ends with the `overlap` characters the next chunk starts with |
| `HtmlParaser.CreateDataRecords` | src/html_paraser.py:45-61 | one record per chunk, `chunk_id = <course>_<i>`, document type always `"Google_Site"` |
| `ChatApp.RecentWindow` | src/app.py:31 | `chat_history[-4:]` holds the newest `min(4, len)` messages, and a new message slides the window |
| `ChatApp.RecentIgnoresOlder` | src/app.py:31-46 | messages older than the newest four are never seen |
| `ChatApp.CacheKeyInputs` | src/app.py:29-32 | the cache key ignores `course_id`, and two histories with the same newest four messages give the same key |
| `ChatApp.CacheKeyCollision` | src/app.py:31-32 | query and history are concatenated with no separator, so a different query and history give the same key |
| `ChatApp.RewriteQuery` | src/app.py:40-59 | the rewritten query is the model's reply, stripped |
| `ChatApp.RewritePromptShape` | src/app.py:45-55 | the rewrite prompt reads only the newest four messages and ends with the query and `"Rewritten query:"` |
| `ChatApp.CachedSearchFacts` | src/app.py:113-130 | the search runs exactly when the key is absent or holds an empty list, and only a search that runs can raise; afterwards the key holds the context used, even an empty one, and other keys are unchanged |
| `ChatApp.SearchMemoised` | src/app.py:114-130 | after a search, asking again hits when the context was non-empty and then reuses it verbatim with no search; an empty context searches again |
| `ChatApp.InitializedFacts` | src/app.py:63-73 | a new session starts on the selection page with no course, no messages and empty caches; later runs change nothing |
| `ChatApp.SystemPromptEndsWithContext` | src/app.py:134-150 | the system prompt ends with the retrieved context |
| `ChatApp.ApplyValid` | src/app.py:76-104 | every run keeps the invariant that the chat page has an offered course selected |
| `ChatApp.ReplayKeepsCaches` | src/app.py:63-130 | over any runs: the rewrite cache is never touched, no search key is dropped, and a non-empty cached result is never replaced |
| `ChatApp.SubmitMessages` | src/app.py:103-163 | a question appends the user message, then one assistant message exactly when the rewrite, the search and the answer all return; an empty input changes nothing |
| `ChatApp.SubmitCaches` | src/app.py:109-130 | a question never touches the rewrite cache, and leaves the search cache as it was or as the cached search left it |
| `ChatApp.FailedAnswerKeepsSearch` | src/app.py:113-159 | when the answer call raises after the search, the question stays unanswered but the search result stays cached |
| `ChatApp.CacheSurvivesCourseChange` | src/app.py:82-130 | asking, changing course and starting the same course again clears the messages but keeps the search cache the question left, holding its context when rewrite and search returned |
| `ChatApp.SessionState.InitSessionState` | src/app.py:63-73 | each entry is set to its default only when absent |
| `ChatApp.SessionState.GetFromCache` | src/app.py:34-35 | the named cache's value for the key, or `None` when absent |
| `ChatApp.SessionState.SetCache` | src/app.py:37-38 | a following get gives the stored value; other keys, the other cache and the rest of the session are unchanged |
| `ChatApp.SessionState.StartChat` | src/app.py:82-86 | "Start Chat" selects the course, empties the messages and opens the chat view; caches kept |
| `ChatApp.SessionState.ChangeCourse` | src/app.py:94-96 | "Change Course" sets only the view back to selection |
| `ChatApp.SessionState.SubmitPrompt` | src/app.py:103-163 | a question appends the user message, calls the rewrite, finds the context through the search cache under `sha256(prompt + course)` and appends the answer; it returns normally exactly when no service raised, and a raise stops it with the state reached so far |
| `EmbeddingRows.SelectedFacts` | src/3_vector_indexing.py:52-57 | the kept positions are exactly the qualifying records, each once, in increasing order |
| `EmbeddingRows.MilvusClient.InsertRows` | src/3_vector_indexing.py:66 | an insert call adds one batch to the collection's log |
| `CourseVectorIndexing.CollectRows` | src/3_vector_indexing.py:51-63 | the loop returns the rows of the records with both an embedding and a course id, or the `AttributeError` a non-object metadata raises |
| `CourseVectorIndexing.InsertEmbeddings` | src/3_vector_indexing.py:40-69 | a missing file inserts nothing; otherwise the rows are inserted once when there are any |
| `CourseVectorIndexing.CollectedRaisesIff` | src/3_vector_indexing.py:55 | reading raises exactly when some record's metadata is present but not an object |
| `CourseVectorIndexing.RowsAreCompleteRecords` | src/3_vector_indexing.py:51-63 | the rows are the records with an embedding and a course id, in order, at most one per record, each with that record's context, embedding and course id |
| `CourseVectorIndexing.InsertOnlyWithRows` | src/3_vector_indexing.py:44-69 | no file, no insert; otherwise exactly one insert iff some row was kept |
| `CourseVectorIndexing.InsertedRowsComplete` | src/3_vector_indexing.py:56-57 | every inserted row has a course id |
| `VectorIndexing.CollectRows` | src/vector_indexing.py:43-53 | the loop returns the rows of the records with an embedding, or the `AttributeError` a non-object metadata raises for such a record |
| `VectorIndexing.InsertEmbeddings` | src/vector_indexing.py:39-56 | a missing file raises; otherwise exactly one insert of the rows |
| `VectorIndexing.RowsAreEmbeddedRecords` | src/vector_indexing.py:43-53 | the rows are the records with an embedding, in order, at most one per record; the course id is `None` when metadata is missing |
| `VectorIndexing.InsertUnconditional` | src/vector_indexing.py:55 | the insert happens even when no row was kept |
| `VectorIndexing.VersionsAgreeOnCompleteMetadata` | src/vector_indexing.py:43-53 | when every record has a course id, both versions keep the same rows |

## Left out

- HTTP fetching and BeautifulSoup text extraction (`fetch_html_content`, `extract_text_from_html`): the text they produce is a parameter.
- PyMuPDF, Camelot and pandas: a PDF is the list of its pages' extracted texts, a table a list of rows of optional cell strings, and the JSON files written are not modelled.
- `IngestData.ConvertTableToText`: cells are strings or missing. pandas `NaN` in the header row (truthy, rendered as `"nan"`), non-string cell values and frames whose rows differ in length are not modelled. Row `i` is the frame's `i`-th row, which assumes the default integer index.
- `IngestData.CleanText`: non-string inputs, which `str(text)` would convert, are not modelled.
- `HtmlParser.ChunkText` and `HtmlParaser.ChunkText`: a `None` text, which returns `[]` like `""`, is not modelled.
- `HtmlParaser.ChunkText`: requires `chunk_size > overlap` for non-empty text, because otherwise the source loop never ends.
- Milvus collection creation, schemas, indexes and search: the database appears only as the log of insert calls and as the `search` parameter.
- Embedding and language-model calls: the rewrite reply, the query embedding with `search`, and the answer are parameters, each returning a value or raising.
- `ChatApp.SessionState.SubmitPrompt`: the `rewrite_query` reply is discarded, because the source never uses it. A raise in any service call ends the run with the state reached so far; Streamlit's error display is not modelled.
- `ChatApp.SessionState.SubmitPrompt`: the system prompt's fixed instructions are the `instructions` parameter. Only the course, query and context lines that follow them are written out.
- `ChatApp.SessionState.SubmitPrompt`: search hits whose `context` is missing, on which `"\n".join` would raise, are not modelled.
- SHA-256: it is the `sha256` parameter, an arbitrary function of the preimage string. Digest collisions are not modelled.
- Streamlit rendering, spinners, `st.rerun`, the select box and widget state: the user's actions are events, and the select box can only choose a key of `COURSE_COLLECTIONS`.
- `EmbeddingRows`: JSON parsing errors, records that are not objects, and text or embedding values of other types are not modelled. Embeddings are lists of reals with no arithmetic on them.
- Float quantisation of embeddings, the evaluation script and the orchestration scripts are outside this model.
