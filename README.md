# A verified model of a Thai retrieval-augmented chat client

The program answers questions in Thai from a folder of text and markdown
documents. It has two halves around two llama.cpp engines. One is an embedding
model (`embed_interface`) and the other a chat model (`llm_interface`).

- **Indexing.** `create_index` walks the document tree and keeps the regular
  `.txt` and `.md` files. It cleans the whitespace of each file, cuts it into
  overlapping windows of 1000 words that share 80 words, and embeds every
  window as a passage. It writes one tab-separated record
  `id \t vector \t file name \t chunk` per window, with the ids counted from 0
  across all files.
- **Answering.** `rag_client::load_index` reads that file back into rows.
  `ask` then does the following in order:
  - embeds the question as a query;
  - scores every row by the dot product with the query vector;
  - drops the rows below an optional threshold and sorts the rest by
    descending score;
  - assembles a context of `- [file] text` entries under a top-k limit and a
    character budget;
  - sends a prompt built around that context to the chat session, which
    renders the conversation with the model's chat template and generates
    tokens until an end-of-generation token.

The Dafny modules follow the source files:

| module | models |
|---|---|
| `Text` (text.dfy) | the C `isspace` set, the `<= ' '` test of `trim`, trimming and joining |
| `Decimal` (decimal.dfy) | `ostream << size_t` for the ids and `std::stoi` reading them back |
| `RagTypes` (rag_types.dfy) | `rag_index_row`, `rag_rank_item`, the retrieval fields of `rag_config` and `dot` (include/rag_client.h) |
| `IndexReader` (index_reader.dfy) | `trim`, `parse_vec_csv`, `parse_index_line` and the line loop of `load_index` |
| `Retriever` (retriever.dfy) | the candidates of `rank`, the sort by score and the stopping rule of `build_context` |
| `RagClient` (rag_client.dfy) | the `rag_client` object |
| `EmbedInterface` (embed_interface.dfy) | `encode_once`, `embed_query`, `embed_passage` and `embed_batch` |
| `Chunker` (chunker.dfy) | the `clean_spaces` and `chunk_words` lambdas of `create_index` |
| `IndexWriter` (index_writer.dfy) | the file filter, the walk and the record writing of `create_index` |
| `RoundTrip` (round_trip.dfy) | how the file `create_index` writes loads back through `load_index` |
| `LlmInterface` (llm_interface.dfy) | the `llm_interface` session and the loop of `run_prompt` |

Modelling conventions:

- The engines are parameters of the model. This covers the tokenizers, the
  decode calls, the pooled and normalised embedding, the sampler, the
  end-of-generation test, token-to-piece conversion and the chat-template
  renderer.
- The sampled tokens of one `run_prompt` call are a given stream
  `sampled: nat -> Token`.
- Floating-point values are reals.
- `std::stof` is a partial function `stof` (None where it throws).
- The fixed seven-decimal vector formatting is a function `fmt`.
- `std::stoi` is modelled concretely: leading white space, a sign, the
  longest digit run, and the 32-bit range.
- A `char` stands for one byte of the UTF-8 text.
- Outcomes the C++ code expresses by a `return false`, an exception, an
  `exit(0)` or an invalid iterator range are values of result datatypes
  (`Option`, `AskResult`, `RunOutcome`, `Prepared`).

Where the code and the system's written description differ, the model follows
the code:

- `rank` uses `std::sort`, which is not stable, so nothing is promised about
  the order of equal scores. `Retriever.SortByScore`, an in-place insertion
  sort, promises only descending scores and a permutation.
- `after_prepare_prepare` stores the render length in `_prev_len` before it
  checks for failure, so a failed render leaves the cursor negative, not
  unchanged.
- `chunk_words` starts a window at every multiple of the step below the word
  count. The chunk count is `ceil(W / step)` and includes the trailing
  windows that lie wholly inside the previous one. With the constants of
  `create_index` (step 920), a file of 921 to 1000 words gives two chunks,
  and the second repeats the last words of the first (`Chunker.ChunkCount`,
  `Chunker.ChunkContents`).

## Model

| member | source | states |
|---|---|---|
| RagTypes.DefaultConfig | include/rag_client.h:41-46 | a default configuration has top_k 8, a context budget of 3500, min_score_keep -1 (negative, so the threshold is off) and streaming on |
| RagTypes.DotProduct | include/rag_client.h:82-88 | the accumulating loop computes the sum of the products over the common length of the two vectors |
| RagTypes.DotIgnoresTail | include/rag_client.h:84-86 | elements past the shorter vector do not change the score |
| RagTypes.DotSymmetric | include/rag_client.h:84-87 | dot(a, b) == dot(b, a) |
| RagTypes.DotEmpty | include/rag_client.h:84-87 | the score against an empty vector, on either side, is 0 |
| IndexReader.Trim | src/rag_client.cpp:13-17 | the erase loop and the pop loop leave exactly the input with its leading and trailing characters of code at most 0x20 removed |
| Text.TrimIsMaximalSlice | src/rag_client.cpp:13-17 | the trimmed text is a slice of the input, everything cut off on either side is blank, and the result neither starts nor ends with a blank |
| Text.TrimIdempotent | src/rag_client.cpp:13-17 | trimming twice is trimming once |
| IndexReader.ParseVecCsv | src/rag_client.cpp:19-38 | the pointer walk pushes, in order, one value per token of the token list: separators are skipped, a token runs to the next comma, and a token `stof` rejects gives 0.0 |
| IndexReader.CsvTokensAreTokens | src/rag_client.cpp:25-35 | every token handed to `stof` is non-empty, holds no comma and does not start with a comma, space or tab, so empty fields give no value |
| IndexReader.TokenValuesAt | src/rag_client.cpp:30-34 | value k is `stof` of token k, or 0.0 when `stof` throws |
| IndexReader.CsvTokensOfJoin | src/rag_client.cpp:19-38 | tokens that are non-empty, comma-free and do not start with a separator come back one for one from their comma-separated join |
| IndexReader.SkipSeparators | src/rag_client.cpp:26 | the skip loop stops at the first character that is not a comma, space or tab, or at the end |
| IndexReader.ScanToken | src/rag_client.cpp:28-29 | the scan stops at the first comma, or at the end |
| IndexReader.FindFromSpec | src/rag_client.cpp:43-48 | `find` returns the first tab at or after its start, and nothing when no tab follows |
| IndexReader.SplitAtTabsParts | src/rag_client.cpp:43-53 | a split line is its first three fields, each without a tab, and the rest, glued back together with three tabs |
| IndexReader.ParseIndexLineFields | src/rag_client.cpp:41-68 | for four fields with tab-free first three: the line is accepted iff the trimmed id, vector and file name are non-empty, the id parses and the vector has a token; the row then holds the parsed id, the vector, the trimmed file name and the untrimmed text with any further tabs |
| IndexReader.ParsedLineHasThreeTabs | src/rag_client.cpp:43-48 | a line that parses has at least three tabs |
| IndexReader.FewerThanThreeTabs | src/rag_client.cpp:43-48 | a line with fewer than three tabs is rejected |
| IndexReader.TablessLineIsRejected | src/rag_client.cpp:43-44 | a line without a tab is rejected |
| IndexReader.LoadRowsOne | src/rag_client.cpp:77-83 | a single line contributes its row exactly when it is non-empty and parses |
| IndexReader.LoadRowsAppend | src/rag_client.cpp:77-83 | lines are handled one at a time and in file order: the rows of a + b are the rows of a, then those of b |
| IndexReader.RejectedLineIsDropped | src/rag_client.cpp:80-82 | a line the parser rejects leaves the loaded rows as if it were not in the file |
| Decimal.StoiOfDecimal | src/rag_client.cpp:59 | the reader parses back exactly the id the writer printed when it is at most INT_MAX, and rejects a larger one |
| Decimal.StoiOfDigits | src/rag_client.cpp:59 | a run of digits parses to its value when that fits in 32 bits, and is rejected otherwise |
| Decimal.DigitsAreTrimmed | src/rag_client.cpp:55 | a digit string has no blank at either end, so `trim` leaves it unchanged |
| RagClient.Client.constructor | include/rag_client.h:50-57 | a new client has the default configuration, no rows and the models not ready |
| RagClient.Client.SetConfig | include/rag_client.h:63 | the configuration becomes the given one and nothing else changes |
| RagClient.Client.LoadIndex | src/rag_client.cpp:70-85 | the old rows are dropped in every case; a file that does not open leaves no rows; otherwise the rows are exactly those of the non-empty lines that parse, in file order; the result is true iff a row was loaded |
| RagClient.Client.ReadRows | src/rag_client.cpp:77-83 | the getline loop appends to the rows exactly the rows of the non-empty lines that parse, in order |
| RagClient.Client.EmbedQuestion | src/rag_client.cpp:107-111 | a query vector is returned iff the models are ready, the query embeds and its vector is non-empty, and it is that vector |
| RagClient.Client.CollectCandidates | src/rag_client.cpp:116-121 | the push loop collects, in row order, each row's index and score when the score passes the threshold |
| Retriever.CandidatesScored | src/rag_client.cpp:117-121 | every candidate names a row of the index, carries that row's dot product and passes the threshold, and the row indices strictly increase |
| Retriever.CandidatesComplete | src/rag_client.cpp:117-121 | a row is a candidate iff its score passes the threshold: the threshold is ignored when negative and otherwise drops scores below it |
| Retriever.NegativeThresholdKeepsAll | src/rag_client.cpp:119 | with a negative threshold, such as the default, every row is a candidate |
| Retriever.PermutedCandidates | src/rag_client.cpp:113-127 | any reordering of the candidates names valid rows with their own scores, has no row twice, and holds exactly the rows passing the threshold |
| Retriever.SortByScore | src/rag_client.cpp:122-125 | after the sort the scores are non-increasing and the array is a permutation of its old contents; the order of equal scores is unspecified |
| Retriever.InsertAt | src/rag_client.cpp:122-125 | one insertion step extends the sorted prefix by one element and permutes the array |
| RagClient.Client.Rank | src/rag_client.cpp:113-128 | the result is a permutation of the candidates, sorted by non-increasing score, each item naming a valid row with its own score, no row twice, and a row present iff its score passes the threshold |
| RagClient.Client.BuildContext | src/rag_client.cpp:130-147 | the context is the concatenation of the `- [file] text` entries of the first n ranked items, where n is the greedy stopping point for top_k and the budget |
| Retriever.GreedyCutUnique | src/rag_client.cpp:137-145 | the greedy loop has one stopping point |
| Retriever.GreedyCutNonEmpty | src/rag_client.cpp:138-141 | with a ranked item and a positive top_k at least one entry goes in, even one longer than the budget; with top_k at most 0 none does |
| Retriever.GreedyCutWithinBudget | src/rag_client.cpp:141 | the context fits the budget unless it is a single over-long first entry |
| RagClient.Client.Ask | src/rag_client.cpp:149-190 | the four early returns "[ERROR] models not loaded", "[ERROR] index is empty", "[ERROR] failed to embed question" and "[WARN] no relevant context found" in that order, none touching the session; otherwise the prompt is built around the context of a sorted permutation of the candidates, cut greedily with the override top-k when given and the configured one otherwise, and sent to the session, whose run and answer are related as in `Generate`: an answer is the session's result, and an exit carries exactly the pieces streamed before the overflowing batch |
| RagClient.Client.Generate | src/rag_client.cpp:177-189 | the session runs the prompt exactly as `RunPrompt` promises; an invalid range gives no answer, an exit gives exactly the pieces streamed before it (none when buffered), and a return gives the session's result as the answer; the callback gets the pieces when streaming and nothing otherwise |
| RagClient.AnswerIsGeneration | src/rag_client.cpp:177-189 | an answer is the concatenation of the pieces of the sampled tokens up to the first end-of-generation token, the streamed pieces are those pieces when streaming, and the session gains the user and assistant turns; an exit records only the user turn and, when streaming, has streamed the pieces of the first `ExitCount` sampled tokens (none when the delta's tokens alone exceed n_ctx, otherwise n_ctx + 1 minus their number); the outcome is an invalid range iff the cursor lies outside the rendering, and otherwise an answer iff some end-of-generation token falls within the context |
| EmbedInterface.PrefixesAsFed | src/embed_interface.cpp:70-97 | with a non-empty query prefix, the tokenizer gets that prefix twice before a query, and once before the passage prefix for a passage |
| EmbedInterface.EmptyTokensGiveZeros | src/embed_interface.cpp:99-103 | text that tokenizes to nothing encodes successfully as n_embd zeros |
| EmbedInterface.WithBos | src/embed_interface.cpp:105-110 | the BOS step adds at most one token, in front, and keeps the tokens |
| EmbedInterface.EncodeTokens | src/embed_interface.cpp:100-165 | a successful encoding has n_embd components, and more tokens than n_ctx fail |
| EmbedInterface.EncodeTokensOutcome | src/embed_interface.cpp:100-165 | encoding succeeds iff there are no tokens, or the BOS-adjusted tokens fit the context and decode; it then gives the engine's embedding of those tokens |
| EmbedInterface.EncodeOnce | src/embed_interface.cpp:92-175 | a successful encoding has n_embd components |
| EmbedInterface.EmbedBatch | src/embed_interface.cpp:80-90 | the result is true iff every text encodes; the vectors are those of the texts in order, and on failure they stop just before the first text that fails |
| Chunker.CleanSpacesIsJoin | src/embed_interface.cpp:181-187 | `clean_spaces` is the words of the text joined by single spaces |
| Chunker.CleanSpacesKeepsWords | src/embed_interface.cpp:181-187 | cleaning keeps the sequence of words |
| Chunker.CleanSpacesIdempotent | src/embed_interface.cpp:181-187 | cleaning twice is cleaning once |
| Chunker.CleanSpacesEmpty | src/embed_interface.cpp:185 | the result is empty iff the text is all whitespace |
| Chunker.CleanSpacesFixesExactlyClean | src/embed_interface.cpp:181-187 | the result has single plain spaces between non-whitespace and none at either end, and a text is left unchanged iff it already has that shape |
| Chunker.SplitWords | src/embed_interface.cpp:193-197 | the extraction loop yields exactly the words of the text, in order |
| Chunker.ScanWord | src/embed_interface.cpp:196 | the scan stops at the end of the word starting at the given position |
| Chunker.JoinRange | src/embed_interface.cpp:203-207 | the stream loop writes words i to j - 1 with a space before each but the first |
| Chunker.WindowChunk | src/embed_interface.cpp:202-208 | one window is the cleaned join of its words |
| Chunker.WindowLoop | src/embed_interface.cpp:201-210 | the for loop collects, in order, the non-empty cleaned windows starting every step words |
| Chunker.ChunkWords | src/embed_interface.cpp:189-212 | `chunk_words` returns the chunks of the text for max_words and overlap |
| Chunker.Step | src/embed_interface.cpp:200 | the step is max(1, max_words - overlap) |
| Chunker.NoWindowNoChunks | src/embed_interface.cpp:198-210 | with max_words below 1 every window is empty and there are no chunks |
| Chunker.ShortTextOneChunk | src/embed_interface.cpp:198-210 | a text with a word has a chunk; one of at most max_words and at most one step of words has exactly one chunk, its cleaned text |
| Chunker.ChunkCount | src/embed_interface.cpp:200-210 | with max_words at least 1 there are ceil(W / step) chunks for W words |
| Chunker.ChunkContents | src/embed_interface.cpp:200-210 | chunk k is words k * step up to min(W, k * step + max_words), joined by single spaces, and is clean |
| Chunker.ChunksAreClean | src/embed_interface.cpp:208-209 | every chunk is non-empty and clean |
| Chunker.ChunksOverlap | src/embed_interface.cpp:200-207 | with 0 <= overlap < max_words, a full chunk followed by another shares its last overlap words with the next one's first |
| Chunker.ChunksCover | src/embed_interface.cpp:200-207 | every word w of the text is word w mod step of chunk w div step |
| Chunker.ChunksOfCleaned | src/embed_interface.cpp:246-250 | chunking the cleaned contents gives the chunks of the raw contents |
| IndexWriter.Basename | src/embed_interface.cpp:270 | the file name is the suffix of the path after its last '/' and holds no '/' |
| IndexWriter.BasenameBelow | src/embed_interface.cpp:270 | a name without '/' below a directory is the file name of the path |
| IndexWriter.IsDocumentIff | src/embed_interface.cpp:238-240 | exactly the names of more than four characters ending in ".txt", or of more than three ending in ".md", in any mix of case, pass the filter |
| IndexWriter.FormatVector | src/embed_interface.cpp:260-266 | the vector field is the formatted components in order with a comma before each but the first |
| IndexWriter.AcceptedFileJobs | src/embed_interface.cpp:246-250 | an accepted file gives at least one chunk; one of at most 920 words gives exactly one, its cleaned contents |
| IndexWriter.WriteFile | src/embed_interface.cpp:252-274 | one record per chunk, with consecutive ids from the running counter, stopping at the first chunk that does not embed |
| IndexWriter.IndexEntry | src/embed_interface.cpp:236-274 | an entry that is not a regular, openable, non-blank `.txt` or `.md` file is skipped; otherwise its chunks are written as records with ids from the running counter |
| IndexWriter.WalkEntries | src/embed_interface.cpp:232-279 | the output holds the records of the first jobs of the walk in order, with ids from 0; the result is true iff every job embeds and the walk does not throw; output that stops early stops before the first job that does not embed |
| IndexWriter.CreateIndex | src/embed_interface.cpp:177-285 | a missing model or an output that does not open writes nothing and fails; otherwise the records and the result are those of the walk |
| RoundTrip.LinesOfFileText | src/rag_client.cpp:77 | lines without a line end, each written with '\n', come back from getline one for one, in order |
| RoundTrip.RecordRoundTrip | src/embed_interface.cpp:268-272 | a record with a tab-free file name is accepted by the reader iff its id fits in 32 bits, its vector is non-empty and its name is not blank; it then loads as the id, the components as `stof` reads their text, the trimmed name and the chunk unchanged |
| RoundTrip.ExactComponents | src/embed_interface.cpp:260-266 | when `stof` reads every formatted component back as itself, the vector comes back unchanged |
| RoundTrip.WrittenFileLoads | src/embed_interface.cpp:268-272 | records written for jobs with safe names and single-line chunks load back one row per record, in order, row k with id k and the name and chunk of job k |
| RoundTrip.IndexLoadsBack | src/embed_interface.cpp:232-279 | when the accepted files have safe names, the file `create_index` leaves behind loads as one row per record written, in order, row k holding id k, the embedding of job k and its name and chunk; a complete index has one row per chunk of the walk |
| LlmInterface.Session.constructor | src/llm_interface.cpp:8-19 | a new session has no messages, the cursor at 0 and an empty buffer |
| LlmInterface.Session.SizeBuffer | src/llm_interface.cpp:65 | `load_model` sizes the rendering buffer to n_ctx characters |
| LlmInterface.Session.SetSystemPrompt | src/llm_interface.cpp:28-31 | one system message is appended, with no check of where the list stands |
| LlmInterface.Session.BeginPreparePrompt | src/llm_interface.cpp:134-153 | the user message is appended before rendering; a failed render returns ""; otherwise the buffer grows to fit, and the part of the rendering past the cursor is returned, which completes the consumed prefix to the whole rendering; a cursor outside the rendering is an invalid range |
| LlmInterface.Session.AfterPreparePrompt | src/llm_interface.cpp:155-167 | the assistant message is appended and the cursor becomes the length of the rendering without the generation marker, negative when the render fails |
| LlmInterface.GenerationLoop | src/llm_interface.cpp:91-127 | the pieces handed out are those of the sampled tokens before the first end-of-generation token, in order; the result is their concatenation; the loop finishes iff an end-of-generation token is sampled at a position the context admits, and otherwise the process exits at the first batch that would overflow n_ctx |
| LlmInterface.FinishesIffEogInContext | src/llm_interface.cpp:93-112 | the loop's exit conditions mean finishing iff some end-of-generation token falls within the context |
| LlmInterface.Session.ExitCount | src/llm_interface.cpp:93-97 | the number of pieces before the batch that overflows n_ctx: the count takes the prompt past n_ctx, and a positive count puts it exactly one past |
| LlmInterface.Session.RunPrompt | src/llm_interface.cpp:70-132 | the user turn is always recorded and the buffer grows to fit its rendering; the range is invalid iff the cursor lies outside the rendering; otherwise the call returns iff some end-of-generation token n has the delta's tokens plus n within n_ctx; the pieces handed out are those of the sampled tokens, none of them end-of-generation; on return they stop at an end-of-generation token within the context, the answer is their concatenation, the assistant turn is recorded and the cursor moves to the end of the rendering without the generation marker; on exit exactly the pieces of the sampled tokens before the overflowing batch are handed out, none when the delta's tokens alone exceed n_ctx and otherwise n_ctx + 1 minus their number, and the cursor stays |

## Left out

- The llama.cpp engines are parameters, not models. This covers model, context and sampler setup and release, batches, `llama_decode`, the sampler chain, `llama_tokenize` with the two-call protocol of `embd_tokenize`, `llama_token_to_piece` and `llama_chat_apply_template`.
- `embd_normalize`, the pooling choice and the unused `sumsq`/`sumabs` loop are left out, because they are floating-point numerics. The embedding is one abstract function of the tokens.
- Floating point: scores are reals. The double accumulation and the float cast of `dot`, `std::stof` and the seven-decimal formatting are not modelled bit for bit.
- The file system and streams are out. The directory walk is a given sequence of entries in the iterator's order, a file is its contents or None when it does not open, the output is the sequence of lines written, and the index file is the sequence of lines `getline` yields.
- `create_index` models an exception from the directory iterator only after the entries have been visited. The entries seen before it are written either way.
- `load_models`, `load_model` of both engines and src/main.cpp are not part of this model. They set up the engines, hard-code the paths and run the terminal loop. A client's `modelsReady` flag stands for their outcome.
- Logging to stderr and the `strdup` copies of the message texts are left out; they do not change any result.
- The `file_cnt` and `chunk_cnt` counters of `create_index` are left out, because they only feed a log line.
- `is_first` in `run_prompt` is left out. It depends on the engine's memory after the clear, and the tokenizer is abstract anyway.
- The `GGML_ABORT` paths are not modelled: decode, tokenize and token-to-piece failures inside `run_prompt`. The model assumes those calls succeed.
- After a failed render, `AfterPreparePrompt` stores -1, standing for whatever negative length the renderer returns.
- Only the size of the `_formatted_messages` buffer is modelled. Its contents are whatever the renderer writes.
- "[ERROR] LLM run_prompt failed" is not an outcome of `ask`. `run_prompt` returns only true; it otherwise exits the process or reads an invalid range.
- Integer widths: the loop counters, the `size_t` chunk id and `used` in `build_context` are unbounded. The 32-bit limit on ids is modelled, in `Decimal.Stoi`.
- The Thai strings of the default system prompt and of the user prompt are carried as opaque constants. Their literals are written as Unicode characters, not as the UTF-8 bytes the `char` convention would call for; no contract depends on their length or bytes.
- RoundTrip.WrittenFileLoads: requires file names without a tab or line end and not blank. Such names make the record load differently, or not at all, and `create_index` does not reject them.
- RoundTrip.IndexLoadsBack: requires at least one embedding dimension, at most 2^31 records and safe names for the accepted files, because an empty vector, a larger id or a name with a tab, a line end or only blanks makes the reader drop or change the record.
