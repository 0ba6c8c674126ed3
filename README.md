# rag-poc core in Dafny

A model of the text-processing core of rag-poc, a small retrieval-augmented question-answering
pipeline over a folder of Markdown documents:

- **Chunker** (`chunker.dfy`): `chunk_text`, the cursor loop that cuts a document into windows of
  at most `chunk_size` characters, pulls an early cut back to the last space, emits each window
  stripped (blank ones dropped) and steps the cursor back by `overlap` characters. `ChunkText` is
  the loop itself. `Chunk` is its specification: the run of windows (`TraceFrom`) and the chunks
  they produce.
- **Ingestion** (`ingest.dfy`):
  - `extract_title`, the MULTILINE regex `^#\s+(.+)$` search, modelled by what it matches
    (`IsMatch`, `FirstMatch`), with a search function that implements it;
  - the loop in `main` that turns the loaded documents into the three parallel lists of ids,
    chunk texts and metadata handed to the vector store.
- **Retriever** (`retriever.dfy`): the unwrapping of ChromaDB's batch-shaped query result
  (slot 0) into a list of retrieved chunks, and the not-found error of `retrieve`.
- **Generator** (`generator.dfy`): `SYSTEM_PROMPT`, `build_prompt`, and `generate`'s request,
  source deduplication, answer record and error classification.
- **Shared** (`text.dfy`, `records.dfy`, `config.dfy`, `results.dfy`): Python's `str.isspace`,
  `str.strip`, `str(n)` and `str.join`, the shared records, the configuration constants, and
  Result/Option.

Nothing in `chunk_text` checks `overlap < chunk_size`, and even with `overlap < chunk_size` the
cursor need not advance: the next cursor `end - overlap` can be at or before the current one when
the cut is pulled back to a space close to the window's start. An example is
`"a bcdefghij klmno"` with size 10 and overlap 3: the cut is pulled back to the space at 1 and the
cursor would go to -2. The model follows the code while the cursor advances. At the first
iteration where it would not, the model returns `Stuck(chunks, next)`: the chunks appended so far
and the cursor the code would move to. What Python does from there depends on `next`. With
`0 <= next` (and `0 <= overlap < chunk_size`) it cuts the same window again and again and never
returns (`StallRepeats`). With `next < 0`, Python's negative slicing and `rfind` offsets take over;
the call may then loop forever (the example above) or still return (`"ab cdefghijklmnop"` with
size 10 and overlap 3). The model does not follow either case past the stall.

`extract_title`'s `\s+` may cross line breaks, so the title need not be on the `#` line:
`"#\n\nfoo"` is titled `"foo"` (`TitleAcrossLines`).

## Model

| member | source | states |
|---|---|---|
| Chunker.ChunkText | src/chunker.py:9-49 | the loop returns exactly `Chunk(text, chunkSize, overlap)`: the chunks of the windows of the run from cursor 0, `Done` when the loop breaks at the end of the text, `Stuck` at the first iteration whose next cursor is not after the current one |
| Chunker.Chunk | src/chunker.py:9-49 | the result of `chunk_text`: the chunks of the run of windows from cursor 0, `Done` when the run reaches the end of the text and `Stuck` with the next cursor when it stalls; its properties are the Chunker lemmas below |
| Chunker.WindowEnd | src/chunker.py:25-36 | the imperative form of the cut, as the loop body computes it (`end = start + chunk_size`, then the `rfind` pull-back or the end of the text), is `CutEnd` |
| Chunker.CutEnd | src/chunker.py:25-36 | the cut is after `start`, within the text and within `chunkSize` of `start`, and is the end of the text when the window reaches it |
| Chunker.CutAtLastSpace | src/chunker.py:27-33 | an early cut is at the highest space strictly between `start` and `start + chunkSize`, or at `start + chunkSize` when there is none; only `' '` counts and a space at `start` is passed over |
| Chunker.RFind | src/chunker.py:31 | `text.rfind(c, lo, hi)` for `0 <= lo <= hi <= len(text)` is -1 or an index in `[lo, hi)` |
| Chunker.RFindSpec | src/chunker.py:31 | `rfind(c, lo, hi)` gives -1 when `text[lo:hi]` holds no `c`, and otherwise an index holding `c` with no `c` after it before `hi` |
| Chunker.TraceFrom | src/chunker.py:21-47 | every window of a run lies in the text, starts at or after the run's cursor, is non-empty and at most `chunkSize` long; a run has windows iff its cursor is before the end of the text, and the first starts at the cursor |
| Chunker.StepDone | src/chunker.py:24-43 | when a window reaches the end of the text, its chunk (if any) is the last one and the run is `Done` |
| Chunker.StepStuck | src/chunker.py:42-47 | when the next cursor `end - overlap` is not after `start`, the run is `Stuck` right after this window's chunk, with that next cursor |
| Chunker.StepOn | src/chunker.py:38-47 | otherwise this window's chunk comes first, then the chunks of the run from `end - overlap` |
| Chunker.Emit | src/chunker.py:38-40 | one window appends at most one chunk, which is non-empty and trimmed, and it appends none iff the window's text is all whitespace |
| Chunker.ChunksOf | src/chunker.py:20-40 | the chunks appended for a run of windows: each window's chunk in window order (see `ChunksTrimmed`, `ChunksOfAppend`, `ChunkOrigin`) |
| Chunker.ShortText | src/chunker.py:22-43 | empty text has no windows; text no longer than `chunkSize` has the single window `[0, len)`, and gives `[]` when blank and `[strip(text)]` otherwise |
| Chunker.ShortExample | src/chunker.py:22-43 | `chunk_text("short text", 500, 100)` is `["short text"]` |
| Chunker.ChunksTrimmed | src/chunker.py:38-40 | every chunk of any run of windows is non-empty with no leading or trailing whitespace, and there are at most as many chunks as windows |
| Chunker.ChunkTrimmed | src/chunker.py:38-40 | every chunk `chunk_text` returns, or appends before it stalls, is non-empty and trimmed |
| Chunker.ChunkOrigin | src/chunker.py:38-40 | chunk k of a run of windows is the stripped text of one of those windows, which lies in the text |
| Chunker.ChunkWindow | src/chunker.py:25-38 | each returned chunk is `strip(text[lo:hi])` for a window of the run with `lo < hi <= lo + chunkSize`, so it has at most `chunkSize` characters |
| Chunker.ChunksOfAppend | src/chunker.py:20-40 | chunks follow window order: the chunks of two runs of windows are those of the first run followed by those of the second |
| Chunker.TraceSteps | src/chunker.py:42-47 | consecutive windows are chained: each but the last ends before the text does, and the next starts at its end minus `overlap`, strictly after its start |
| Chunker.TraceEnds | src/chunker.py:36-47 | a completed run's last window ends at the end of the text (or, with negative overlap, moves the cursor past it); a stalled run's last window ends before the text does, and its next cursor `end - overlap` is not after its start |
| Chunker.CursorAdvances | src/chunker.py:31-47 | an iteration that does not reach the end stalls iff `end - start <= overlap`; otherwise the run goes on from `end - overlap > start` |
| Chunker.NoOverlapTerminates | src/chunker.py:24-47 | with overlap 0 every run completes |
| Chunker.SpaceFreeTerminates | src/chunker.py:24-47 | in text without spaces, with `0 <= overlap < chunkSize`, every run completes |
| Chunker.StallExample | src/chunker.py:27-47 | `"a bcdefghij klmno"` with size 10 and overlap 3 emits `"a"`, and then the cursor would go back to -2: the model reports `Stuck(["a"], -2)` |
| Chunker.StallRepeats | src/chunker.py:25-47 | a stall whose next cursor is not negative, with `0 <= overlap < chunkSize`: the window from that cursor is cut at the same space, so the cursor comes back to itself and the source repeats that window forever |
| Chunker.CoveringWindow | src/chunker.py:21-47 | with `overlap >= 0`, every position of the text from the cursor on lies in some window of a completed run |
| Chunker.ContentKept | src/chunker.py:20-47 | with `overlap >= 0` and a run that completes without stalling (`Done`), every non-whitespace character lies in a window whose stripped text is one of the returned chunks |
| Chunker.NonBlankHasChunks | src/chunker.py:20-49 | with `overlap >= 0` and a run that completes without stalling (`Done`), text that is not all whitespace gives at least one chunk |
| Chunker.EmitInChunks | src/chunker.py:38-40 | the chunk of any window of a run is among the run's chunks |
| Text.IsSpace | src/chunker.py:38 | `str.isspace()` on one character, which is also what `\s` matches: the 29 whitespace code points of Python's `str` |
| Text.Strip | src/chunker.py:38 | `str.strip()` gives a string no longer than its input, with no whitespace at either end, empty iff the input is all whitespace |
| Text.StripLayout | src/chunker.py:38 | the stripped string is the slice of the input after its whitespace prefix, and what is dropped on both sides is whitespace |
| Text.StripTrimmed | src/chunker.py:38 | stripping a non-empty trimmed string gives it back |
| Text.Decimal | src/ingest.py:66 | `str(i)` for `i >= 0` is a non-empty string of decimal digits, one digit exactly when `i < 10` |
| Text.NoLeadingZero | src/ingest.py:66 | `str(i)` for `i > 0` does not start with `0` |
| Text.DecimalRoundTrip | src/ingest.py:66 | reading back the decimal digits of `str(i)` gives `i` |
| Text.DecimalInjective | src/ingest.py:66 | distinct numbers have distinct decimal spellings |
| Text.Join | src/generator.py:34 | `sep.join(parts)`: the parts with `sep` between consecutive ones (see `JoinLayout`, `JoinSeparates`) |
| Text.JoinLayout | src/generator.py:34 | `sep.join(parts)` holds part i at `JoinOffset(i)`, and ends right after the last part |
| Text.JoinSeparates | src/generator.py:34 | between part i and part i + 1, `join` puts exactly the separator |
| Ingest.IsMatch | src/ingest.py:19 | `^#\s+(.+)$` in MULTILINE mode matches at p with group 1 at q: `#` at a line start, at least one whitespace character (newlines included) up to q, and a non-newline at q |
| Ingest.FirstMatch | src/ingest.py:19 | the match `re.search` reports: the leftmost match position, and there the largest group start (greedy `\s+`) |
| Ingest.Group | src/ingest.py:20 | group 1 runs from its start to the end of that line and holds no newline |
| Ingest.MatchAt | src/ingest.py:19 | the pattern matches at p iff `MatchAt` finds a group start, and that is the largest group start at p (greedy `\s+`) |
| Ingest.Search | src/ingest.py:19 | `re.search` from p finds the leftmost match position and its largest group start, or reports that nothing matches from p on |
| Ingest.ExtractTitle | src/ingest.py:18-20 | `"Untitled"` when nothing matches; otherwise the stripped group 1 of the first match (which exists whenever any match does); never contains a newline |
| Ingest.FirstMatchUnique | src/ingest.py:19 | the match `re.search` reports is unique |
| Ingest.TitleOfHeading | src/ingest.py:18-20 | `"# Alpha\nbody"` is titled `"Alpha"` |
| Ingest.UntitledWithoutSpace | src/ingest.py:19-20 | `"## X"` and `"#X"` are `"Untitled"`: `#` must be followed by whitespace |
| Ingest.TitleAcrossLines | src/ingest.py:19-20 | `"#\n\nfoo"` is titled `"foo"`: `\s+` crosses line breaks |
| Ingest.IdOf | src/ingest.py:66 | the id `f"{filename}_{i}"` (see `IdInjective`) |
| Ingest.IdInjective | src/ingest.py:66 | distinct (filename, chunk index) pairs give distinct ids `f"{filename}_{i}"` |
| Ingest.DocEntries | src/ingest.py:65-72 | one document's entries: id `f"{filename}_{i}"`, chunk i, and metadata `{source: filename, title, chunk_index: i}` at each position i, in chunk order |
| Ingest.Chunkings | src/ingest.py:63-64 | one `chunk_text(doc["content"], CHUNK_SIZE, CHUNK_OVERLAP)` result per document, in document order |
| Ingest.EntriesOf | src/ingest.py:59-72 | the three lists built from the documents' chunkings, or `Err(k)` at the first document whose chunking is `Stuck` (see `EntriesOutcome`, `EntriesLayout`) |
| Ingest.BuildEntries | src/ingest.py:59-72 | the lists main builds with CHUNK_SIZE and CHUNK_OVERLAP are `EntriesOf` of the documents' chunkings |
| Ingest.AddChunks | src/ingest.py:65-72 | the inner loop appends exactly the document's entries to the three lists |
| Ingest.EntriesOutcome | src/ingest.py:63-64 | the model gives `Ok` iff no document's chunking is `Stuck`, and otherwise `Err(k)` for the first document k whose chunking is `Stuck` |
| Ingest.ErrorStops | src/ingest.py:63-64 | once a document's chunking is `Stuck`, later documents do not change the outcome |
| Ingest.EntriesConsistent | src/ingest.py:66-72 | the three lists are parallel and each id is the id of the file and chunk index its metadata names |
| Ingest.EntriesCount | src/ingest.py:59-72 | the three lists have equal length, the total chunk count of the documents |
| Ingest.EntriesLayout | src/ingest.py:63-72 | chunk i of document k sits at the documents' earlier chunk count plus i, with its id, its exact text and its metadata |
| Ingest.SourcesAreFilenames | src/ingest.py:69 | every metadata source is the filename of one of the documents |
| Ingest.MetadataDistinct | src/ingest.py:69-71 | with distinct filenames, no two entries name the same file and chunk index |
| Ingest.IdsDistinct | src/ingest.py:66 | with distinct filenames, all ids are pairwise distinct |
| Retriever.Unwrapped | src/retriever.py:44-53 | the list the unwrapping loop builds: one chunk per id of slot 0, from `documents[0]` and `metadatas[0]` at the same position |
| Retriever.Unwrap | src/retriever.py:44-53 | one chunk per id of slot 0, in result order; chunk i has text `documents[0][i]` and source, title and chunk_index of `metadatas[0][i]` |
| Retriever.FirstSlotOnly | src/retriever.py:42-45 | results that agree on slot 0's id count and on its texts and metadata at those positions unwrap alike: no other slot is read |
| Retriever.IdsUnread | src/retriever.py:45 | only the number of ids in slot 0 is read, not the ids |
| Retriever.RetrieveWithCollection | src/retriever.py:56-75 | the result is the unwrapped answer to the single query `[query]` with `n_results` |
| Retriever.NOT_FOUND_MESSAGE | src/retriever.py:35-38 | the not-found error text, `"Collection 'soc_docs' not found. Run the ingestion pipeline first: python -m src.ingest"` |
| Retriever.Retrieve | src/retriever.py:17-53 | a missing collection gives the "Collection 'soc_docs' not found..." error and no query; otherwise the same list `retrieve_with_collection` gives |
| Generator.SYSTEM_PROMPT | src/generator.py:14-19 | the four instruction sentences, joined with single spaces, that every prompt starts with (`PromptParts`) |
| Generator.Segment | src/generator.py:32 | a chunk's context part `f"[Source: {source}]\n{text}"` |
| Generator.Segments | src/generator.py:30-32 | `context_parts`: one segment per chunk, in chunk order |
| Generator.Context | src/generator.py:34 | `context_block`: the segments joined with `"\n\n"`; `PromptParts` places it right after the `"Context:\n"` line |
| Generator.Prompt | src/generator.py:32-40 | the prompt: system prompt, blank line, `"Context:"` line, the joined segments, blank line, `"Question: "` and the query (see `PromptParts`) |
| Generator.BuildPrompt | src/generator.py:22-40 | the loop and the f-strings give `Prompt(query, chunks)`: system prompt, `"Context:"` line, the `"\n\n"`-join of one `"[Source: s]\n" + text` segment per chunk, and the question line |
| Generator.PromptParts | src/generator.py:36-40 | the prompt starts with `SYSTEM_PROMPT`, holds the context block right after the `"Context:\n"` line, ends with `"Question: " + query`, and has exactly the length of its parts |
| Generator.NoChunks | src/generator.py:30-40 | with no chunks the context block is empty and the prompt is `SYSTEM_PROMPT + "\n\nContext:\n\n\nQuestion: " + query` |
| Generator.SegmentInContext | src/generator.py:30-34 | the segment of chunk i sits in the context block at `JoinOffset(i)`, in input order |
| Generator.SegmentsSeparated | src/generator.py:30-34 | a blank line follows every segment but the last, and the next segment starts right after it |
| Generator.PromptReadsSourceAndText | src/generator.py:22-40 | the prompt depends only on the query and the chunks' sources and texts, in order |
| Generator.PromptDeterminesQuery | src/generator.py:36-40 | equal prompts over the same chunks mean equal queries |
| Generator.RequestFor | src/generator.py:52-57 | the POST goes to `OLLAMA_URL + "/api/generate"` with model `mistral`, the prompt of `build_prompt` and `stream` false |
| Generator.IsSuccess | src/generator.py:59 | `raise_for_status` lets exactly the 2xx statuses through |
| Generator.CONNECT_MESSAGE | src/generator.py:63-66 | the connection error text, `"Could not connect to Ollama at http://localhost:11434. Make sure Ollama is running: ollama serve"` |
| Generator.ListOfSources | src/generator.py:69-71 | the sources have no duplicates and are exactly the chunks' sources |
| Generator.SourcesOfChunks | src/generator.py:71 | every chunk's source is in the source set, and nothing else is |
| Generator.Generate | src/generator.py:43-77 | the request is `Prompt` with model `mistral` and `stream` false; a connection failure gives the "Could not connect to Ollama..." error; a non-2xx status and any other transport failure propagate; a 2xx reply gives its `response` as the answer, the distinct sources and the unchanged query |

## Left out

- Chunker.ChunkText: where the Python loop would go on with a cursor at or before the current one, the model stops and reports `Stuck(chunks, next)`. With `next >= 0` Python repeats the same window forever (`StallRepeats`). With `next < 0` Python's negative slicing and `rfind` offsets take over; the call may still return (`"ab cdefghijklmnop"` with size 10 and overlap 3 gives `["ab", "fghijklmno", "mnop"]` in Python and `Stuck(["ab"], -1)` in the model), and the model does not say what it returns.
- Chunker.ChunkText: `chunk_size > 0` is a precondition. With `chunk_size <= 0` the cut can be at or before the cursor, or Python's negative `rfind` and slice offsets take over (`chunk_text("a b c", -1, 0)` cuts at 3 and appends `"a b"`); the model does not cover that case, and the only caller passes 500.
- Chunker.Emit: a window outside the text produces no chunk; runs never contain such a window (`TraceFrom`), so this case is unreachable.
- `load_documents` (src/ingest.py:23-35): globbing and reading files is I/O; documents are an input sequence, with the title given as a field.
- Ingest.BuildEntries: it returns `Err(k)` at the first document whose chunking is `Stuck`; where that chunking has a negative next cursor, Python may still finish it and go on ingesting (with 500 and 100, `"x" * 99 + " " + "y" * 450` is such a document), and the model does not follow it there.
- Ingest.BuildEntries: the ChromaDB calls around the loop (delete, create, `add`) and the progress output of `main` are external effects the model leaves out.
- Retriever: opening the client, building the embedding model and the similarity search are external; the collection's `query` is a function parameter. The lookup failure is an `Option` from a lookup parameter, not a caught exception.
- Retriever.Retrieve, Retriever.RetrieveWithCollection: `n_results` is a parameter; the Python defaults (5 and `TOP_K`) are not modelled.
- Generator.Generate: the HTTP POST, its 120-second timeout and JSON decoding are external; the POST is a function from the request to an outcome. A reply whose JSON lacks `"response"` is not modelled.
- Generator.ListOfSources: Python's order of `list(set)` is unspecified; the model fixes no order and states only the elements and the absence of duplicates.
- src/embeddings.py and src/app.py are not part of this model (a foreign embedding library and web plumbing).
- Text: Unicode handling beyond `str.isspace` (normalisation, case) does not take part in the core and is not modelled.
