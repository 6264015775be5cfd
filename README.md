# Ollamize chunk-and-merge summarization, in Dafny

This project models the summarization pipeline of Ollamize's `app.py` and
proves properties of it. The pipeline has three parts:

- **`chunk_text`** normalises line breaks and cuts long text into windows of
  at most `max_chars` characters. It prefers to cut after the window's last
  `'.'`, then after its last `';'`. With neither, it hard-cuts one character
  past the window.
- **`call_ollama`** folds the streamed reply of the generation service into
  one string. It keeps the `"response"` text of each decodable line, skips
  everything else and trims the result.
- **`summarize_long_text_iterative`** summarizes each chunk with its own
  request and then, unless there is a single chunk, merges the labelled chunk
  summaries with one more request.

Modules, one file each:

- `wrappers.dfy` (`Wrappers`): `Option` and `Result`.
- `strings.dfy` (`Strings`): Python's `str.strip()` over its exact whitespace
  set, decimal formatting of the f-string `{i}`, and substring containment.
- `chunker.dfy` (`Chunker`): `chunk_text`.
  - `ChunkText` takes the single-window branch or hands the normalised
    text to `CutLoop`, the imperative cursor loop. Their contracts tie them
    to the recursive specification `ChunkSpec`.
  - The span function `Spans` lists the slices the loop takes, and the
    lemmas are stated about it.
- `completion.dfy` (`Completion`): the accumulation loop of `call_ollama`.
  - The reply arrives as already-classified lines:
    `Blank | Malformed | Object(response)`.
  - The service is a function from (request number, prompt) to either those
    lines or an error.
- `summarizer.dfy` (`Summarizer`): `summarize_long_text_iterative`.
  - The service is given as a parameter.
  - A ghost log records the prompts in the order they are sent.
  - The per-chunk loop and the merge are in `SummarizeChunks`.
  - `SummarizeLongText` chunks the text and hands the chunks to it.

The model follows the code where the docstrings of `chunk_text`
(app.py:25) and `summarize_long_text_iterative` (app.py:69-73) say less
than it does:

- A hard cut keeps `max_chars + 1` characters, `text[start:end+1]`
  (app.py:41-42). That is one more than the window, where the docstring at
  app.py:25 promises chunks "of up to ~max_chars characters".
- The single-window test measures the normalised, untrimmed text
  (app.py:26-27). The one chunk returned is that text trimmed, which can
  differ from the input.
- Nothing filters out empty chunks. A slice made of whitespace is trimmed
  to `""` and kept (app.py:34, 42-43).
- A chunk request that fails for any reason, including an unreachable
  service, becomes an `[ERROR: …]` marker (app.py:81-84). Only a failed
  merge request makes the whole call fail (app.py:98).
- Step 3 of the docstring at app.py:72 happens once. The chunk summaries
  are merged by one request, not merged again level by level (app.py:91-99).

## Model

| member | source | states |
|---|---|---|
| Chunker.ReplaceCrLf | app.py:26 | the body renders `replace("\r\n", " ")`: scanning left to right, each carriage-return/line-feed pair becomes one space and every other character is copied; its contract bounds the length |
| Chunker.ReplaceLf | app.py:26 | every line feed becomes a space, every other character stays where it is |
| Chunker.Normalize | app.py:26 | the normalised text holds no line feed and is no longer than the input |
| Chunker.NormalizeWithoutLineFeed | app.py:26 | text without line feeds is unchanged; a lone carriage return survives |
| Chunker.NormalizeCrLf | app.py:26 | every `"\r\n"` becomes exactly one space wherever it stands, and the text on either side is normalised on its own |
| Chunker.NormalizeLf | app.py:26 | a line feed with no carriage return just before it becomes exactly one space, and the text on either side is normalised on its own; with `NormalizeCrLf` and `NormalizeWithoutLineFeed` this determines the normalisation completely |
| Chunker.RFind | app.py:37-39 | `rfind`: -1 exactly when the character is absent from `[lo, hi)`, otherwise an index in range holding it with no later occurrence before `hi` |
| Chunker.CutPoint | app.py:32-41 | the split index lies between the cursor and the window's end |
| Chunker.CutPointPreference | app.py:36-41 | the split is the last '.' of the window if there is one, else its last ';', and the window's end exactly when it holds neither |
| Chunker.FindSplit | app.py:37-41 | the imperative search returns the cut point |
| Chunker.Spans | app.py:31-44 | the loop's slices lie inside the text and after the cursor, are non-empty, and there are none exactly when the cursor is at the end |
| Chunker.RawChunks | app.py:26-44 | there is always at least one untrimmed chunk |
| Chunker.ChunksFrom | app.py:31-44 | the body renders the `chunks` list the loop builds from cursor `start`: each slice of `Spans` trimmed, in order; `CutLoop` and `LoopFromStart` state what it is |
| Chunker.ChunkSpec | app.py:24-45 | at least one chunk is returned, and no chunk contains a line feed |
| Chunker.ChunkText | app.py:24-45 | the function normalises, takes the single-window branch or runs the cursor loop, and returns exactly the specified chunks |
| Chunker.CutLoop | app.py:29-44 | the cursor loop over a normalised text longer than one window returns exactly the trimmed slices of `Spans` from cursor 0, in order |
| Chunker.SingleWindow | app.py:26-28 | a normalised text that fits in one window gives exactly one chunk, the trimmed normalised text, even when trimming empties it |
| Chunker.LoopFromStart | app.py:26-31 | a normalised text longer than one window gives the chunks of the cursor loop started at 0 |
| Chunker.CutStep | app.py:37-44 | one cutting iteration emits the trimmed slice up to and including the split and continues from the next index |
| Chunker.LastStep | app.py:33-35 | the final branch emits the trimmed rest of the text and stops |
| Chunker.SpansShape | app.py:31-44 | the slices are non-empty, contiguous and non-overlapping, cover the text from the cursor to its end, and each is a cut or the final tail |
| Chunker.SpansConcat | app.py:31-44 | the slices concatenated in order give back the rest of the text exactly |
| Chunker.RawChunksCover | app.py:26-44 | the untrimmed chunks concatenated in order give back the normalised text |
| Chunker.CutSpan | app.py:37-42 | a cut at '.' (or at ';' when the window has no '.') keeps at most `max_chars` characters and ends at that mark; a hard cut keeps exactly `max_chars + 1` |
| Chunker.LoopSlice | app.py:31-44 | slice k is the text between its span's bounds, chunk k is that slice trimmed, and every slice but the last is a cut |
| Chunker.RawChunkSizes | app.py:32-42 | no untrimmed chunk exceeds `max_chars + 1` characters |
| Chunker.TailSliceSize | app.py:33-34 | the slice of the final branch is the last one and has at most `max_chars` characters |
| Chunker.ChunkEndsAtPunctuation | app.py:37-43 | a chunk cut at '.' ends in '.', and one cut at ';' ends in ';', since trimming removes only whitespace |
| Chunker.HardCutsWithoutPunctuation | app.py:40-42 | in text with neither '.' nor ';' every slice but the last has exactly `max_chars + 1` characters |
| Chunker.EmptyChunkKept | app.py:33-43 | trimming can produce an empty chunk and it is returned: `chunk_text("ab.   ", 4)` gives ["ab.", ""] |
| Strings.IsSpace | app.py:42 | the body renders the whitespace set of Python's `str.strip()`: space, tab to carriage return, U+001C to U+001F, U+0085, U+00A0, U+1680, U+2000 to U+200A, U+2028, U+2029, U+202F, U+205F and U+3000 |
| Strings.Strip | app.py:42 | the trimmed text is no longer than the input and neither starts nor ends with whitespace |
| Strings.StripShape | app.py:42 | trimming removes a run of whitespace at each end and keeps the middle as it is |
| Strings.StripIdempotent | app.py:85 | trimming an already trimmed text changes nothing |
| Strings.StripKeepsLast | app.py:42 | a text whose last character is not whitespace keeps that character last after trimming |
| Strings.Decimal | app.py:79 | the body renders the f-string `{i}` of a natural number: its base-10 digits, most significant first, with no leading zero; its contract says the result is a non-empty string of digits that starts with 0 only for 0 |
| Strings.DecimalRoundTrip | app.py:79 | the decimal rendering of a chunk number reads back as that number |
| Strings.DecimalInjective | app.py:79 | distinct chunk numbers render as distinct digit strings |
| Completion.ResponseText | app.py:54-63 | the body renders `full_output` after the loop: the "response" text of each object line that has one, appended in arrival order, with blank and undecodable lines adding nothing |
| Completion.ResponseTextAppend | app.py:54-63 | the accumulated text of two consecutive parts of a stream is the first part's text followed by the second's |
| Completion.ResponseTextIsResponses | app.py:54-63 | the accumulated text is exactly the "response" strings of the stream, concatenated in arrival order |
| Completion.SkippedLineIgnored | app.py:55-65 | a blank line, an undecodable line or an object without "response" anywhere in the stream changes nothing |
| Completion.Accumulate | app.py:54-66 | the loop returns the trimmed accumulation of the "response" texts |
| Completion.Outcome | app.py:52-66 | the body renders the value of `call_ollama`: the request's error when it fails, otherwise the stripped `full_output` |
| Completion.OutcomeMeaning | app.py:52-66 | a failed request yields its error; a successful one yields the trimmed concatenation of the "response" texts, which is already trimmed |
| Completion.CallOllama | app.py:47-66 | a failed request propagates its error; a successful one yields the trimmed accumulation of its stream |
| Summarizer.ChunkPrompt | app.py:77-80 | the body renders the chunk prompt: the instruction sentence, then `Chunk i of n:`, two line feeds, the chunk, two line feeds and `Summary:` |
| Summarizer.ErrorMarker | app.py:84 | the body renders `[ERROR: e]` around the failure's message |
| Summarizer.ChunkSummary | app.py:81-85 | the body renders what is appended for one chunk: the stripped reply on success, the stripped error marker on failure |
| Summarizer.ChunkPrompts | app.py:76-80 | one chunk request per chunk |
| Summarizer.SummariesOf | app.py:76-85 | one summary per chunk |
| Summarizer.SummarizeLongText | app.py:68-99 | the result is the summary of the text's chunks, and the prompts sent are, in order, one per chunk and then the merge request unless there is exactly one chunk |
| Summarizer.SummarizeChunks | app.py:75-99 | the per-chunk loop and merge return the specified summary and send exactly the specified prompts in order |
| Summarizer.ChunkSummaryCases | app.py:81-85 | a chunk summary is the service's trimmed text when its request succeeded, and exactly `[ERROR: e]` when it failed |
| Summarizer.ChunkSummaryOfReply | app.py:81-85 | a successful chunk request contributes the trimmed stream text, a failed one its error marker |
| Summarizer.ChunkPromptMentions | app.py:77-80 | every chunk request contains `Chunk i of n:` and the whole chunk |
| Summarizer.SummaryLine | app.py:92 | the body renders one line of `combined`: `Chunk k: s` |
| Summarizer.Joined | app.py:92 | the body renders `"\n".join(lines)`: the lines with one line feed between neighbours and none at either end |
| Summarizer.Combined | app.py:92 | the body renders `combined`: the summary lines numbered from 1, joined by line feeds |
| Summarizer.MergePrompt | app.py:93-97 | the body renders the merge prompt: the instruction sentences, two line feeds, `combined`, two line feeds and `Final summary:` |
| Summarizer.Requests | app.py:76-98 | the body renders the prompts sent, in order: one per chunk, then the merge prompt unless there is exactly one chunk; `ChunkRequests` and `MergeRequest` state its content |
| Summarizer.Summary | app.py:68-99 | the body renders the value of `summarize_long_text_iterative(text)`: the summary of `chunk_text(text, 3000)` |
| Summarizer.SummaryOf | app.py:75-99 | the body renders the result for given chunks: the only chunk summary when there is one, else the stripped merge reply, or its error when the merge request fails |
| Summarizer.JoinedAppend | app.py:92 | joining with line feeds maps a concatenation of lists to the two joins separated by one line feed |
| Summarizer.JoinedContains | app.py:92 | every line appears in the joined text |
| Summarizer.CombinedInOrder | app.py:92 | the labelled summaries appear in chunk order, the second part labelled from where the first stopped |
| Summarizer.MergePromptLists | app.py:92-97 | the merge request contains `Chunk k: s_k` for every chunk summary |
| Summarizer.ChunkRequests | app.py:76-80 | n chunk requests come first, in chunk order, each naming `Chunk i of n:` and carrying its whole chunk; one more request follows exactly when n is not 1 |
| Summarizer.MergeRequest | app.py:87-98 | when n is not 1 the request after the chunk requests is the merge request, and it lists `Chunk k: s_k` for every chunk summary |
| Summarizer.FailedChunkStillListed | app.py:83-97 | a failed chunk request is not dropped: the merge request carries its error marker under its chunk number |
| Summarizer.OnlyMergeFailureFails | app.py:83-99 | the summary fails exactly when the chunk count is not 1 and the merge request fails, and then with the merge request's error; a failed chunk request never fails it |
| Summarizer.ShortTextSingleRequest | app.py:87-89 | a text whose normalised form fits in one window is summarized by one request over chunk 1 of 1, whose summary is the result |
| Summarizer.SummaryTrimmed | app.py:85-99 | a successful summary has no surrounding whitespace |

## Left out

- The Flask routes and request handling (app.py:102-134) are web plumbing.
  This covers form and file access, the `.pdf` upload test, JSON responses
  and status codes.
- `extract_text_from_pdf` (app.py:15-22) wraps PyPDF2, which is not part of
  this model.
- Parts of `call_ollama` are replaced by parameters of the model:
  - The HTTP request and `raise_for_status` (app.py:52-53) become the
    service's `Failure` reply.
  - UTF-8 decoding and `json.loads` (app.py:59-60) become the
    classification of each line.
  - The model name and endpoint constants (app.py:11-12) are part of the
    service.
- The `print` logging of undecodable lines (app.py:65) is output only.
- The difference between request errors and other exceptions at the route
  boundary (app.py:126-129) is left out. A failure is modelled as its
  message string.
- Whether the service's answers are non-empty or sensible is outside what
  the code controls.
- Chunker.ChunkText: `max_chars` is a natural number, and the only
  caller passes 3000 (app.py:74). A negative value is outside the model
  because the Python code does not terminate on it:
  - With `max_chars = -1` and text `"ab"`, both `rfind` calls search
    `"ab"[0:-1]` and return -1, so `split_at = end = -1`.
  - The loop then appends `""` and sets `start` back to 0, forever
    (app.py:37-44).
  - With text `""` and a negative `max_chars`, the function returns `[]`
    (app.py:31), not a one-element list.
  - The `decreases` clauses of `Spans` and `CutLoop` hold only because
    `maxChars: nat` excludes these inputs.
- Summarizer.SummarizeLongText: the model assumes nothing about the service
  beyond its being a function of the request number and the prompt, so
  retries and timing are not modelled.
