# PDF chunking service: a Dafny model

This project models the core of the DOD-ChatBot PDF service. The service takes an OCR
result, asks a language model to split each page into sections, and reports on the job
through a status API. Three pieces are modelled:

- **Reply repair** (`extract_json_from_gemini_response`). The model's reply may sit
  inside a ```` ```json ```` fence. The fenced object is taken out, or the whole reply
  is used. It is decoded after one of two backslash-repair passes.
- **Chunk assembly** (`process_ocr_results_for_embedding`). Pages are visited in order.
  - A page with non-blank text or markdown is sent to the model behind a rate gate:
    at most 15 counted requests per 60-unit window.
  - The sections of the reply are stamped with the 1-based page number.
  - Any failure appends one fallback chunk holding the page verbatim.
  - Every table, then every image, becomes a chunk of its own.
- **Jobs** (`process_pdf`, `process_pdf_task`, `get_job_status`). A job store keyed by
  job id runs through queued, processing_ocr, processing_chunks, then completed or failed.
  A status query reports the result or the error.

The code exists in three copies: `backend/main.py`, `backend/test.py` and `test.py`. They
differ in one place that matters. In `backend/main.py` the reply-repair routine wraps its
whole body in a second handler, which re-raises the failure with the prefix
"Error decoding JSON from Gemini response: " added a second time. `Repair.Variant`
selects between `Served` (backend/main.py) and `Standalone` (the other two copies).
The job API exists only in the two copies under `backend/`. The rows below cite
`backend/main.py`. The same lines in the other copies are:

- `backend/test.py`: repair at 28-71, chunking at 113-220, task at 237-253,
  submission at 260-284, status at 286-299.
- `test.py`: repair at 10-53, chunking at 95-210.

Modules:

- `Base`: Option/Result, Python whitespace, substring search, and character counting.
- `JsonValues`: decoded JSON values. The decoder is an input, `string -> Result<Json, string>`.
- `Repair`: fence search, the two repair passes, and the decode-with-fallback logic.
- `RateGate`: the request counter and window, and the spacing they guarantee over a whole pass.
- `Chunker`: pages to chunks.
- `Jobs`: the job store, the background task and the status query.

The external world is passed in as parameters (`Chunker.Services`):

- the model's reply or raised error for each page index;
- the clock reading at each page's gate and at the start of the pass;
- the JSON decoder;
- whether `geminiApiKey` is set;
- for jobs, the outcome of the OCR call and of saving the upload.

A sleep is taken to last exactly as long as requested. So after a wait the new window
starts exactly 60 units after the old one.

Three behaviours of the code are worth knowing, and the model follows them:

- When a listed section is not a dict, the sections appended before it stay, and the
  fallback chunk is appended after them (backend/main.py:215-228;
  `Chunker.PartialSectionsAreKept`).
- A completed job without a `result` key makes the status handler raise, which gives a
  500 (backend/main.py:357-359). The model proves that no store reachable through the
  operations has such a job (`Jobs.OperationsKeepStoreWellFormed`,
  `Jobs.StatusFailsOnlyForUnknownIds`).
- A reply is counted against the budget as soon as the call returns, before it is
  decoded (backend/main.py:201-209). A call that raises is not counted
  (`Chunker.ReplyCountsEvenIfUndecodable`).

## Model

| member | source | states |
|---|---|---|
| Repair.SearchFence | backend/main.py:54-55 | The match `re.search` finds: it starts at the leftmost position where the fence pattern can match, and its group ends at the last `}` that can close that match (greedy `.*` under DOTALL). None only when no position and end match at all. |
| Repair.Candidate | backend/main.py:54-62 | Without a fence match the whole reply is the candidate. With one, the candidate is a brace-delimited `{...}` text. |
| Repair.CandidateIsLeftmostLongestGroup | backend/main.py:54-57 | For a fenced reply, the candidate is exactly the captured group of a leftmost, longest match of the pattern. |
| Repair.DoubleBackslashes | backend/main.py:66 | Doubling adds exactly one character per backslash, and removing the backslashes from input and output leaves the same text. |
| Repair.DoubleBackslashesDoublesEach | backend/main.py:66 | `s.replace("\\", "\\\\")` equals the per-position rewrite that turns every backslash into two and copies every other character. |
| Repair.ReplaceAll | backend/main.py:69 | `str.replace` leaves a string with no occurrence of the pattern unchanged. |
| Repair.Pass1Doubles | backend/main.py:66-69 | Pass 1 (double, then turn `\\"` back into `\"`) equals a per-position rewrite: every backslash is doubled except one directly before `"`. So in `\\"` the first backslash is doubled and the second is kept. |
| Repair.Pass2Doubles | backend/main.py:79-81 | Pass 2 (the `re.sub`, scanning left to right and consuming the escaped character) equals a per-position rewrite: a backslash is doubled exactly when a character follows it and that character is not one of `"\/bfnrtu`. |
| Repair.RepairOnlyTouchesBackslashes | backend/main.py:64-81 | Neither pass adds, drops or reorders any character other than a backslash, and the number of quote characters is unchanged. |
| Repair.RepairKeepsBackslashFree | backend/main.py:64-81 | A candidate without backslashes passes through both passes unchanged. |
| Repair.BothFailedMessage | backend/main.py:84-86 | The error raised when both decodes fail begins with "Error decoding JSON from Gemini response: " and contains both decode errors. |
| Repair.ExtractJson | backend/main.py:52-89 | If pass 1's text decodes, that value is returned. Otherwise the pass-2 text is decoded from the original candidate, and the result succeeds exactly when that decode does. Every failure carries the prefix and both decode errors. |
| Repair.Pass1DoublesValidEscape | backend/main.py:64-69 | Pass 1 as written turns the valid escape in the JSON text `"\n"` into `"\\n"`, so the text it hands to the decoder differs from a reply that was already valid. |
| Repair.Pass1AltersEscapesOtherThanQuote | backend/main.py:64-69 | Any backslash that does not stand directly before `"` makes pass 1 return a longer text, so valid escapes such as `\n`, `\t` or `\\` never reach the first decode unchanged. |
| Repair.EscapeStrayBackslashes | backend/main.py:64-69 | A proposed first pass that treats valid escapes as pass 2 does (line 80): removing backslashes from input and output leaves the same text. |
| Repair.StrayEscapingKeepsValidText | backend/main.py:64-69 | Text whose backslashes all start valid JSON escapes comes through the proposed pass unchanged. |
| Repair.StrayEscapingMakesValidText | backend/main.py:64-69 | Whatever the input, every backslash in the proposed pass's output starts a valid escape. |
| Repair.ExtractJsonIntended | backend/main.py:52-89 | With the proposed first pass in place of pass 1, a candidate whose escapes are all valid and that decodes as it stands gives exactly that decoded value; a failed first decode falls back to pass 2 as in the source. |
| Repair.ValidEscapeTradeOff | backend/main.py:64-69 | For a string literal whose one backslash starts a valid escape other than `\"`, pass 1 doubles that backslash while the proposed pass keeps the text as it is. For LaTeX `\frac` left unescaped, pass 1 keeps the command and the proposal yields a form feed. |
| Repair.NewlineEscapeDecodedDifferently | backend/main.py:52-73 | On the reply `"\n"`, the source decodes the altered text `"\\n"`, while the routine with the proposed pass decodes the reply itself. |
| Repair.ErrorPrefixPerVariant | backend/main.py:84-89 | The served copy fails on exactly the replies the standalone copies fail on, and returns the same value when it succeeds. Its error message is the standalone one with the prefix added once more by the outer handler. |
| RateGate.Admit | backend/main.py:176-185 | Below 15 counted requests the window is untouched and there is no wait. At 15, the pass waits out whatever is left of the 60-unit window, then opens a fresh window at count 0, starting no earlier than 60 units after the old one. A wait happens exactly when the count is 15 and the window is still open. |
| RateGate.SixteenthRequestWaits | backend/main.py:177-185 | With 15 counted and time left, the next request waits until the window ends and becomes request 1 of the next window. |
| RateGate.ExpiredWindowResetsAtOnce | backend/main.py:177-185 | With 15 counted and the window already over, the gate resets to a new window at the current time without waiting. |
| RateGate.RequestKeepsSpacing | backend/main.py:176-205 | Every request, counted or not, preserves the spacing invariant of the request log: under 15 counted at each admission, window starts 60 apart, and counts in one window strictly increasing after replies. |
| RateGate.AtMostLimitPerWindow | backend/main.py:159-205 | A well-spaced request log holds at most 15 returned requests under any one window. |
| Chunker.MarkdownStandsInForMissingText | backend/main.py:173-228 | When `text` is absent or empty and the markdown is not blank, the page counts as having text, and if the model call raises, its first chunk is the fallback holding the markdown verbatim. |
| Chunker.AsDict | backend/main.py:216-264 | The record appended for each kind of chunk. A section keeps the model's keys, with `page` overwritten by the page number. A fallback has type "text", the page content, and its fixed meaning and summary. A table has type "table", its index, the table as content, and its fixed meaning and summary. An image has type "image", its index, its fixed meaning and summary, and `caption` and `image_data` exactly when the OCR image had them, with their values. |
| Chunker.StampEach | backend/main.py:215-217 | The listed sections are stamped and kept in order up to the first element that is not a dict. The run completes exactly when all are dicts; otherwise it stops at that element. |
| Chunker.SectionsOf | backend/main.py:209-217 | A reply that is not an object yields nothing and fails. An object without `chunks` yields nothing and succeeds. A `chunks` list is stamped element by element. Any other `chunks` value yields nothing, and the loop completes exactly when that value is an empty string or an empty dict. |
| Chunker.AskModel | backend/main.py:199-228 | A page's text chunks all carry its page number, and at most one fallback appears, last, holding the content verbatim. The request is admitted by the gate and counted exactly when the call returned. A raised call or an undecodable reply yields exactly the fallback. |
| Chunker.Assemble | backend/main.py:175-264 | A page's chunks are its text chunks, then its tables, then its images, in that order, all of the one page. A chunk is a text chunk exactly when it lies in the first part. |
| Chunker.ChunkPage | backend/main.py:168-264 | Every chunk of page index `i` carries page `i + 1`, and the chunks are ordered text, tables, images. A blank page makes no request and leaves the window as it was; a page with text makes exactly one. |
| Chunker.ChunkPageIsBlock | backend/main.py:168-264 | Whatever the model answers, a page yields text chunks, then exactly its table chunks, then exactly its image chunks, table `k` and image `k` carrying index `k`. A blank page yields only the tables and images. |
| Chunker.TextPartIsModelOutput | backend/main.py:175-228 | For a page with text, the text chunks, the window afterwards and the request are exactly those of the model's `try` block on the page content. |
| Chunker.DecodedSectionsBecomeChunks | backend/main.py:201-217 | When the reply decodes to a dict whose `chunks` list holds only dicts, the page yields one section chunk per listed dict, in order and stamped with the page number, then its tables and images. |
| Chunker.MissingChunksKeyYieldsNoText | backend/main.py:209-217 | When the reply decodes to a dict without `chunks`, the page yields no text chunk and no fallback: only its tables and images. |
| Chunker.ChunkPageKeepsSpacing | backend/main.py:175-205 | Chunking one page keeps the request log well spaced: a page with text adds one request that respects the gate, and a blank page adds none. |
| Chunker.ChunkPagesFrom | backend/main.py:165-264 | The loop only appends; the chunks it appends belong to the pages it visits. Chunks stay ordered by page, and the request log stays well spaced. |
| Chunker.ChunksIgnoreWindow | backend/main.py:175-264 | A page's chunks are the same under any rate window: the gate decides only when the request goes out, never what the page contributes. |
| Chunker.PagesFromAreChunkPages | backend/main.py:165-264 | For every page the loop visits, the chunks picked out of the result for that page are exactly what chunking that page on its own yields, whatever the gate did for earlier pages. |
| Chunker.PagesFromKeepBlocks | backend/main.py:165-264 | The chunks of each visited page, picked out of the result, form that page's block: text chunks, then exactly its tables, then exactly its images, and only tables and images for a blank page. |
| Chunker.ProcessOcrResults | backend/main.py:139-267 | Fails, with the missing-key message, exactly when the Gemini key is absent or empty. With no `pages` key the result is empty. Otherwise the chunks are ordered by page, so each page's chunks are contiguous. Every page number is between 1 and the number of pages. Each page's chunks are exactly what chunking that page alone yields, including the text part the model produced for it, and are its text chunks, then exactly its tables, then exactly its images. |
| Chunker.ChunkingRespectsBudget | backend/main.py:159-205 | Over a whole pass, every request went out with fewer than 15 counted, and no window holds more than 15 returned requests. |
| Chunker.BlankPageKeepsTablesAndImages | backend/main.py:175-264 | A page without text yields exactly its table chunks, then its image chunks, and leaves the rate window unchanged. |
| Chunker.WhitespaceTextHidesMarkdown | backend/main.py:173-175 | A non-empty whitespace-only `text` makes the page blank, even when the markdown has content. |
| Chunker.FailedCallFallsBack | backend/main.py:199-228 | When the model call raises, the page yields one fallback chunk with its content verbatim, then its tables and images, and the call is not counted. |
| Chunker.ReplyCountsEvenIfUndecodable | backend/main.py:201-209 | A reply that returned is counted, whatever happens to it afterwards. |
| Chunker.PartialSectionsAreKept | backend/main.py:209-228 | For any decoded reply object whose `chunks` value is a list, whatever other keys it has: when a listed section is not a dict, the sections stamped before it stay, followed by the fallback chunk. |
| Chunker.NonListChunksValue | backend/main.py:209-228 | For any decoded reply object whose `chunks` value is not a list: an empty string or empty dict leaves the page with no text chunk, and any other value leaves only the fallback with the page content verbatim. |
| Chunker.BlankSecondPageContributesNothing | backend/main.py:165-267 | With two pages, the first with text and the second blank with no tables or images, every chunk belongs to page 1. |
| Jobs.Submit | backend/main.py:313-344 | A failed upload save answers 500 with the error text and creates no job. Otherwise the response is (id, "queued", the queued message), and the store gains a fresh queued job under that id, replacing any earlier job with the same id. Other jobs are untouched. |
| Jobs.RunTask | backend/main.py:284-305 | For a known job the background task writes processing_ocr, then processing_chunks exactly when OCR succeeded, then completed or failed. It ends failed exactly when OCR or chunking failed, with that error stored. A completed job holds the OCR results, the chunks, and `total_chunks` equal to their number. An unknown id changes nothing, and other jobs are untouched. |
| Jobs.FinishedJobReports | backend/main.py:346-364 | A job that failed, or completed with its result stored, is answered without error and with a result. |
| Jobs.GetStatus | backend/main.py:346-364 | An unknown id answers 404. Otherwise the reported status is the job's, and a result is present exactly for completed (the stored result) or failed (the error, or "Unknown error"). The only other failure is a 500 for a completed job without a result. |
| Jobs.StatusFailsOnlyForUnknownIds | backend/main.py:346-364 | On a store where every completed job has its result, the status query fails exactly for unknown ids. |
| Jobs.OperationsKeepStoreWellFormed | backend/main.py:295-329 | Submitting a job and running a task both keep every completed job paired with its result. |
| Jobs.JobLifecycle | backend/main.py:284-344 | A submitted job goes queued, processing_ocr, then failed or processing_chunks, and then completed or failed. processing_chunks is written exactly when OCR succeeded. The status query then answers with a result. |

## Left out

- The OCR call (`process_pdf_with_ocr`) and the model call (`generate_content`) are external services. Their outcomes are inputs. The prompt text is not modelled, since no output depends on it.
- `json.loads` is an input decoder. The model states what is done with each answer, not how text is parsed.
- Time and `time.sleep` are an input clock. A sleep is taken to last exactly the requested time. A clock that overshoots would start the next window later, which only widens the spacing.
- Logging, CORS, the FastAPI plumbing, writing the upload to disk, and the choice of job id (`time.time()` and `hash(filename)`) are left out. The id is an argument and the save outcome an input.
- Concurrency between jobs and requests is not modelled. Each operation is one atomic step; the background task has no `await` between its writes.
- The LaTeX normalizer, the chat endpoint and the command-line `main()` are not part of this model.
- Chunker.ProcessOcrResults: `pages` is modelled as a list of page dicts. An empty dict or empty string under `pages` iterates nothing and is the same as an empty list, `Some([])`. A non-empty string or dict under `pages`, or a list element that is not a dict, raises at `page.get` (backend/main.py:173), and a value without a length raises at line 166. The job fails either way, and those inputs are not represented.
- Chunker.Page: `text` and `markdown` are strings or absent. A falsy non-string value (`0`, `[]`, `false`, `null`) behaves as absent, which the model covers: under `text` it falls through the `or` at backend/main.py:173 to the markdown, and under `markdown` it leaves the page blank. A truthy non-string value that becomes the page content raises at `.strip()` (line 175) and fails the job. That input is not represented.
- Chunker.Page: `tables` is a list of JSON values, and a missing or falsy value reads as empty. A non-empty string or dict under `tables` would give one table chunk per character or key (backend/main.py:235), and a truthy value without a length raises at line 232. Neither is represented.
- Chunker.PageImage: `images` is a list of dicts. A non-dict element reaches `"caption" in img` at backend/main.py:260, which tests for a substring of a string, a member of a list, or raises for a number. A string or dict under `images` is iterated by character or key. None of these is represented.
- Repair.ExtractJson: a first decode that raises something other than `JSONDecodeError` skips pass 2 in the source. The decoder input only answers with a value or a decode error, so that path is not represented.
- Repair.ExtractJson: the error text of a failed decode is an opaque string. Python's exact formatting of exception messages is not modelled; only the fixed prefix and the inclusion of both messages are stated.
- Dicts are modelled as maps, so the key order of the chunk dicts is not kept. It shows in the serialised status response. A section's `page` key comes after the model's own keys when the model's dict had none; when it had one, `chunk["page"] = ...` (backend/main.py:216) overwrites it in its original position.
- JsonValues.Json: numbers are one `JNum(real)` case. Python's `1` and `1.0` therefore become the same value in stored sections and tables, and the `NaN`, `Infinity` and `-Infinity` that `json.loads` accepts cannot be represented.
- RateGate.Admit: when the window is full the source reads the clock twice, once for the elapsed time and once for the new window start (backend/main.py:178, 185). The model uses one reading for both when there is no wait, so the later start the second reading would give is not represented.
- Jobs.GetStatus: the 500 text is modelled as "Internal Server Error"; the framework's exact error body is not modelled.

## Findings

| source | as written | input that shows it | evidently intended | confidence | as-written member | corrected member |
|---|---|---|---|---|---|---|
| backend/main.py:64-69 | Pass 1 doubles every backslash, and only `\"` is restored, so a valid escape such as `\n` becomes `\\n` before the first decode. | The reply `"\n"`, a JSON string holding a newline: the first decode sees a backslash followed by `n` and returns that text instead of a newline. | Contestable. Line 68 exempts `\"`, and pass 2 (line 80) keeps every valid escape, which points to valid escapes reaching the decoder unchanged and only stray backslashes being doubled. But the comment at line 65 asks for every backslash to be doubled. That choice keeps a LaTeX `\frac` the model left unescaped as text, where the proposal would decode `\f` as a form feed (`Repair.ValidEscapeTradeOff`). | low, not executed | Repair.Pass1DoublesValidEscape | Repair.EscapeStrayBackslashes |

`Repair.Pass1AltersEscapesOtherThanQuote` generalises the example to every backslash that
does not precede `"`. The proposed pass is proved to keep every valid escape (`Repair.StrayEscapingKeepsValidText`)
and to leave only valid escapes (`Repair.StrayEscapingMakesValidText`), and
`Repair.ExtractJsonIntended` is the reply routine with that pass in place of pass 1
(`Repair.NewlineEscapeDecodedDifferently` compares the two on the reply above).
`Repair.ValidEscapeTradeOff` states what the proposal gives up, so the row is a
proposal rather than a certain bug. The chunker keeps `Repair.ExtractJson`, because
its rows describe what the code does.
