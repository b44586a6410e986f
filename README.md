# Retrieval pipeline of the PDF question-answering service, in Dafny

The service takes an uploaded PDF and a question. It extracts the text page by
page, chunks it, retrieves the chunks nearest to the question, and asks a
language model for an answer. This project models the core of that pipeline and
proves what it computes:

- `recursive_chunk` and `chunk_text` (retrieve.py). These are the recursive
  separator cascade and the per-page tagging. Both are written as the source's
  loops (`Chunker.RecursiveChunk`, `Chunker.ChunkText`) and proved equal to the
  functions `Chunks` and `TextChunks`. The lemmas then state what a chunk list
  means:
  - The page text is the chunks, in order, with only whitespace and separator
    characters between them.
  - Every chunk is stripped. Once the text is split, no chunk is empty.
  - A chunk longer than `max_len` holds none of the separators.
  - The only exception is `str.split("")`.
  - The recursion terminates, because each call receives the shorter list
    `separators[1:]`. This is the `decreases` clause of `RecursiveChunk`.
  - Every chunk of `chunk_text` comes from one page entry and carries its
    number.
- The retrieval stage (retrieve.py). This covers the key check of
  `load_json_from_team1`, the index lookup of `retrieve_relevant_chunks`
  (Python's negative indexing included), and `process_rag_pipeline`, which
  loads, chunks, searches and saves in that order.
- The generation stage (rag_llm.py). This covers `load_json_file` and the
  early returns, passage projection and output shape of `run_team3_rag`.
- The worker (worker.py). This covers:
  - The upload check: `os.path.splitext(...)[1].lower() == ".pdf"`, stated
    without `splitext` in `PdfNameIff`.
  - The saved path and the artifact names derived from the upload's stem.
  - `extract_text`'s page normalisation.
  - `background_process`, which runs extraction, retrieval and generation in
    that order and stops quietly at the first exception.

The files on disk are one `ArtifactStore` object. Its `files` map, from path to
content, is updated in place by the stage methods (`DataValidation`,
`ProcessRagPipeline`, `RunTeam3Rag`, `BackgroundProcess`). Each method is
proved to leave exactly the map its specification function describes.

A Python exception is an `Err` of the `Outcomes.Error` kind that names it.
`run_team3_rag` and `background_process` catch everything, and their outcomes
say which guard or exception ended them.

The embedding model and faiss index form one capability. It is a function
parameter `search(query, chunks, k)` that returns the first row of indices, or
`None` when it raises. The LangChain pipeline is `chain(question, texts)`,
which returns the response dictionary or `None`.

Some behaviours of the code that a reader might not expect, all modelled as
written:

- A blank page yields one empty chunk `""`, not no chunks (`ChunksBlank`).
- Splitting drops the separator characters as well as whitespace. `Covers`
  therefore allows both between chunks, not whitespace alone.
- There is no dedicated empty-corpus error. With no chunks, what happens is up
  to the search capability. A `-1` padding index reads the last chunk
  (`PaddingSelectsLast`).
- An empty query is not an error. `run_team3_rag` returns without writing
  (`NoQuery`).
- Uploads with the same stem share their artifact paths (`ArtifactPathIff`).

## Model

| member | source | states |
|---|---|---|
| JsonData.Truthy | rag_llm.py:24-34 | a value is falsy exactly when it is `None`, `False`, `0`, `""`, `[]` or `{}`: the `if not data` and `if not question` tests |
| JsonData.ReadJson | retrieve.py:13-14 | reading succeeds exactly when the path holds a JSON document, and returns that document; a missing path raises the file error and any other content the parse error (the same read as rag_llm.py:11-12) |
| PyStr.Strip | retrieve.py:30 | `strip()` never lengthens its text; `StripSlice` states which slice it keeps |
| PyStr.LeadingSpaceMaximal | retrieve.py:30 | the count of leading characters `strip` removes is a run of `isspace` characters, and the next character is not one |
| PyStr.TrailingSpaceMaximal | retrieve.py:30 | the same for the trailing run |
| PyStr.StripSlice | retrieve.py:30 | `strip()` keeps exactly the slice between the maximal whitespace prefix and suffix; the result starts and ends with non-whitespace |
| PyStr.StripAround | retrieve.py:30 | the text is whitespace, then its `strip()`, then whitespace |
| PyStr.StripEmpty | retrieve.py:39-41 | `strip()` is empty exactly when the text is all whitespace (the `if not part` test) |
| PyStr.StripIdempotent | retrieve.py:39 | stripping a stripped string changes nothing |
| PyStr.Find | retrieve.py:16 | the first occurrence at or after the start index, or -1 when there is none (the substring test `in` on a string) |
| PyStr.Split | retrieve.py:35 | with a non-empty separator `split` returns at least one piece; the four lemmas below characterise the pieces |
| PyStr.SplitJoin | retrieve.py:35 | joining `text.split(sep)` with `sep` gives back the text |
| PyStr.SplitPieces | retrieve.py:35 | no piece of `split(sep)` contains `sep` |
| PyStr.SplitLeftmost | retrieve.py:35 | no piece but the last could have been cut earlier (leftmost, non-overlapping matching) |
| PyStr.SplitUnique | retrieve.py:35 | any decomposition with those three properties is `split(sep)` |
| PyStr.ReplaceChar | worker.py:65 | `replace("\n", " ")` keeps the length and replaces exactly the newlines |
| PyStr.LowerAscii | worker.py:43 | `lower()` maps each character on its own and keeps the length |
| PyStr.RFind | worker.py:43 | the last index holding the character, or -1 |
| Chunker.RecursiveChunk | retrieve.py:29-47 | the loop over the split parts, with its recursion on `separators[1:]`, computes `Chunks` |
| Chunker.ChunksCover | retrieve.py:29-47 | the text is the chunks in order, with only whitespace and separator characters before, between and after them |
| Chunker.PartsCover | retrieve.py:35-45 | the joined parts are covered by the chunks of the loop over them |
| Chunker.PartCover | retrieve.py:39-45 | one part is covered by what the loop emits for it |
| Chunker.ChunkInfix | retrieve.py:29-47 | every chunk is a contiguous piece of the text |
| Chunker.ChunksShort | retrieve.py:30-32 | a text that fits, or an empty separator list, comes back as the single stripped text, even when it is empty or still too long |
| Chunker.ChunksBlank | retrieve.py:30-32 | a blank page gives `[""]` |
| Chunker.ChunksStripped | retrieve.py:30-45 | every chunk is stripped; after a split no chunk is empty |
| Chunker.PartsStripped | retrieve.py:38-45 | the loop emits only stripped, non-empty chunks |
| Chunker.PartStripped | retrieve.py:39-45 | one part yields only stripped, non-empty chunks |
| Chunker.ChunksLong | retrieve.py:31-45 | a chunk longer than `max_len` contains none of the separators |
| Chunker.PartsLong | retrieve.py:38-45 | the same for the loop over parts that hold no first separator |
| Chunker.PartLong | retrieve.py:42-45 | the same for one such part |
| Chunker.ChunksFailure | retrieve.py:34-35 | the only failure is `split("")`, and it cannot happen when every separator is non-empty |
| Chunker.PartsFailure | retrieve.py:38-45 | the same for the loop over parts |
| Chunker.PartFailure | retrieve.py:42-45 | the same for one part |
| Chunker.PageEntries | retrieve.py:56 | `for entry in json_pages` succeeds exactly over a list, visiting its items in order, or over an empty dict or string, visiting nothing; any other value raises the malformed-page error |
| Chunker.IsPageEntry | retrieve.py:57-58 | an entry passes exactly when it is a dict with a `page` key and a string under `para`, so that the `strip()` at retrieve.py:30 applies |
| Chunker.Tag | retrieve.py:62-63 | each chunk of a page becomes one record with that chunk's text and the page number, in order |
| Chunker.AppendTagged | retrieve.py:62-63 | the inner loop appends exactly the page's tagged chunks |
| Chunker.ChunkText | retrieve.py:50-65 | the loop over page entries with the defaults 1200 and `["\n\n", ".", "\n"]` computes `TextChunks`, including the malformed-entry and empty-separator exceptions |
| Chunker.PageChunksAppend | retrieve.py:56-63 | the chunks of two runs of pages are the first run's followed by the second's, so pages keep their order |
| Chunker.PageChunkFromEntry | retrieve.py:57-63 | a chunk of one entry carries its page number, is a stripped piece of its text, and holds no separator when too long |
| Chunker.PageChunksProvenance | retrieve.py:56-63 | every chunk of `chunk_text` has those properties for some page entry |
| Chunker.PageChunksOk | retrieve.py:56-60 | success implies every entry has `page` and a string `para`; with non-empty separators the converse also holds |
| Chunker.DefaultsNeverFail | retrieve.py:50-52 | with the default separators `chunk_text` fails only on a malformed entry |
| Retrieve.KeyCheck | retrieve.py:16-22 | success exactly for an object with both keys, returning `(pages, query)`; an object without them raises the missing-keys error; other values fail the `in` test or the indexing |
| Retrieve.PyIndex | retrieve.py:98 | an index in `[-n, n)` denotes the position `i` or `i + n` |
| Retrieve.SelectChunks | retrieve.py:98 | `[chunks[i] for i in indices]` succeeds exactly when every index is in `[-len, len)`, and then returns one chunk per index in order, else raises IndexError |
| Retrieve.PaddingSelectsLast | retrieve.py:97-98 | a `-1` index selects the last chunk, and fails when there are no chunks |
| Retrieve.ProcessRagPipeline | retrieve.py:122-138 | load, chunk, search and select run in order, each only after the previous succeeded; the retrieval document is written only on success and the retrieved chunks are returned |
| Retrieve.RetrievedFromChunks | retrieve.py:126-134 | on success every retrieved chunk is one of the document's chunks, one per search index, and the query is the loaded one |
| Retrieve.SearchAfterChunking | retrieve.py:126-134 | when loading or chunking fails the search is never consulted and the pipeline fails |
| RagLlm.LoadJsonFile | rag_llm.py:9-15 | the parsed document, or `None` exactly when reading or parsing fails |
| RagLlm.TextFields | rag_llm.py:37 | `[chunk["text"] for chunk in docs]` succeeds exactly when every item is a dict with `text`, and returns those fields in order |
| RagLlm.Passages | rag_llm.py:37 | the comprehension over `docs` succeeds exactly for a list whose items all carry `text`, giving those fields in order, or for an empty dict or string, giving none; otherwise it raises the malformed-chunk error |
| RagLlm.RunTeam3Rag | rag_llm.py:20-68 | the no-data and no-query guards, the passage projection and the chain, then a write of `{"result": answer}` only when an answer was produced |
| RagLlm.GuardsSkipChain | rag_llm.py:23-34 | with falsy data or a falsy query the chain is never consulted and nothing is written |
| RagLlm.AnsweredShape | rag_llm.py:57-63 | an answer is an object with the single key `result`, holding the chain's `result` or `""` |
| RagLlm.MissingChunksAreEmpty | rag_llm.py:30 | a missing `retrieved_chunks` key reads as no passages |
| Worker.SplitExt | worker.py:43 | `splitext` splits the name into root and extension, which concatenate back to the name |
| Worker.IsPdfName | worker.py:43-44 | the lower-cased `splitext` extension equals `.pdf`; `PdfNameIff` states which names that accepts |
| Worker.PdfExtAtEnd | worker.py:43-44 | an accepted name's extension is its last four characters, after its last slash |
| Worker.PdfNameIff | worker.py:43-45 | a name is accepted exactly when it ends in `.pdf` in any case and its last component has something other than dots before that |
| Worker.UpperCaseAccepted | worker.py:43-44 | `report.PDF` is accepted |
| Worker.NonPdfRejected | worker.py:43-45 | `.pdf` and `report.pdf.txt` are rejected |
| Worker.JoinPath | worker.py:47 | `UPLOAD_DIR / file.filename`: an empty name gives the directory, an absolute name replaces it, and a relative name follows it after one slash |
| Worker.JoinPathShape | worker.py:47 | the joined path always ends with the name; an absolute name is the whole result; a relative one comes after the directory and one slash |
| Worker.BaseName | worker.py:113 | `Path(p).name`: what follows the last slash |
| Worker.BaseNameShape | worker.py:113 | the last component is a slash-free tail of the path, preceded by a slash whenever it is not the whole path |
| Worker.Stem | worker.py:113 | `Path(p).stem`: the last component cut at its last dot, unless that dot starts or ends it |
| Worker.StemShape | worker.py:113 | the stem is a prefix of the last component; when shorter, the next character is the component's last dot, which neither starts nor ends it |
| Worker.JoinedBaseName | worker.py:47 | saving under `input/` keeps the upload's last path component |
| Worker.StemOfPdfName | worker.py:113 | the stem of a `.pdf` name is the name without its suffix |
| Worker.AcceptedStem | worker.py:113-115 | the stem of an accepted upload's saved path is its file name without `.pdf` |
| Worker.ArtifactDirsDisjoint | worker.py:113-115 | OCR, retrieval and answer paths never coincide |
| Worker.ArtifactPathIff | worker.py:113-115 | within one directory, artifact paths are equal exactly when stems are |
| Worker.DataValidation | worker.py:41-54 | a wrong extension gets "Insert valid PDF file", a failed save gets "Internal file save error", and an accepted upload is stored under `input/` and returned as its path |
| Worker.RejectedName | worker.py:43-45 | a non-PDF name is rejected with the invalid-file message and nothing is stored |
| Worker.AcceptedName | worker.py:47-51 | a saved PDF with a relative name is stored and reported as `input/<name>` |
| Worker.UploadPdf | worker.py:107-124 | an error response carrying the message, or a queued response naming the OCR path together with the job for the three artifact paths |
| Worker.UploadRejected | worker.py:109-111 | a rejected upload starts nothing |
| Worker.UploadQueued | worker.py:113-124 | an accepted upload is queued and its response's `ocr_json` is the job's OCR path |
| Worker.QueuedArtifacts | worker.py:113-115 | the job's artifacts are `ocr/<stem>.json`, `retrieval/<stem>.json` and `output/<stem>.json` |
| Worker.JobArtifactsDistinct | worker.py:113-115 | a job's three artifacts are distinct paths |
| Worker.Normalize | worker.py:65 | `replace("\n", " ").strip()` on a page's text; `NormalizeNoNewline` and `NormalizeStripped` state what it yields |
| Worker.PageRecord | worker.py:62-65 | each page's record is a page entry `chunk_text` accepts, carrying the page's number |
| Worker.NormalizeNoNewline | worker.py:65 | a normalised page text contains no newline |
| Worker.NormalizeStripped | worker.py:65 | a normalised page text is stripped |
| Worker.ExtractText | worker.py:57-70 | the loop over pages computes one record per page, or `[]` when the PDF cannot be read |
| Worker.ExtractedRecords | worker.py:57-70 | one record per page in order, with the page's number and a stripped, newline-free text, each a valid page entry |
| Worker.BackgroundProcess | worker.py:73-99 | the OCR document is written, then retrieval runs, then generation runs only if retrieval returned |
| Worker.OcrReadBack | worker.py:82-87 | retrieval reads back exactly the pages and query the extraction saved |
| Worker.ExtractedChunkable | worker.py:61-66 | extracted pages always chunk successfully |
| Worker.StageOrder | worker.py:82-99 | generation runs exactly when retrieval returned; retrieval over the process's own OCR document fails only in the search or on a returned index |
| Worker.RetrievedPassages | worker.py:91-95 | generation's passages are the retrieved chunks' texts, in order |
| Worker.EndToEnd | worker.py:82-99 | once retrieval returned, an empty query gives no answer; otherwise the answer is the chain's `result` for the query over the retrieved texts |

## Left out

- Embedding, faiss, LangChain and Ollama: these are the `search` and `chain`
  parameters. Nearness, ranking and the content of answers are not modelled.
  `generate_embeddings` and `build_faiss_index` are inside `search`.
- Numbers in JSON are integers. Floating-point values never reach the modelled
  logic.
- File I/O:
  - A write always succeeds, and is complete.
  - A read either yields a document or fails.
  - Directory creation (`mkdir`) and encodings are not modelled.
  - A write that fails part-way, or a disk that changes between stages, is not
    modelled.
- Logging and `print` are left out. They have no effect on results.
- FastAPI request handling, `multiprocessing` and the concurrency between
  background processes are left out. `UploadPdf` returns the job instead of
  starting a process. Two jobs with the same stem racing on the same files are
  not modelled, beyond `ArtifactPathIff` showing that they share paths.
- Worker.BackgroundProcess: the PDF is its pages as a parameter (`None` when
  pdfplumber raises). The `pdf_path` argument is used only for that and for
  logging, so it is dropped.
- Worker.DataValidation: whether the copy succeeds is the `saved` parameter.
  The upload's content is a byte sequence. A missing file name takes the save
  error path.
- Worker.JoinPath: pathlib's normalisation of repeated slashes, `.`
  components and trailing slashes is not modelled. Names are taken as given.
- Worker.Stem: the suffix rule is the one where a last dot that starts or ends
  the name gives no suffix, as in Python 3.12 and earlier. Python 3.14 and
  later treat a trailing dot as a suffix. Accepted uploads end in `.pdf`, so
  the difference never reaches the model.
- PyStr.Strip, PyStr.Split: their own contracts state only a length bound and
  a piece count, to keep them cheap at every use. The exact results are stated
  by `StripSlice`, `StripAround`, `SplitJoin`, `SplitPieces`, `SplitLeftmost`
  and `SplitUnique`.
- Worker.IsPdfName, Worker.JoinPath, Worker.BaseName, Worker.Stem,
  Worker.Normalize: these carry no contract of their own. Their properties are
  separate lemmas (`PdfNameIff`, `JoinPathShape`, `BaseNameShape`,
  `StemShape`, `NormalizeNoNewline`, `NormalizeStripped`). A contract on the
  function itself would be assumed at every use and slow the proofs around
  uploads and extraction.
- PyStr.LowerAscii: lower-cases ASCII letters only. The result is compared
  with `.pdf`, and no non-ASCII character lowers to an ASCII letter other than
  `i`/`k` forms that cannot yield `.pdf` here. Full Unicode case mapping is not
  modelled.
- Error kinds: KeyError, TypeError and AttributeError on a malformed page entry
  are one kind (`MalformedPage`), and likewise for a malformed retrieved chunk
  (`MalformedChunk`). Messages are not modelled.
- run.py and config loading are not part of this model.
