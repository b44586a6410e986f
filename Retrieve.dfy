/** The retrieval stage of retrieve.py: `load_json_from_team1`'s key check,
    the index-to-chunk mapping of `retrieve_relevant_chunks`, and
    `process_rag_pipeline`, which loads, chunks, searches and saves in that
    order. Embedding and the faiss index are one opaque search capability. */
module Retrieve {
  import opened Outcomes
  import opened PyStr
  import opened JsonData
  import opened Chunker

  /** `process_rag_pipeline`'s default number of neighbours. */
  const DefaultK: int := 5

  /** The key check of `load_json_from_team1` on the loaded document:
      `"query" not in data or "pages" not in data`, then `data["pages"]` and
      `data["query"]`. On a list `in` looks for an element and on a string
      for a substring; indexing either by a string then raises TypeError. */
  function KeyCheck(data: Json): (r: Result<(Json, Json)>)
    ensures r.Ok? <==> data.JObj? && "query" in data.fields && "pages" in data.fields
    ensures r.Ok? ==> r.value == (data.fields["pages"], data.fields["query"])
    ensures data.JObj? && r.Err? ==> r.error == MissingKeys
  {
    match data
    case JObj(f) =>
      if "query" !in f || "pages" !in f then Err(MissingKeys) else Ok((f["pages"], f["query"]))
    case JArr(items) =>
      if JStr("query") !in items || JStr("pages") !in items then Err(MissingKeys) else Err(WrongType)
    case JStr(s) =>
      if Find(s, "query", 0) < 0 || Find(s, "pages", 0) < 0 then Err(MissingKeys) else Err(WrongType)
    case _ => Err(WrongType)
  }

  /** `load_json_from_team1(path)`: `(pages, query)`. */
  function LoadOcr(files: map<string, FileContent>, path: string): Result<(Json, Json)>
  {
    match ReadJson(files, path)
    case Err(e) => Err(e)
    case Ok(data) => KeyCheck(data)
  }

  /** Python's `xs[i]` position for `-n <= i < n`. */
  function PyIndex(i: int, n: int): (p: int)
    requires -n <= i < n
    ensures 0 <= p < n
    ensures p == i || p == i + n
  {
    if i < 0 then i + n else i
  }

  /** `[chunks[i] for i in indices]`: IndexError on the first index outside
      `[-len(chunks), len(chunks))`; a negative index counts from the end. */
  function SelectChunks<T>(chunks: seq<T>, indices: seq<int>): (r: Result<seq<T>>)
    ensures r.Ok? <==> forall j :: 0 <= j < |indices| ==> -|chunks| <= indices[j] < |chunks|
    ensures r.Err? ==> r.error == IndexOutOfRange
    ensures r.Ok? ==> |r.value| == |indices|
    ensures r.Ok? ==> forall j :: 0 <= j < |indices| ==> r.value[j] == chunks[PyIndex(indices[j], |chunks|)]
    decreases |indices|
  {
    if indices == [] then Ok([])
    else if !(-|chunks| <= indices[0] < |chunks|) then Err(IndexOutOfRange)
    else Then([chunks[PyIndex(indices[0], |chunks|)]], SelectChunks(chunks, indices[1..]))
  }

  /** faiss pads a short result row with -1, which Python reads as the last
      chunk; with no chunks at all any index fails. */
  lemma PaddingSelectsLast<T>(chunks: seq<T>, indices: seq<int>, j: int)
    requires 0 <= j < |indices| && indices[j] == -1
    ensures chunks == [] ==> SelectChunks(chunks, indices) == Err(IndexOutOfRange)
    ensures SelectChunks(chunks, indices).Ok? ==> SelectChunks(chunks, indices).value[j] == chunks[|chunks| - 1]
  {
  }

  /** What `process_rag_pipeline` keeps: the query and the retrieved chunks. */
  datatype Retrieval = Retrieval(query: Json, retrieved: seq<Chunk>)

  /** `process_rag_pipeline(ocr_path, output_path, k)` up to the save:
      load, chunk with the defaults, search, select. `search(query, chunks,
      k)` is the first row of `index.search` over the chunks' embeddings,
      or `None` when the embedding model or faiss raises. */
  function RagPipeline(files: map<string, FileContent>, ocrPath: string, k: int,
                       search: (Json, seq<Chunk>, int) -> Option<seq<int>>): Result<Retrieval>
  {
    match LoadOcr(files, ocrPath)
    case Err(e) => Err(e)
    case Ok((pages, query)) =>
      match TextChunks(pages, DefaultMaxLen, None)
      case Err(e) => Err(e)
      case Ok(chunks) =>
        match search(query, chunks, k)
        case None => Err(CapabilityFailure)
        case Some(indices) =>
          match SelectChunks(chunks, indices)
          case Err(e) => Err(e)
          case Ok(retrieved) => Ok(Retrieval(query, retrieved))
  }

  /** A chunk as `chunk_text` builds it and `json.dump` writes it. */
  function ChunkJson(c: Chunk): Json
  {
    JObj(map["text" := JStr(c.text), "page" := c.page])
  }

  /** The document `save_retrieved_json` writes. */
  function RetrievedJson(r: Retrieval): Json
  {
    JObj(map["query" := r.query,
             "retrieved_chunks" := JArr(seq(|r.retrieved|, i requires 0 <= i < |r.retrieved| => ChunkJson(r.retrieved[i])))])
  }

  /** The files after `process_rag_pipeline`: the retrieval document is
      written only when every earlier stage succeeded. */
  function RagPipelineFiles(files: map<string, FileContent>, ocrPath: string, outputPath: string, k: int,
                            search: (Json, seq<Chunk>, int) -> Option<seq<int>>): map<string, FileContent>
  {
    match RagPipeline(files, ocrPath, k, search)
    case Err(_) => files
    case Ok(r) => files[outputPath := JsonText(RetrievedJson(r))]
  }

  /** `process_rag_pipeline`: each stage runs only when the one before it
      returned, and the result is saved before it is returned. */
  method ProcessRagPipeline(store: ArtifactStore, ocrPath: string, outputPath: string, k: int,
                            search: (Json, seq<Chunk>, int) -> Option<seq<int>>)
    returns (r: Result<seq<Chunk>>)
    modifies store
    ensures r == match RagPipeline(old(store.files), ocrPath, k, search)
                 case Err(e) => Err(e)
                 case Ok(x) => Ok(x.retrieved)
    ensures store.files == RagPipelineFiles(old(store.files), ocrPath, outputPath, k, search)
  {
    var loaded := LoadOcr(store.files, ocrPath);
    if loaded.Err? {
      return Err(loaded.error);
    }
    var (pages, query) := loaded.value;
    var chunks := ChunkText(pages);
    if chunks.Err? {
      return Err(chunks.error);
    }
    var found := search(query, chunks.value, k);
    if found.None? {
      return Err(CapabilityFailure);
    }
    var retrieved := SelectChunks(chunks.value, found.value);
    if retrieved.Err? {
      return Err(retrieved.error);
    }
    store.Write(outputPath, JsonText(RetrievedJson(Retrieval(query, retrieved.value))));
    return Ok(retrieved.value);
  }

  /** Every retrieved chunk is one of the document's chunks, one per index
      the search returned, in search order. */
  lemma RetrievedFromChunks(files: map<string, FileContent>, ocrPath: string, k: int,
                            search: (Json, seq<Chunk>, int) -> Option<seq<int>>)
    requires RagPipeline(files, ocrPath, k, search).Ok?
    ensures LoadOcr(files, ocrPath).Ok?
    ensures TextChunks(LoadOcr(files, ocrPath).value.0, DefaultMaxLen, None).Ok?
    ensures RagPipeline(files, ocrPath, k, search).value.query == LoadOcr(files, ocrPath).value.1
    ensures var chunks := TextChunks(LoadOcr(files, ocrPath).value.0, DefaultMaxLen, None).value;
            var indices := search(LoadOcr(files, ocrPath).value.1, chunks, k);
            var retrieved := RagPipeline(files, ocrPath, k, search).value.retrieved;
            indices.Some? && |retrieved| == |indices.value|
            && forall j :: 0 <= j < |retrieved| ==> retrieved[j] in chunks
  {
    var (pages, query) := LoadOcr(files, ocrPath).value;
    var chunks := TextChunks(pages, DefaultMaxLen, None).value;
    var indices := search(query, chunks, k).value;
    var retrieved := RagPipeline(files, ocrPath, k, search).value.retrieved;
    forall j | 0 <= j < |retrieved|
      ensures retrieved[j] in chunks
    {
      assert retrieved[j] == chunks[PyIndex(indices[j], |chunks|)];
    }
  }

  /** The search runs only after loading and chunking succeeded: before
      that, the outcome does not depend on it. */
  lemma SearchAfterChunking(files: map<string, FileContent>, ocrPath: string, k: int,
                            s1: (Json, seq<Chunk>, int) -> Option<seq<int>>,
                            s2: (Json, seq<Chunk>, int) -> Option<seq<int>>)
    requires LoadOcr(files, ocrPath).Err?
             || TextChunks(LoadOcr(files, ocrPath).value.0, DefaultMaxLen, None).Err?
    ensures RagPipeline(files, ocrPath, k, s1) == RagPipeline(files, ocrPath, k, s2)
    ensures RagPipeline(files, ocrPath, k, s1).Err?
  {
  }
}
