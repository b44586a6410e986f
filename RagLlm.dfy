/** The generation stage of rag_llm.py: `load_json_file`, and the guards,
    passage projection and output shape of `run_team3_rag`. The LangChain
    pipeline (embeddings, vector store, LLM and the QA chain) is one opaque
    capability `chain(question, texts)` that returns the chain's response
    dictionary, or `None` when any part of it raises. */
module RagLlm {
  import opened Outcomes
  import opened JsonData

  /** `load_json_file(path)`: the document, or `None` instead of any
      exception `open` or `json.load` raises. */
  function LoadJsonFile(files: map<string, FileContent>, path: string): (r: Option<Json>)
    ensures r.None? <==> ReadJson(files, path).Err?
    ensures r.Some? ==> ReadJson(files, path) == Ok(r.value)
  {
    match ReadJson(files, path)
    case Err(_) => None
    case Ok(v) => Some(v)
  }

  /** `chunk["text"]` for each item of a list, in order; the first item
      that is not a dict with a `text` key raises. */
  function TextFields(items: seq<Json>): (r: Result<seq<Json>>)
    ensures r.Ok? <==> forall i :: 0 <= i < |items| ==> items[i].JObj? && "text" in items[i].fields
    ensures r.Err? ==> r.error == MalformedChunk
    ensures r.Ok? ==> |r.value| == |items|
    ensures r.Ok? ==> forall i :: 0 <= i < |items| ==> r.value[i] == items[i].fields["text"]
    decreases |items|
  {
    if items == [] then Ok([])
    else if !(items[0].JObj? && "text" in items[0].fields) then Err(MalformedChunk)
    else Then([items[0].fields["text"]], TextFields(items[1..]))
  }

  /** `[chunk["text"] for chunk in docs]`: iterating a non-empty dict or
      string yields keys or characters, which cannot be indexed by
      `"text"`; other values are not iterable. */
  function Passages(docs: Json): (r: Result<seq<Json>>)
    ensures r.Ok? <==> (docs.JArr? && TextFields(docs.items).Ok?)
                       || ((docs.JObj? || docs.JStr?) && !Truthy(docs))
    ensures r.Ok? && docs.JArr? ==> r.value == TextFields(docs.items).value
    ensures r.Ok? && !docs.JArr? ==> r.value == []
    ensures r.Err? ==> r.error == MalformedChunk
  {
    match docs
    case JArr(items) => TextFields(items)
    case JObj(fields) => if |fields| == 0 then Ok([]) else Err(MalformedChunk)
    case JStr(s) => if s == "" then Ok([]) else Err(MalformedChunk)
    case _ => Err(MalformedChunk)
  }

  /** How `run_team3_rag` ends. It never raises: every exception is caught
      and reported, and only `Answered` writes a file. */
  datatype AnswerOutcome =
    | NoData                  // the input was missing, unreadable or falsy
    | NoQuery                 // the query was missing or falsy
    | Failed(error: Error)    // an exception, caught
    | Answered(output: Json)  // the document written to the output path

  /** `run_team3_rag` on the loaded input `data`. */
  function Answer(data: Option<Json>, chain: (Json, seq<Json>) -> Option<map<string, Json>>): AnswerOutcome
  {
    if data.None? || !Truthy(data.value) then NoData
    // data.get on anything but a dict raises AttributeError
    else if !data.value.JObj? then Failed(WrongType)
    else
      var question := Get(data.value.fields, "query", JStr(""));
      var docs := Get(data.value.fields, "retrieved_chunks", JArr([]));
      if !Truthy(question) then NoQuery
      else
        match Passages(docs)
        case Err(e) => Failed(e)
        case Ok(texts) =>
          match chain(question, texts)
          case None => Failed(CapabilityFailure)
          case Some(response) => Answered(JObj(map["result" := Get(response, "result", JStr(""))]))
  }

  /** The files after `run_team3_rag(input_path, output_path)`. */
  function AnswerFiles(files: map<string, FileContent>, inputPath: string, outputPath: string,
                       chain: (Json, seq<Json>) -> Option<map<string, Json>>): map<string, FileContent>
  {
    match Answer(LoadJsonFile(files, inputPath), chain)
    case Answered(output) => files[outputPath := JsonText(output)]
    case _ => files
  }

  /** `run_team3_rag`: the guarded early returns, then the chain, then the
      write of `{"result": answer}`. */
  method RunTeam3Rag(store: ArtifactStore, inputPath: string, outputPath: string,
                     chain: (Json, seq<Json>) -> Option<map<string, Json>>)
    returns (outcome: AnswerOutcome)
    modifies store
    ensures outcome == Answer(LoadJsonFile(old(store.files), inputPath), chain)
    ensures store.files == AnswerFiles(old(store.files), inputPath, outputPath, chain)
  {
    var data := LoadJsonFile(store.files, inputPath);
    if data.None? || !Truthy(data.value) {
      return NoData;
    }
    if !data.value.JObj? {
      return Failed(WrongType);
    }
    var question := Get(data.value.fields, "query", JStr(""));
    var docs := Get(data.value.fields, "retrieved_chunks", JArr([]));
    if !Truthy(question) {
      return NoQuery;
    }
    var texts := Passages(docs);
    if texts.Err? {
      return Failed(texts.error);
    }
    var response := chain(question, texts.value);
    if response.None? {
      return Failed(CapabilityFailure);
    }
    var answer := Get(response.value, "result", JStr(""));
    var output := JObj(map["result" := answer]);
    store.Write(outputPath, JsonText(output));
    return Answered(output);
  }

  /** With no data, or with a missing or empty query, the chain is never
      consulted: the outcome is the same whatever it would answer, and no
      output is written. */
  lemma GuardsSkipChain(data: Option<Json>, c1: (Json, seq<Json>) -> Option<map<string, Json>>,
                        c2: (Json, seq<Json>) -> Option<map<string, Json>>)
    requires data.None? || !Truthy(data.value)
             || (data.value.JObj? && !Truthy(Get(data.value.fields, "query", JStr(""))))
    ensures Answer(data, c1) == Answer(data, c2)
    ensures Answer(data, c1) == NoData || Answer(data, c1) == NoQuery
  {
  }

  /** An answer is the chain's `result` for the question and the `text`
      fields of the retrieved chunks, in order, under the single key
      `result`, and `""` when the response has none. */
  lemma AnsweredShape(data: Option<Json>, chain: (Json, seq<Json>) -> Option<map<string, Json>>)
    requires Answer(data, chain).Answered?
    ensures data.Some? && data.value.JObj?
    ensures var f := data.value.fields;
            var question := Get(f, "query", JStr(""));
            var docs := Get(f, "retrieved_chunks", JArr([]));
            Truthy(question) && Passages(docs).Ok?
            && chain(question, Passages(docs).value).Some?
            && var response := chain(question, Passages(docs).value).value;
               var output := Answer(data, chain).output;
               output.JObj? && output.fields.Keys == {"result"}
               && ("result" in response ==> output.fields["result"] == response["result"])
               && ("result" !in response ==> output.fields["result"] == JStr(""))
  {
  }

  /** A missing `retrieved_chunks` key reads as an empty list of passages. */
  lemma MissingChunksAreEmpty(fields: map<string, Json>)
    requires "retrieved_chunks" !in fields
    ensures Passages(Get(fields, "retrieved_chunks", JArr([]))) == Ok([])
  {
  }
}
