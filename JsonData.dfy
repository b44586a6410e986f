/** JSON values as `json.load` produces them, Python truthiness and
    `dict.get`, and the artifact storage area: the `input/`, `ocr/`,
    `retrieval/` and `output/` directories seen as one map from path to
    file content that the pipeline stages update in place. */
module JsonData {
  import opened Outcomes

  /** A JSON value. Numbers are integers only (see README, "Left out"). */
  datatype Json =
    | JNull
    | JBool(b: bool)
    | JNum(n: int)
    | JStr(s: string)
    | JArr(items: seq<Json>)
    | JObj(fields: map<string, Json>)

  /** Python's `bool(v)` for the value `json.load` returns: only `None`,
      `False`, zero and the empty string, list and dict are falsy. */
  function Truthy(v: Json): (r: bool)
    ensures !r <==> v == JNull || v == JBool(false) || v == JNum(0) || v == JStr("")
                    || v == JArr([]) || v == JObj(map[])
  {
    match v
    case JNull => false
    case JBool(b) => b
    case JNum(n) => n != 0
    case JStr(s) => s != ""
    case JArr(items) => |items| > 0
    case JObj(fields) => |fields| > 0
  }

  /** `d.get(key, default)`. */
  function Get(d: map<string, Json>, key: string, default: Json): Json
  {
    if key in d then d[key] else default
  }

  type byte = x: int | 0 <= x < 256

  /** What a path holds: a JSON document, a file that does not parse as
      JSON, or the raw bytes of an upload. */
  datatype FileContent =
    | JsonText(value: Json)
    | Unparseable
    | Bytes(data: seq<byte>)

  /** `json.load(open(path))`: the document at `path`, or the exception
      that `open` or `json.load` raises. */
  function ReadJson(files: map<string, FileContent>, path: string): (r: Result<Json>)
    ensures r.Ok? <==> path in files && files[path].JsonText?
    ensures r.Ok? ==> files[path] == JsonText(r.value)
    ensures path !in files ==> r == Err(FileMissing)
    ensures path in files && !files[path].JsonText? ==> r == Err(MalformedJson)
  {
    if path !in files then Err(FileMissing)
    else match files[path]
      case JsonText(v) => Ok(v)
      case _ => Err(MalformedJson)
  }

  /** The files the service reads and writes, keyed by path. */
  class ArtifactStore {
    var files: map<string, FileContent>

    constructor (initial: map<string, FileContent>)
      ensures files == initial
    {
      files := initial;
    }

    /** `open(path, "w")` followed by a complete write. */
    method Write(path: string, content: FileContent)
      modifies this
      ensures files == old(files)[path := content]
    {
      files := files[path := content];
    }
  }
}
