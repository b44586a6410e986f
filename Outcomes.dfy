/** Failure-carrying values shared by the whole model. A Python exception that
    propagates out of a call is an `Err`; the error kinds name the exceptions
    the core can raise. */
module Outcomes {

  datatype Option<T> = None | Some(value: T)

  datatype Error =
    | EmptySeparator      // str.split("") raises ValueError
    | MalformedPage       // a page entry that is not {"page": .., "para": <str>}
    | MalformedChunk      // a retrieved chunk that is not {"text": ..}
    | FileMissing         // open() on a path that does not exist
    | MalformedJson       // json.load() on a file that is not JSON
    | WrongType           // a JSON document whose top level is not an object
    | MissingKeys         // load_json_from_team1's ValueError
    | IndexOutOfRange     // chunks[i] with i outside [-len, len)
    | CapabilityFailure   // the embedding/index or the generation library raised

  datatype Result<T> = Ok(value: T) | Err(error: Error)

  /** `prefix` followed by the list `r` computes, unless `r` failed. */
  function Then<T>(prefix: seq<T>, r: Result<seq<T>>): Result<seq<T>>
  {
    match r
    case Ok(xs) => Ok(prefix + xs)
    case Err(e) => Err(e)
  }
}
