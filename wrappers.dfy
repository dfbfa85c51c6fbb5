/** Optional values, results and the exceptions the Python code raises. */
module Wrappers {

  datatype Option<+T> = None | Some(value: T)

  /** The exceptions of the modelled code that abort a computation. */
  datatype Failure =
    | ValueError                   // a token int(), float() or fromisoformat() rejects, or a row of the wrong arity
    | BatchMismatch(held: int, seen: int)  // the AssertionError of read_orderset_filter
    | ParseFailure(line: nat)      // RuntimeError("Failed to parse line ...")
    | NoRuleMatches(marketGroup: string)   // RuntimeError("No rule matches ...")
    | ZeroDivision                 // ZeroDivisionError
    | UnknownStation(station: int) // AttributeError on the None returned by a failed station lookup

  datatype Result<+T> = Ok(value: T) | Err(failure: Failure)

  /** What a Python generator produced: the values yielded, in order, and the
      exception that ended it, if one did. */
  datatype Yielded<+T> = Yielded(items: seq<T>, failure: Option<Failure>)
}
