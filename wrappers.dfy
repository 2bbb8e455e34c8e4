/** Values that may be absent, and evaluations that may throw. */
module Wrappers {

  /** A C# reference or nullable value: `None` is `null`. */
  datatype Option<+T> = None | Some(value: T)

  /** The outcome of evaluating a C# expression that can throw
      (a null dereference, or a cast of a null `bool?`). */
  datatype Eval<+T> = Value(value: T) | Throws

  /** `string.IsNullOrEmpty`. */
  predicate IsNullOrEmpty(s: Option<string>) {
    s.None? || s.value == ""
  }
}

/** The envelope a write handler answers with. */
module Responses {

  datatype Response =
    | Created(id: string)          // `CreatedAtAction` carrying the new record's id
    | Succeeded(message: string)   // `{ success = true, message }`
    | Failed(message: string)      // `{ success = false, message }`
    | Faulted(handled: bool)       // an exception: rendered as `{ success = false, message = e.Message }`
                                   // when the handler catches it, an HTTP 500 when it does not
}

/** `System.HashCode.Combine`: a deterministic mix of its arguments
    (the runtime's per-process seed is fixed here to 17). */
module Hashing {

  const Modulus: int := 0x1_0000_0000

  function Combine(parts: seq<int>): (h: int)
    ensures 0 <= h < Modulus
  {
    if parts == [] then 17
    else (Combine(parts[..|parts| - 1]) * 31 + parts[|parts| - 1]) % Modulus
  }
}
