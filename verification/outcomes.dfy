/** Failure-carrying results for the route handlers: the Python exceptions a
    handler can raise on a malformed session become explicit values. */
module Outcomes {

  /** The exceptions a handler can raise while reading the session. */
  datatype Fault =
    | KeyError(key: string)   // a session key that is not present
    | IndexError              // a list subscript outside the list
    | TypeError               // a session value of an unexpected shape
    | AttributeError          // `append` on a session value that is no list

  datatype Result<+T> = Ok(value: T) | Err(fault: Fault)

  datatype Option<+T> = None | Some(value: T)

  /** Python's `xs[i]` on a list: negative indices count from the end. */
  function PyIndex<T>(xs: seq<T>, i: int): (r: Result<T>)
    ensures r.Ok? <==> -|xs| <= i < |xs|
    ensures 0 <= i < |xs| ==> r == Ok(xs[i])
    ensures -|xs| <= i < 0 ==> r == Ok(xs[|xs| + i])
  {
    if 0 <= i < |xs| then Ok(xs[i])
    else if -|xs| <= i < 0 then Ok(xs[|xs| + i])
    else Err(IndexError)
  }
}
