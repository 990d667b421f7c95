/** Error values and the optional-value and result wrappers shared by the
    route-statistics model. */
module Errors {

  datatype Option<+T> = None | Some(value: T)

  datatype Result<+T> = Ok(value: T) | Err(error: Error)

  /** The errors the aggregator hands back.  `Foreign` stands for an error
      value made by code outside the core (the t-digest library, the JSON
      encoder, the HTTP client); the core only passes such a value on.  The
      other two are the errors `send` makes itself from the response status. */
  datatype Error =
    | Foreign(code: nat)
    | Unauthorized
    | UnexpectedStatus(status: int)
}
