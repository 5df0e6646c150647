/** Small wrapper types shared by every page of the dashboard. */
module Basics {

  /** A value that may be absent: JavaScript's `undefined`/`null`. */
  datatype Option<+T> = None | Some(value: T)

  /** The outcome of one `fetch` call, as far as the client can tell:
      a 2xx response with its decoded body, or anything else (network error,
      non-2xx status, undecodable body), which every page treats alike. */
  datatype Reply<+T> = Ok(value: T) | Err
}
