/** Result codes of the `sb_*` interface. */
module Codes {
  datatype Code =
    | Success
    | OutOfMem
    | Truncated
    | BadState
    | BadResult
    | CantOpen
    | NotFound
    | FdTooBig
    | Handler(res: int)  // a negative result of the event handler, passed on unchanged
}
