/** Optional values (the source's None) and the outcomes of operations that can fail. */
module Wrappers {

  datatype Option<T> = None | Some(value: T)

  /** Why an operation was refused. Each refusal leaves the store unchanged. */
  datatype Error =
    | NotFound       // get_object_or_404, or "no current mandate"
    | Invalid        // a form that does not validate
    | Conflict       // a uniqueness constraint of the database
    | InUse          // a bureau function that still has current holders
    | BadIds         // an id in a card selection that int() rejects
    | TooMany        // more than 20 cards for one print page
    | NothingFound   // an empty selection, or no member with the given ids

  datatype Result<T> = Ok(value: T) | Err(error: Error)
}
