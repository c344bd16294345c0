/** The optional value shared by the other modules. */
module Wrappers {

  /** None stands for a null reference (a null property value, or a query that
      found no row) or, in a request, for a field the request does not carry. */
  datatype Option<T> = None | Some(value: T)
}
