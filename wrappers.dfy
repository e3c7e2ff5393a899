/** The optional value of the model: an absent relation or field, or a search that found nothing. */
module Wrappers {
  datatype Option<T> = None | Some(value: T)
}
