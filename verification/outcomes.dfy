/**
 * The one failure-carrying type of the model. `None` stands for the Python
 * exception the modelled code would raise (an `IndexError` from indexing the
 * Base64 alphabet, a `ValueError` from `str.index`).
 */
module Outcomes {

  datatype Option<+T> = None | Some(value: T)
}
