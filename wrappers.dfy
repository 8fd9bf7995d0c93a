/** Absence marker shared by every stage of the pipeline (Python's `None`). */
module Wrappers {

  datatype Option<+T> = None | Some(value: T)
}
