/** The optional-value datatype the ledger uses for JavaScript's `undefined`. */
module Wrappers {

  /** `None` stands for a property that was never assigned (`undefined`). */
  datatype Option<+T> = None | Some(value: T)
}
