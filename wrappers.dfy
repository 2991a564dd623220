/** Small failure-carrying datatypes shared by the other modules. */
module Wrappers {

  /** Kotlin's nullable value: `None` stands for `null`. */
  datatype Option<+T> = None | Some(value: T)

  /** How a Kotlin block ends: it returns a value, or it throws. */
  datatype Attempt<+R> = Returned(value: R) | Threw
}
