/** The Option type used throughout the model in place of C# `null`. */
module Wrappers {

  /** `None` stands for a C# `null` reference or an absent dictionary entry. */
  datatype Option<+T> = None | Some(value: T)
}
