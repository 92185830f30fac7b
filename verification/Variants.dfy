/** The two readings of a piece of code that does not do what it is for. */
module Variants {
  /** AsWritten is the code; Repaired has the branch in question mended, as the module at hand describes. */
  datatype Variant = AsWritten | Repaired
}
