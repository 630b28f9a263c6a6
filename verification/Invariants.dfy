/** An invariant as a value: methods hand it on from call to call without its being taken apart. */
module Invariants {
  datatype Standing = Sound | Broken
}
