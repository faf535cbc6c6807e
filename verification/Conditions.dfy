/** Whether something is as it should be: a value instead of a formula, so that it is looked into only on demand. */
module Conditions {
  datatype Condition = Sound | Unsound
}
