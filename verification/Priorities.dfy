/** Priorities of operations: the depth of the package, or, for uninstalls, above every depth. */
module Priorities {
  datatype Priority = Depth(depth: int) | Infinite

  predicate Above(p: Priority, q: Priority) {
    match q
    case Infinite => false
    case Depth(d) => p.Infinite? || p.depth > d
  }
}
