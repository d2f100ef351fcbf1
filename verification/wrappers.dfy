/** The optional value used where the planner holds a possibly missing reference
    (a node's parent, the result of a nearest-node search on an empty tree). */
module Wrappers {

  datatype Option<+T> = None | Some(value: T)
}
