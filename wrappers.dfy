/** The optional result of the topological sort: `None` stands for "there is a cycle". */
module Wrappers {

  datatype Option<+T> = None | Some(value: T)
}
