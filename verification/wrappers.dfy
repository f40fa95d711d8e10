/** The optional value the registry lookup returns, standing in for Java's `Optional`. */
module Wrappers {

  datatype Option<+T> = None | Some(value: T)

}
