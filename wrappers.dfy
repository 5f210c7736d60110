/** Option, for the values the Java code represents with null. */
module Wrappers {

  datatype Option<+T> = None | Some(value: T)
}
