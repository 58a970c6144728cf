/** The optional value that replaces the ray tracer's nullable `Intersection*`. */
module Wrappers {

  datatype Option<+T> = None | Some(value: T)
}
