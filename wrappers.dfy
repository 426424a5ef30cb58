/** The optional value used where the widget's JavaScript yields `null` or `undefined`. */
module Wrappers {

  datatype Option<+T> = None | Some(value: T)

}
