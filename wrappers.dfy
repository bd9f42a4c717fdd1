/** The optional value used for the robot's "no trade yet" state and for an ATR
    reading that is not a number. */
module Wrappers {

  datatype Option<+T> = None | Some(value: T)
}
