/** The nullable values of the application (`Date | null`, `number | null`). */
module Wrappers {

  datatype Option<+T> = None | Some(value: T)
}
