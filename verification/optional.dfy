/** The conventional Some/None datatype, used for "not found" and "not requested". */
module Optional {

  datatype Option<+T> = None | Some(value: T)
}
