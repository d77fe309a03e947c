/** Values shared by every part of the model: an optional value, the
    representation of Rust's Option. */
module Base {

  datatype Option<+T> = None | Some(value: T)

}
