/** An optional value: None stands for JavaScript's NaN / Invalid Date or a
    missing entry. */
module Optional {

  datatype Option<T> = None | Some(value: T)
}
