/** The optional value shared by the navigator and the relay models. */
module Optional {

  /** `None` stands for JavaScript's `null` and PHP's `false`/unset. */
  datatype Option<T> = None | Some(value: T)
}
