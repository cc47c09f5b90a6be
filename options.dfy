/** An optional value: PHP's `false` from strpos and `null` from a missing array key. */
module Options {

  datatype Option<+T> = None | Some(value: T)
}
