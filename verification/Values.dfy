/** Types that all parts of the model share. */
module Values {

  type byte = b: nat | b < 256

  datatype Option<+T> = None | Some(value: T)
}
