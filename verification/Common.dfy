/** Types that several components use. */
module Common {

  type byte = x: int | 0 <= x < 256

  /** A value that may be missing, or a pointer that may be NULL. */
  datatype Option<T> = None | Some(value: T)
}
