/** Types that several parts of the model share. */
module Common {

  datatype Option<+T> = None | Some(value: T)

  /** A cursor hash. */
  type Hash = nat
}
