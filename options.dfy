/** An optional value: `null` in the game, `None` here. */
module Options {
  datatype Option<T> = None | Some(value: T)
}
