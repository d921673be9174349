/** An optional value: the result of the decoders and the container
    reader, None on malformed input. */
module Options {
  datatype Option<T> = None | Some(value: T)
}
