/** The optional value used for a read that may hit the end of the stream
    and for the Doppler offset that is absent until the first refresh. */
module Wrappers {
  datatype Option<+T> = None | Some(value: T)
}
