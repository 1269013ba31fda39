/** Option and Result types shared by the codec modules. */
module Wrappers {

  /** An optional value: `bytes_opt` and `optional<bytes_view>` in the codec. */
  datatype Option<+T> = None | Some(value: T)

  /** Either a value or the `marshal_exception` the codec throws on a malformed buffer. */
  datatype Result<+T> = Ok(value: T) | MarshalError
}
