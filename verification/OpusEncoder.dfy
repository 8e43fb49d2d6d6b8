/** What can go wrong in the encoder. */
module OpusEncoder {
  datatype OpusEncodeError = BadArgument | BufferTooSmall | InternalError | Unimplemented | Silk
}
