/**
 * Bytes and byte orders, shared by the entry base (its cached byte form)
 * and the numeric entry (its serialisation).
 */
module Bytes {

  newtype byte = b: int | 0 <= b < 256

  /** The byte order a directory is written in. */
  datatype ByteOrder = LittleEndian | BigEndian
}
