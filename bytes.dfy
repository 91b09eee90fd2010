/** Bytes, block sizes and digest algorithms. */
module Bytes {

  /** One octet. */
  newtype Byte = x: int | 0 <= x < 256

  /** A strictly positive size, such as a file system's preferred I/O block size. */
  type Pos = x: int | x > 0 witness 1

  /** A digest algorithm (MD5, SHA-1, SHA-2, ...). Its internals live in a foreign
      library; the model only uses it as a function from the bytes fed to it to the
      digest it produces. */
  type Algorithm = seq<Byte> -> seq<Byte>

  /** The fixed read-buffer size used when the platform does not report one
      (`DEFAULT_BLOCK_SIZE`, `Archive::DEFAULT_BLOCK_SIZE`). */
  const DEFAULT_BLOCK_SIZE: Pos := 65536
}
