/** Bytes, and the character that ends a C string. */
module ByteString {
  type Byte = b: int | 0 <= b < 256

  const NUL: char := 0 as char
}
