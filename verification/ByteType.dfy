/** Bytes, as memory, disks and packets hold them. */
module ByteType {
  type Byte = b: int | 0 <= b < 256
}
