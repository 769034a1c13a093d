/**
 * The on-disk format of a bag file: its constants, the header and the
 * records carved out of the 64 KiB buffer. Byte order and the packing of
 * the 8-bit tag with the 24-bit length into one 32-bit word are not
 * modelled; each field is a natural number with the bound of its width.
 */
module BagLayout {
  import opened CStrings

  /** Identifies a bag file. */
  const BIGBAG_MAGIC: int := 0xC514_9BA9
  /** The tag of a record that is not on the list. */
  const FREE_TAG: Byte := 0xF4
  /** The tag of a record that holds a string on the list. */
  const USED_TAG: Byte := 0xDA

  /** Every bag file is 64 KiB. */
  const BIGBAG_SIZE: int := 64 * 1024

  /** `sizeof(struct bigbag_hdr_s)`: three packed 32-bit fields. */
  const HEADER_SIZE: int := 12
  /** `sizeof(struct bigbag_entry_s)`: a 32-bit `next`, then the tag and the length in 32 bits. */
  const PREFIX_SIZE: int := 8
  /** The smallest record worth carving: the prefix plus 4 bytes. */
  const MIN_ENTRY_SIZE: int := PREFIX_SIZE + 4
  /** `sizeof(struct bigbag_entry_s *)` on a 64-bit target: the size of a pointer. */
  const POINTER_SIZE: int := 8

  /** One more than the largest value of the 24-bit `entry_len` field. */
  const LEN_LIMIT: int := 0x100_0000
  type U32 = x: int | 0 <= x < U32_LIMIT
  type U24 = x: int | 0 <= x < LEN_LIMIT

  /**
   * A record (`struct bigbag_entry_s`): the offset of the next record on
   * the list (0 for none), its tag, the length of the payload that follows
   * the prefix, and the payload read as a C string.
   */
  datatype Entry = Entry(next: U32, tag: Byte, len: U24, str: CStr)
}
