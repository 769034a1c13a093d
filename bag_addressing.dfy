/**
 * Offset addressing: every link in a bag file is a 32-bit byte offset from
 * the start of the mapping, with 0 standing for null. `entry_addr` turns an
 * offset into a 64-bit address and `entry_offset` turns an address back.
 * Neither checks that the result lies inside the 64 KiB mapping.
 */
module BagAddressing {
  import opened CStrings
  import opened BagLayout

  type Addr = a: int | 0 <= a < U64_LIMIT

  /** A `struct bigbag_entry_s *`: null, or an address. */
  datatype EntryPtr = Null | At(addr: Addr)

  /** `entry_addr(hdr, offset)`: null for offset 0, otherwise `hdr + offset`. */
  function EntryAddr(hdr: Addr, offset: U32): (p: EntryPtr)
    ensures p == Null <==> offset == 0
  {
    if offset == 0 then Null else At((hdr + offset) % U64_LIMIT)
  }

  /** `entry_offset(hdr, entry)`: the 64-bit difference, cast to `uint32_t`. */
  function EntryOffset(hdr: Addr, entry: Addr): (offset: U32)
    ensures (hdr + offset) % U32_LIMIT == entry % U32_LIMIT
  {
    ((entry - hdr) % U64_LIMIT) % U32_LIMIT
  }

  /** `entry_offset` recovers every nonzero offset given to `entry_addr`. */
  lemma OffsetOfAddr(hdr: Addr, offset: U32)
    requires offset != 0
    ensures EntryAddr(hdr, offset).At?
    ensures EntryOffset(hdr, EntryAddr(hdr, offset).addr) == offset
  {
    var a := EntryAddr(hdr, offset).addr;
    if hdr + offset < U64_LIMIT {
      assert a - hdr == offset;
    } else {
      assert a == hdr + offset - U64_LIMIT;
      assert (a - hdr) % U64_LIMIT == offset;
    }
  }

  /**
   * Conversely, an address within 4 GiB above the mapping's start, other
   * than the start itself, is rebuilt by `entry_addr` from its offset.
   */
  lemma AddrOfOffset(hdr: Addr, entry: Addr)
    requires 0 < (entry - hdr) % U64_LIMIT < U32_LIMIT
    ensures EntryAddr(hdr, EntryOffset(hdr, entry)) == At(entry)
  {
    var d := (entry - hdr) % U64_LIMIT;
    assert EntryOffset(hdr, entry) == d;
    if entry >= hdr {
      assert d == entry - hdr;
    } else {
      assert d == entry - hdr + U64_LIMIT;
    }
  }

  /**
   * Two list pointers are equal exactly when their offsets are, which is
   * why the two-runner loops may compare offsets where the source compares
   * pointers (`back == front`).
   */
  lemma EntryAddrInjective(hdr: Addr, x: U32, y: U32)
    ensures EntryAddr(hdr, x) == EntryAddr(hdr, y) <==> x == y
  {
    if x != 0 && y != 0 && EntryAddr(hdr, x) == EntryAddr(hdr, y) {
      OffsetOfAddr(hdr, x);
      OffsetOfAddr(hdr, y);
    }
  }
}
