/** The address table of the version-2 header: 15 slots of 16 bytes from
    0x0F00, each holding a little-endian u64 offset, u32 size and u32 CRC. */
module AddrTable {
  import opened Errors
  import opened Bytes

  const ADDR_TABLE_BASE: nat := 0x0F00
  const SLOT_SIZE: nat := 0x10
  const SLOT_COUNT: nat := 15
  const TABLE_END: nat := ADDR_TABLE_BASE + SLOT_COUNT * SLOT_SIZE

  const SLOT_ICON: nat := 0
  const SLOT_THMB: nat := 1
  const SLOT_MANF: nat := 2
  const SLOT_ENTRY: nat := 3
  const SLOT_INDEX: nat := 4
  const SLOT_DATA: nat := 5
  /** The slot the stages use for the whole-image CRC. */
  const SLOT_IMAGE: nat := 6

  /** `slot_offset(i)`. */
  function SlotOffset(i: int): int {
    ADDR_TABLE_BASE + i * SLOT_SIZE
  }

  /** The 15 slots tile bytes 3840..4079 exactly, in order and without overlap. */
  lemma SlotsTileTable(i: int, j: int)
    requires 0 <= i < j < SLOT_COUNT
    ensures SlotOffset(0) == 3840 && SlotOffset(SLOT_COUNT - 1) + SLOT_SIZE == TABLE_END == 4080
    ensures 3840 <= SlotOffset(i) && SlotOffset(i) + SLOT_SIZE <= SlotOffset(j) && SlotOffset(j) + SLOT_SIZE <= 4080
  {
  }

  /** The values a slot can hold without `struct.error`. */
  predicate Fits(offset: int, size: int, crc: int) {
    0 <= offset < U64_LIMIT && 0 <= size < U32_LIMIT && 0 <= crc < U32_LIMIT
  }

  /** The 16 bytes of a slot. */
  function SlotBytes(offset: int, size: int, crc: int): (b: Bytes)
    requires Fits(offset, size, crc)
    ensures |b| == SLOT_SIZE
  {
    LimitsArePowers();
    LE(offset, 8) + LE(size, 4) + LE(crc, 4)
  }

  /** The buffer with slot `i` holding the three values. */
  function SetSlot(h: Bytes, i: nat, offset: int, size: int, crc: int): (r: Bytes)
    requires i < SLOT_COUNT && Fits(offset, size, crc) && SlotOffset(i) + SLOT_SIZE <= |h|
    ensures |r| == |h|
  {
    Splice(h, SlotOffset(i), SlotBytes(offset, size, crc))
  }

  /** The three values of one slot. */
  datatype Slot = Slot(offset: nat, size: nat, crc: nat)

  /** The offset, size and CRC stored in slot `i`. */
  function ReadSlot(h: Bytes, i: nat): Slot
    requires i < SLOT_COUNT && SlotOffset(i) + SLOT_SIZE <= |h|
  {
    var off := SlotOffset(i);
    Slot(FromLE(h[off..off + 8]), FromLE(h[off + 8..off + 12]), FromLE(h[off + 12..off + 16]))
  }

  /** `write_slot(header, i, offset, size, crc32)` on an immutable buffer:
      "Invalid slot index" first, then the three `struct.pack_into` stores,
      each of which fails when its value does not fit or the buffer is too
      short. */
  function SlotWrite(h: Bytes, i: int, offset: int, size: int, crc: int): (r: Result<Bytes>)
    ensures !(0 <= i < SLOT_COUNT) ==> r == Failure(InvalidSlotIndex(i))
    ensures 0 <= i < SLOT_COUNT ==>
      (r.Success? <==> Fits(offset, size, crc) && SlotOffset(i) + SLOT_SIZE <= |h|)
    ensures r.Failure? && 0 <= i < SLOT_COUNT ==> r.error == StructError
    ensures r.Success? ==> 0 <= i < SLOT_COUNT && Fits(offset, size, crc) && SlotOffset(i) + SLOT_SIZE <= |h|
                           && r.value == SetSlot(h, i, offset, size, crc)
  {
    if i < 0 || i >= SLOT_COUNT then Failure(InvalidSlotIndex(i))
    else
      var off := SlotOffset(i);
      var h1 :- PackInto(h, off, offset, 8);
      var h2 :- PackInto(h1, off + 8, size, 4);
      var h3 :- PackInto(h2, off + 12, crc, 4);
      ThreeStores(h, h1, h2, h3, off, offset, size, crc);
      Success(h3)
  }

  /** The three stores of `write_slot` together splice in the slot's bytes. */
  lemma ThreeStores(h: Bytes, h1: Bytes, h2: Bytes, h3: Bytes, off: nat, offset: int, size: int, crc: int)
    requires PackInto(h, off, offset, 8) == Success(h1)
    requires PackInto(h1, off + 8, size, 4) == Success(h2)
    requires PackInto(h2, off + 12, crc, 4) == Success(h3)
    ensures Fits(offset, size, crc) && off + SLOT_SIZE <= |h|
    ensures h3 == Splice(h, off, SlotBytes(offset, size, crc))
  {
    LimitsArePowers();
    var b := SlotBytes(offset, size, crc);
    forall k | 0 <= k < |h| ensures h3[k] == Splice(h, off, b)[k] {
      if off <= k < off + 8 {
        assert h1[k] == LE(offset, 8)[k - off];
      } else if off + 8 <= k < off + 12 {
        assert h2[k] == LE(size, 4)[k - off - 8];
      } else if off + 12 <= k < off + 16 {
        assert h3[k] == LE(crc, 4)[k - off - 12];
      }
    }
  }

  /** A written slot reads back as the values written. */
  lemma ReadSetSlot(h: Bytes, i: nat, offset: int, size: int, crc: int)
    requires i < SLOT_COUNT && Fits(offset, size, crc) && SlotOffset(i) + SLOT_SIZE <= |h|
    ensures ReadSlot(SetSlot(h, i, offset, size, crc), i) == Slot(offset, size, crc)
  {
    LimitsArePowers();
    var off := SlotOffset(i);
    var r := SetSlot(h, i, offset, size, crc);
    assert r[off..off + 16] == SlotBytes(offset, size, crc);
    assert r[off..off + 8] == LE(offset, 8);
    assert r[off + 8..off + 12] == LE(size, 4);
    assert r[off + 12..off + 16] == LE(crc, 4);
    FromLEOfLE(offset, 8);
    FromLEOfLE(size, 4);
    FromLEOfLE(crc, 4);
  }

  /** Writing slot `i` leaves every other slot's contents as they were. */
  lemma ReadOtherSlot(h: Bytes, i: nat, j: nat, offset: int, size: int, crc: int)
    requires i < SLOT_COUNT && j < SLOT_COUNT && i != j
    requires Fits(offset, size, crc) && SlotOffset(i) + SLOT_SIZE <= |h| && SlotOffset(j) + SLOT_SIZE <= |h|
    ensures ReadSlot(SetSlot(h, i, offset, size, crc), j) == ReadSlot(h, j)
  {
    var r := SetSlot(h, i, offset, size, crc);
    var off := SlotOffset(j);
    assert r[off..off + 16] == h[off..off + 16];
    assert r[off..off + 8] == h[off..off + 8];
    assert r[off + 8..off + 12] == h[off + 8..off + 12];
    assert r[off + 12..off + 16] == h[off + 12..off + 16];
  }

  /** A slot of zeros is 16 zero bytes. */
  lemma ZeroSlotBytes()
    ensures SlotBytes(0, 0, 0) == Zeros(SLOT_SIZE)
  {
    LimitsArePowers();
    LEZero(8);
    LEZero(4);
  }

  /** The buffer as `clear_all_slots` leaves it. */
  function Cleared(h: Bytes): (r: Bytes)
    requires TABLE_END <= |h|
    ensures |r| == |h|
  {
    h[..ADDR_TABLE_BASE] + Zeros(SLOT_COUNT * SLOT_SIZE) + h[TABLE_END..]
  }

  /** `write_slot` on the caller's `bytearray`. The index check comes before
      any store; a store that fails leaves the earlier stores in place, so a
      failure changes at most the bytes of the chosen slot. */
  method WriteSlot(header: array<byte>, slotIndex: int, offset: int, size: int, crc32: int := 0) returns (o: Outcome)
    modifies header
    ensures o.Pass? <==> SlotWrite(old(header[..]), slotIndex, offset, size, crc32).Success?
    ensures o.Pass? ==> header[..] == SlotWrite(old(header[..]), slotIndex, offset, size, crc32).value
    ensures o.Fail? ==> o.error == SlotWrite(old(header[..]), slotIndex, offset, size, crc32).error
    ensures !(0 <= slotIndex < SLOT_COUNT) ==> header[..] == old(header[..])
    ensures forall k :: 0 <= k < header.Length && !(SlotOffset(slotIndex) <= k < SlotOffset(slotIndex) + SLOT_SIZE)
                        ==> header[k] == old(header[k])
  {
    if slotIndex < 0 || slotIndex >= SLOT_COUNT {
      return Fail(InvalidSlotIndex(slotIndex));
    }
    ghost var h0 := header[..];
    var slotOff := SlotOffset(slotIndex);
    o := StoreLE(header, slotOff, offset, 8);
    if o.Fail? {
      return;
    }
    ghost var h1 := header[..];
    o := StoreLE(header, slotOff + 8, size, 4);
    if o.Fail? {
      return;
    }
    ghost var h2 := header[..];
    o := StoreLE(header, slotOff + 12, crc32, 4);
    assert PackInto(h0, slotOff, offset, 8) == Success(h1);
    assert PackInto(h1, slotOff + 8, size, 4) == Success(h2);
  }

  /** Writing zeros into slot `i` zeroes its 16 bytes. */
  lemma ClearedSlot(h: Bytes, i: nat)
    requires i < SLOT_COUNT && SlotOffset(i) + SLOT_SIZE <= |h|
    ensures Fits(0, 0, 0)
    ensures forall k :: SlotOffset(i) <= k < SlotOffset(i + 1) ==> SetSlot(h, i, 0, 0, 0)[k] == 0
  {
    LimitsArePowers();
    ZeroSlotBytes();
  }

  /** `clear_all_slots`: `write_slot(header, i, 0, 0, 0)` for every slot. It
      fails with `struct.error` on a buffer that ends inside the table. */
  method ClearAllSlots(header: array<byte>) returns (o: Outcome)
    modifies header
    ensures o.Pass? <==> TABLE_END <= header.Length
    ensures o.Pass? ==> header[..] == Cleared(old(header[..]))
    ensures o.Fail? ==> o.error == StructError
    ensures forall k :: 0 <= k < header.Length && !(ADDR_TABLE_BASE <= k < TABLE_END) ==> header[k] == old(header[k])
  {
    ghost var h0 := header[..];
    ZeroSlotBytes();
    for i := 0 to SLOT_COUNT
      invariant header.Length == |h0|
      invariant forall k :: 0 <= k < header.Length && !(ADDR_TABLE_BASE <= k < TABLE_END) ==> header[k] == h0[k]
      invariant forall k :: ADDR_TABLE_BASE <= k < SlotOffset(i) && k < header.Length ==> header[k] == 0
      invariant i > 0 ==> SlotOffset(i) <= header.Length
    {
      ghost var before := header[..];
      o := WriteSlot(header, i, 0, 0, 0);
      if o.Fail? {
        return;
      }
      ClearedSlot(before, i);
    }
    assert header[..] == Cleared(h0);
    o := Pass;
  }
}
