/** The IEEE 802.3 CRC-32 that `zlib.crc32(data) & 0xFFFFFFFF` computes
    (reflected polynomial 0xEDB88320, initial value and final xor
    0xFFFFFFFF), written bit by bit. Every property of the packer is stated
    relative to this function; none depends on how it is computed. */
module Checksum {
  import opened Bytes

  const POLY: bv32 := 0xEDB8_8320

  /** Eight shift-and-xor rounds on the running register. */
  function Rounds(c: bv32, k: nat): bv32
    decreases k
  {
    if k == 0 then c
    else Rounds(if c & 1 == 1 then (c >> 1) ^ POLY else c >> 1, k - 1)
  }

  function Update(c: bv32, data: Bytes): bv32
    decreases |data|
  {
    if data == [] then c else Update(Rounds(c ^ (data[0] as int as bv32), 8), data[1..])
  }

  /** `calculate_crc32(data)` as the unsigned integer it returns. */
  function Crc32(data: Bytes): (crc: nat)
    ensures crc < U32_LIMIT
  {
    (Update(0xFFFF_FFFF, data) ^ 0xFFFF_FFFF) as nat
  }
}
